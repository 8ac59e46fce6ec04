/** What hotkey resolution decides, said without its loops: the least valid entry wins each chord,
    every other entry is reported, and a trigger held as a modifier anywhere is blocked. */
module HotkeyWinners {
  import opened Prelude
  import opened Ordering
  import opened Chords
  import opened Hotkeys

  predicate EntryLess(a: Entry, b: Entry) { FieldsLess(EntryFields(a), EntryFields(b)) }

  predicate Rivals(c: Catalog, a: Entry, b: Entry) { Valid(c, a) && Valid(c, b) && IdOf(c, a) == IdOf(c, b) }

  /** The least valid entry for its chord. */
  predicate Winner(c: Catalog, entries: seq<Entry>, e: Entry) {
    e in entries && Valid(c, e) && forall o :: o in entries && Rivals(c, o, e) ==> o == e || EntryLess(e, o)
  }

  /** Why an entry is reported in the first pass. */
  ghost predicate Rejected(c: Catalog, entries: seq<Entry>, e: Entry, message: string) {
    || (c.commandOf(e.action).None? && message == UNKNOWN_ACTION)
    || (c.chordOf(e.binding).None? && message == INVALID_CHORD)
    || exists w :: Winner(c, entries, w) && w != e && Rivals(c, w, e) && message == DuplicateOf(w)
  }

  function EntryOf(i: Issue): Entry { Entry(i.binding, i.action) }

  ghost predicate RejectedIssue(c: Catalog, entries: seq<Entry>, i: Issue) {
    EntryOf(i) in entries && Rejected(c, entries, EntryOf(i), i.message)
  }

  ghost predicate Sorted(entries: seq<Entry>) { Ascending(entries, EntryFields) }

  // ------------------------------------------------------------ the first pass

  ghost predicate AllWin(c: Catalog, entries: seq<Entry>, bs: seq<Binding>) {
    forall k :: 0 <= k < |bs| ==> Winner(c, entries, bs[k].entry) && bs[k] == Bound(c, bs[k].entry)
  }

  predicate Has(bs: seq<Binding>, id: HotkeyId) { exists k :: 0 <= k < |bs| && bs[k].id == id }

  ghost predicate Covers(c: Catalog, entries: seq<Entry>, bs: seq<Binding>) {
    forall o :: o in entries && Valid(c, o) ==> Has(bs, IdOf(c, o))
  }

  ghost predicate WinnersBound(c: Catalog, entries: seq<Entry>, bs: seq<Binding>) {
    AllWin(c, entries, bs) && Covers(c, entries, bs) && Ascending(bs, BindingFields)
  }

  lemma EntriesApart(a: Entry, b: Entry)
    ensures EntryFields(a) == EntryFields(b) <==> a == b
  {
    assert EntryFields(a)[0] == a.binding && EntryFields(a)[1] == a.action;
    assert EntryFields(b)[0] == b.binding && EntryFields(b)[1] == b.action;
  }

  /** Entries are ordered by binding and then by action; issues also by message. */
  lemma OrderOfFields(a: Entry, b: Entry, i: Issue, j: Issue)
    ensures EntryLess(a, b) <==>
            StringLess(a.binding, b.binding) || (a.binding == b.binding && StringLess(a.action, b.action))
    ensures FieldsLess(IssueFields(i), IssueFields(j)) <==>
            || StringLess(i.binding, j.binding)
            || (i.binding == j.binding && StringLess(i.action, j.action))
            || (i.binding == j.binding && i.action == j.action && StringLess(i.message, j.message))
  {
    hide FieldsLess;
    FirstField(a.binding, [a.action], b.binding, [b.action]);
    FirstField(a.action, [], b.action, []);
    FirstField(i.binding, [i.action, i.message], j.binding, [j.action, j.message]);
    FirstField(i.action, [i.message], j.action, [j.message]);
    FirstField(i.message, [], j.message, []);
    NoFields();
    assert EntryFields(a) == [a.binding] + [a.action] && EntryFields(b) == [b.binding] + [b.action];
    assert IssueFields(i) == [i.binding] + [i.action, i.message];
    assert IssueFields(j) == [j.binding] + [j.action, j.message];
    assert [i.action, i.message] == [i.action] + [i.message] && [j.action, j.message] == [j.action] + [j.message];
    assert [a.action] == [a.action] + [] && [b.action] == [b.action] + [];
    assert [i.message] == [i.message] + [] && [j.message] == [j.message] + [];
  }

  lemma FirstField(x: string, xs: seq<string>, y: string, ys: seq<string>)
    ensures FieldsLess([x] + xs, [y] + ys) <==> StringLess(x, y) || (x == y && FieldsLess(xs, ys))
  {
    StringsOrdered();
    assert ([x] + xs)[1..] == xs && ([y] + ys)[1..] == ys;
  }

  lemma NoFields()
    ensures !FieldsLess([], [])
  {}

  lemma LessAsymmetric(a: Entry, b: Entry)
    ensures !(EntryLess(a, b) && EntryLess(b, a)) && !EntryLess(a, a)
    ensures EntryLess(a, b) || EntryLess(b, a) || a == b
  {
    FieldsOrdered();
    EntriesApart(a, b);
  }

  lemma WinnersUnique(c: Catalog, entries: seq<Entry>, a: Entry, b: Entry)
    requires Winner(c, entries, a) && Winner(c, entries, b) && Rivals(c, a, b)
    ensures a == b
  {
    LessAsymmetric(a, b);
  }

  lemma LastIsGreatest(entries: seq<Entry>, e: Entry)
    requires Sorted(entries + [e])
    ensures Sorted(entries) && e !in entries
    ensures forall o :: o in entries ==> EntryLess(o, e) && !EntryLess(e, o)
  {
    var all := entries + [e];
    forall o | o in entries ensures EntryLess(o, e) && !EntryLess(e, o) && o != e {
      var j :| 0 <= j < |entries| && entries[j] == o;
      assert all[j] == o && all[|entries|] == e;
      LessAsymmetric(o, e);
    }
    assert forall i, j :: 0 <= i < j < |entries| ==> all[i] == entries[i] && all[j] == entries[j];
  }

  /** A greater entry does not unseat a winner, and wins itself only without a rival. */
  lemma WinnerExtends(c: Catalog, entries: seq<Entry>, e: Entry, o: Entry)
    requires Sorted(entries + [e])
    ensures o in entries ==> (Winner(c, entries + [e], o) <==> Winner(c, entries, o))
    ensures Winner(c, entries + [e], e) <==> Valid(c, e) && forall x :: x in entries ==> !Rivals(c, x, e)
  {
    LastIsGreatest(entries, e);
  }

  /** Either the entry's chord is taken, or it is invalid, or it is bound last. */
  lemma AdmitCases(c: Catalog, p: Pass, e: Entry)
    ensures
      var bs, bs' := p.bindings, Admit(c, p, e).bindings;
      if Valid(c, e) && !Has(bs, IdOf(c, e)) then bs' == bs + [Bound(c, e)] else bs' == bs
  {}

  lemma WinnersStay(c: Catalog, entries: seq<Entry>, bs: seq<Binding>, e: Entry)
    requires Sorted(entries + [e]) && AllWin(c, entries, bs)
    ensures AllWin(c, entries + [e], bs)
  {
    forall k | 0 <= k < |bs| ensures Winner(c, entries + [e], bs[k].entry) {
      WinnerExtends(c, entries, e, bs[k].entry);
    }
  }

  lemma NewWinner(c: Catalog, entries: seq<Entry>, bs: seq<Binding>, e: Entry)
    requires Sorted(entries + [e]) && Covers(c, entries, bs) && Valid(c, e) && !Has(bs, IdOf(c, e))
    ensures Winner(c, entries + [e], e)
  {
    WinnerExtends(c, entries, e, e);
  }

  lemma AscendingBindings(c: Catalog, entries: seq<Entry>, bs: seq<Binding>, e: Entry)
    requires Sorted(entries + [e]) && Valid(c, e)
    requires AllWin(c, entries, bs) && Ascending(bs, BindingFields)
    ensures Ascending(bs + [Bound(c, e)], BindingFields)
  {
    LastIsGreatest(entries, e);
    var bs' := bs + [Bound(c, e)];
    assert forall k :: 0 <= k < |bs| ==> EntryLess(bs[k].entry, e);
    hide FieldsLess;
    forall i, j | 0 <= i < j < |bs'| ensures FieldsLess(BindingFields(bs'[i]), BindingFields(bs'[j])) {
      if j < |bs| { assert FieldsLess(BindingFields(bs[i]), BindingFields(bs[j])); }
    }
  }

  lemma HasGrown(bs: seq<Binding>, b: Binding)
    ensures forall id :: Has(bs + [b], id) <==> Has(bs, id) || id == b.id
  {
    forall id ensures Has(bs + [b], id) <==> Has(bs, id) || id == b.id {
      if Has(bs, id) {
        var k :| 0 <= k < |bs| && bs[k].id == id;
        assert (bs + [b])[k].id == id;
      }
      assert (bs + [b])[|bs|] == b;
    }
  }

  lemma AdmitBinds(c: Catalog, entries: seq<Entry>, p: Pass, e: Entry)
    requires Sorted(entries + [e]) && WinnersBound(c, entries, p.bindings)
    ensures WinnersBound(c, entries + [e], Admit(c, p, e).bindings)
  {
    hide Admit, Winner, Has, Ascending, FieldsLess;
    var bs := p.bindings;
    AdmitCases(c, p, e);
    WinnersStay(c, entries, bs, e);
    if Valid(c, e) && !Has(bs, IdOf(c, e)) {
      NewWinner(c, entries, bs, e);
      AscendingBindings(c, entries, bs, e);
      HasGrown(bs, Bound(c, e));
    }
  }

  lemma {:induction false} PassBindsWinners(c: Catalog, entries: seq<Entry>)
    requires Sorted(entries)
    ensures WinnersBound(c, entries, AdmitAll(c, entries).bindings)
  {
    if entries != [] {
      var front, e := entries[..|entries| - 1], entries[|entries| - 1];
      assert entries == front + [e];
      LastIsGreatest(front, e);
      PassBindsWinners(c, front);
      AdmitBinds(c, front, AdmitAll(c, front), e);
    }
  }

  /** The bindings of the pass are the winners and nothing else. */
  lemma BoundIffWinner(c: Catalog, entries: seq<Entry>, bs: seq<Binding>, e: Entry)
    requires WinnersBound(c, entries, bs)
    ensures Winner(c, entries, e) <==> Valid(c, e) && Bound(c, e) in bs
  {
    if Winner(c, entries, e) {
      assert Has(bs, IdOf(c, e));
      var k :| 0 <= k < |bs| && bs[k].id == IdOf(c, e);
      WinnersUnique(c, entries, bs[k].entry, e);
    }
  }

  // ---------------------------------------------------------------- its issues

  ghost predicate IssuesExact(c: Catalog, entries: seq<Entry>, issues: seq<Issue>) {
    (forall i :: i in issues <==> RejectedIssue(c, entries, i)) && Apart(issues, IssueFields)
  }

  lemma RejectedExtends(c: Catalog, entries: seq<Entry>, e: Entry, o: Entry, message: string)
    requires Sorted(entries + [e]) && o in entries
    ensures Rejected(c, entries + [e], o, message) <==> Rejected(c, entries, o, message)
  {
    LastIsGreatest(entries, e);
    WinnerExtends(c, entries, e, e);
    forall w | w in entries ensures Winner(c, entries + [e], w) <==> Winner(c, entries, w) {
      WinnerExtends(c, entries, e, w);
    }
  }

  function Report(c: Catalog, bs: seq<Binding>, e: Entry): seq<Issue> {
    if !Valid(c, e) then Complaints(c, e)
    else
      match FindId(bs, IdOf(c, e))
      case Some(k) => [IssueAt(e, DuplicateOf(bs[k].entry))]
      case None => []
  }

  lemma AdmitReports(c: Catalog, p: Pass, e: Entry)
    ensures Admit(c, p, e).issues == p.issues + Report(c, p.bindings, e)
  {}

  ghost predicate ReportExact(c: Catalog, entries: seq<Entry>, e: Entry, report: seq<Issue>) {
    && Apart(report, IssueFields)
    && forall i :: i in report <==> EntryOf(i) == e && Rejected(c, entries, e, i.message)
  }

  /** The entry at hand is reported for exactly the reasons that reject it. */
  lemma ReportsReasons(c: Catalog, entries: seq<Entry>, bs: seq<Binding>, e: Entry)
    requires Sorted(entries + [e]) && WinnersBound(c, entries, bs)
    ensures ReportExact(c, entries + [e], e, Report(c, bs, e))
  {
    if !Valid(c, e) {
      ComplaintsExact(c, entries + [e], e);
    } else if FindId(bs, IdOf(c, e)).Some? {
      var w := bs[FindId(bs, IdOf(c, e)).value].entry;
      WinnersStay(c, entries, bs, e);
      LastIsGreatest(entries, e);
      DuplicateExact(c, entries + [e], w, e);
    } else {
      NewWinner(c, entries, bs, e);
      WinnerNotRejected(c, entries + [e], e);
    }
  }

  lemma ComplaintsExact(c: Catalog, entries: seq<Entry>, e: Entry)
    requires !Valid(c, e)
    ensures ReportExact(c, entries, e, Complaints(c, e))
  {
    MessagesApart();
    hide Winner;
    var report := Complaints(c, e);
    assert forall k :: 0 <= k < |report| ==> IssueFields(report[k])[2] == report[k].message;
    forall i ensures i in report <==> EntryOf(i) == e && Rejected(c, entries, e, i.message) {
      assert i == IssueAt(EntryOf(i), i.message);
    }
  }

  lemma DuplicateExact(c: Catalog, entries: seq<Entry>, w: Entry, e: Entry)
    requires Winner(c, entries, w) && Rivals(c, w, e) && w != e
    ensures ReportExact(c, entries, e, [IssueAt(e, DuplicateOf(w))])
  {
    forall x | Winner(c, entries, x) && Rivals(c, x, e) ensures x == w { WinnersUnique(c, entries, x, w); }
    hide Winner, DuplicateOf;
    forall i ensures i in [IssueAt(e, DuplicateOf(w))] <==> EntryOf(i) == e && Rejected(c, entries, e, i.message) {
      assert i == IssueAt(EntryOf(i), i.message);
    }
  }

  lemma WinnerNotRejected(c: Catalog, entries: seq<Entry>, e: Entry)
    requires Winner(c, entries, e)
    ensures forall message :: !Rejected(c, entries, e, message)
  {
    forall x | Winner(c, entries, x) && Rivals(c, x, e) ensures x == e { WinnersUnique(c, entries, x, e); }
  }

  /** Issues about another entry never coincide with earlier ones. */
  lemma IssuesJoin(c: Catalog, entries: seq<Entry>, e: Entry, issues: seq<Issue>, report: seq<Issue>)
    requires Sorted(entries + [e]) && IssuesExact(c, entries, issues) && ReportExact(c, entries + [e], e, report)
    ensures IssuesExact(c, entries + [e], issues + report)
  {
    LastIsGreatest(entries, e);
    hide Rejected;
    forall i ensures i in issues + report <==> RejectedIssue(c, entries + [e], i) {
      if EntryOf(i) in entries { RejectedExtends(c, entries, e, EntryOf(i), i.message); }
    }
    forall i, j | 0 <= i < |issues| && 0 <= j < |report| ensures EntryOf(issues[i]) != EntryOf(report[j]) {
      assert issues[i] in issues && report[j] in report;
      assert RejectedIssue(c, entries, issues[i]);
    }
    ApartJoin(issues, report);
  }

  lemma ApartJoin(a: seq<Issue>, b: seq<Issue>)
    requires Apart(a, IssueFields) && Apart(b, IssueFields)
    requires forall i, j :: 0 <= i < |a| && 0 <= j < |b| ==> EntryOf(a[i]) != EntryOf(b[j])
    ensures Apart(a + b, IssueFields)
  {
    var all := a + b;
    forall i, j | 0 <= i < j < |all| ensures IssueFields(all[i]) != IssueFields(all[j]) {
      if j < |a| {
        assert all[i] == a[i] && all[j] == a[j];
      } else if i >= |a| {
        assert all[i] == b[i - |a|] && all[j] == b[j - |a|];
      } else {
        assert all[i] == a[i] && all[j] == b[j - |a|];
        FieldsNameEntry(all[i], all[j]);
      }
    }
  }

  lemma FieldsNameEntry(i: Issue, j: Issue)
    ensures IssueFields(i) == IssueFields(j) <==> i == j
  {
    assert IssueFields(i)[0] == i.binding && IssueFields(i)[1] == i.action && IssueFields(i)[2] == i.message;
    assert IssueFields(j)[0] == j.binding && IssueFields(j)[1] == j.action && IssueFields(j)[2] == j.message;
  }

  lemma {:induction false} PassReportsRejected(c: Catalog, entries: seq<Entry>)
    requires Sorted(entries)
    ensures IssuesExact(c, entries, AdmitAll(c, entries).issues)
  {
    if entries != [] {
      var front, e := entries[..|entries| - 1], entries[|entries| - 1];
      assert entries == front + [e];
      hide Admit, Rejected, Report;
      LastIsGreatest(front, e);
      PassReportsRejected(c, front);
      PassBindsWinners(c, front);
      var p := AdmitAll(c, front);
      AdmitReports(c, p, e);
      ReportsReasons(c, front, p.bindings, e);
      IssuesJoin(c, front, e, p.issues, Report(c, p.bindings, e));
    }
  }

  lemma MessagesApart()
    ensures UNKNOWN_ACTION != INVALID_CHORD
    ensures TRIGGER_IS_MODIFIER != UNKNOWN_ACTION && TRIGGER_IS_MODIFIER != INVALID_CHORD
  {
    assert |UNKNOWN_ACTION| == 25 && |INVALID_CHORD| == 17 && |TRIGGER_IS_MODIFIER| == 46;
  }

  // ---------------------------------------------------------------- the second pass

  /** Some winner holds the trigger of `e` as a modifier. */
  ghost predicate TriggerHeld(c: Catalog, entries: seq<Entry>, e: Entry)
    requires Valid(c, e)
  {
    var bit := FnModBit(c.chordOf(e.binding).value.vk);
    bit.Some? && exists w :: Winner(c, entries, w) && InMask(bit.value, c.chordOf(w.binding).value.modifiers.fnMods)
  }

  lemma {:induction false} MaskHolds(bs: seq<Binding>, bit: bv16)
    ensures InMask(bit, FnMask(bs)) <==> exists k :: 0 <= k < |bs| && InMask(bit, bs[k].chord.modifiers.fnMods)
  {
    hide InMask, Joined;
    if bs == [] {
      InJoined(bit, 0, 0);
    } else {
      var front, last := bs[..|bs| - 1], bs[|bs| - 1];
      MaskHolds(front, bit);
      InJoined(bit, FnMask(front), last.chord.modifiers.fnMods);
      if InMask(bit, last.chord.modifiers.fnMods) { assert bs[|bs| - 1] == last; }
      assert forall k :: 0 <= k < |front| ==> front[k] == bs[k];
    }
  }

  lemma BlockedIffHeld(c: Catalog, entries: seq<Entry>, bs: seq<Binding>, e: Entry)
    requires WinnersBound(c, entries, bs) && Valid(c, e)
    ensures Blocked(Bound(c, e), FnMask(bs)) <==> TriggerHeld(c, entries, e)
  {
    hide InMask, FnMask, StableId, FnModBit;
    var bit := FnModBit(c.chordOf(e.binding).value.vk);
    if bit.Some? {
      MaskHolds(bs, bit.value);
      forall w | Winner(c, entries, w) && InMask(bit.value, c.chordOf(w.binding).value.modifiers.fnMods)
        ensures InMask(bit.value, FnMask(bs))
      {
        BoundIffWinner(c, entries, bs, w);
        var k :| 0 <= k < |bs| && bs[k] == Bound(c, w);
      }
    }
  }

  lemma {:induction false} BlockIssuesExact(bs: seq<Binding>, mask: bv16)
    ensures forall i :: i in BlockIssues(bs, mask) <==>
              && i.message == TRIGGER_IS_MODIFIER
              && exists k :: 0 <= k < |bs| && bs[k].entry == EntryOf(i) && Blocked(bs[k], mask)
  {
    hide Blocked;
    if bs != [] {
      var front, last := bs[..|bs| - 1], bs[|bs| - 1];
      BlockIssuesExact(front, mask);
      assert forall k :: 0 <= k < |front| ==> front[k] == bs[k];
      forall i ensures i in BlockIssues(bs, mask) <==>
          && i.message == TRIGGER_IS_MODIFIER
          && exists k :: 0 <= k < |bs| && bs[k].entry == EntryOf(i) && Blocked(bs[k], mask)
      {
        if i.message == TRIGGER_IS_MODIFIER && last.entry == EntryOf(i) {
          assert i == IssueAt(last.entry, TRIGGER_IS_MODIFIER);
        }
        assert bs[|bs| - 1] == last;
      }
    }
  }

  lemma {:induction false} BlockIssuesApart(bs: seq<Binding>, mask: bv16)
    requires Ascending(bs, BindingFields)
    ensures Apart(BlockIssues(bs, mask), IssueFields)
  {
    hide Blocked;
    if bs != [] {
      var front, last := bs[..|bs| - 1], bs[|bs| - 1];
      BlockIssuesApart(front, mask);
      BlockIssuesExact(front, mask);
      var issues := BlockIssues(front, mask);
      forall i | 0 <= i < |issues| ensures EntryOf(issues[i]) != last.entry {
        assert issues[i] in issues;
        var k :| 0 <= k < |front| && front[k].entry == EntryOf(issues[i]);
        LessAsymmetric(bs[k].entry, last.entry);
      }
      ApartJoin(issues, [IssueAt(last.entry, TRIGGER_IS_MODIFIER)]);
      ApartJoin(issues, []);
    }
  }

  // -------------------------------------------------------------------- the result

  /** The binding an entry gets if it wins. */
  ghost function Outcome(c: Catalog, entries: seq<Entry>, e: Entry): Binding
    requires Valid(c, e)
  {
    Bound(c, e).(executable := !TriggerHeld(c, entries, e))
  }

  ghost predicate Reported(c: Catalog, entries: seq<Entry>, i: Issue) {
    || RejectedIssue(c, entries, i)
    || (i.message == TRIGGER_IS_MODIFIER && Winner(c, entries, EntryOf(i)) && TriggerHeld(c, entries, EntryOf(i)))
  }

  /** Both lists ascend; exactly the winners are bound and executable unless their trigger is held;
      and exactly the other entries' reasons and the held triggers are reported, once each. */
  ghost predicate Exactly(c: Catalog, entries: seq<Entry>, r: Pass) {
    && Ascending(r.bindings, BindingFields) && Ascending(r.issues, IssueFields)
    && (forall b :: b in r.bindings <==> Winner(c, entries, b.entry) && b == Outcome(c, entries, b.entry))
    && (forall i :: i in r.issues <==> Reported(c, entries, i))
  }

  lemma MarkedBindings(c: Catalog, entries: seq<Entry>, bs: seq<Binding>)
    requires WinnersBound(c, entries, bs)
    ensures
      var marked := MarkAll(bs, FnMask(bs));
      && Ascending(marked, BindingFields)
      && forall b :: b in marked <==> Winner(c, entries, b.entry) && b == Outcome(c, entries, b.entry)
  {
    hide FnMask, Blocked, TriggerHeld, FieldsLess;
    var mask := FnMask(bs);
    var marked := MarkAll(bs, mask);
    forall k | 0 <= k < |bs|
      ensures marked[k] == Outcome(c, entries, bs[k].entry) && BindingFields(marked[k]) == BindingFields(bs[k])
    {
      BlockedIffHeld(c, entries, bs, bs[k].entry);
    }
    forall b: Binding | Winner(c, entries, b.entry) && b == Outcome(c, entries, b.entry) ensures b in marked {
      BoundIffWinner(c, entries, bs, b.entry);
      var k :| 0 <= k < |bs| && bs[k] == Bound(c, b.entry);
      assert marked[k] == b;
    }
  }

  lemma BlockedReported(c: Catalog, entries: seq<Entry>, bs: seq<Binding>)
    requires WinnersBound(c, entries, bs)
    ensures forall i :: i in BlockIssues(bs, FnMask(bs)) <==>
              i.message == TRIGGER_IS_MODIFIER && Winner(c, entries, EntryOf(i)) && TriggerHeld(c, entries, EntryOf(i))
  {
    hide FnMask, Blocked, TriggerHeld;
    var mask := FnMask(bs);
    BlockIssuesExact(bs, mask);
    forall i ensures i in BlockIssues(bs, mask) <==>
        i.message == TRIGGER_IS_MODIFIER && Winner(c, entries, EntryOf(i)) && TriggerHeld(c, entries, EntryOf(i))
    {
      var e := EntryOf(i);
      if i in BlockIssues(bs, mask) {
        var k :| 0 <= k < |bs| && bs[k].entry == e && Blocked(bs[k], mask);
        BlockedIffHeld(c, entries, bs, e);
      } else if i.message == TRIGGER_IS_MODIFIER && Winner(c, entries, e) {
        BoundIffWinner(c, entries, bs, e);
        BlockedIffHeld(c, entries, bs, e);
        var k :| 0 <= k < |bs| && bs[k] == Bound(c, e);
      }
    }
  }

  /** Every issue is reported once: winners are reported only for held triggers. */
  lemma AllIssuesApart(c: Catalog, entries: seq<Entry>, p: Pass)
    requires WinnersBound(c, entries, p.bindings) && IssuesExact(c, entries, p.issues)
    ensures Apart(p.issues + BlockIssues(p.bindings, FnMask(p.bindings)), IssueFields)
  {
    hide FnMask, Blocked, TriggerHeld;
    var blocked := BlockIssues(p.bindings, FnMask(p.bindings));
    BlockIssuesApart(p.bindings, FnMask(p.bindings));
    BlockedReported(c, entries, p.bindings);
    forall i, j | 0 <= i < |p.issues| && 0 <= j < |blocked| ensures EntryOf(p.issues[i]) != EntryOf(blocked[j]) {
      assert p.issues[i] in p.issues && blocked[j] in blocked;
      WinnerNotRejected(c, entries, EntryOf(blocked[j]));
    }
    ApartJoin(p.issues, blocked);
  }

  lemma SortedExactly(c: Catalog, entries: seq<Entry>)
    requires Sorted(entries)
    ensures
      var p := AdmitAll(c, entries);
      var mask := FnMask(p.bindings);
      Exactly(c, entries, Pass(MarkAll(p.bindings, mask), Sort(p.issues + BlockIssues(p.bindings, mask), IssueFields)))
  {
    hide AdmitAll, FnMask, TriggerHeld, Rejected, Winner;
    var p := AdmitAll(c, entries);
    PassBindsWinners(c, entries);
    PassReportsRejected(c, entries);
    MarkedBindings(c, entries, p.bindings);
    BlockedReported(c, entries, p.bindings);
    AllIssuesApart(c, entries, p);
    SortAscends(p.issues + BlockIssues(p.bindings, FnMask(p.bindings)), IssueFields);
  }

  lemma SameEntriesSameReasons(c: Catalog, a: seq<Entry>, b: seq<Entry>)
    requires forall e :: e in a <==> e in b
    ensures forall e :: Winner(c, a, e) <==> Winner(c, b, e)
    ensures forall e, message :: Rejected(c, a, e, message) <==> Rejected(c, b, e, message)
    ensures forall e :: Valid(c, e) ==> (TriggerHeld(c, a, e) <==> TriggerHeld(c, b, e))
  {
    assert forall e :: Winner(c, a, e) <==> Winner(c, b, e);
    hide Winner;
  }

  lemma ExactlyCarries(c: Catalog, a: seq<Entry>, b: seq<Entry>, r: Pass)
    requires Exactly(c, a, r) && forall e :: e in a <==> e in b
    ensures Exactly(c, b, r)
  {
    SameEntriesSameReasons(c, a, b);
    hide Winner, Rejected, TriggerHeld, Ascending;
    forall x: Binding ensures x in r.bindings <==> Winner(c, b, x.entry) && x == Outcome(c, b, x.entry) {
      WinnerValid(c, b, x.entry);
      assert Winner(c, a, x.entry) <==> Winner(c, b, x.entry);
    }
    forall i ensures i in r.issues <==> Reported(c, b, i) {
      WinnerValid(c, b, EntryOf(i));
      assert RejectedIssue(c, a, i) <==> RejectedIssue(c, b, i);
    }
  }

  lemma WinnerValid(c: Catalog, entries: seq<Entry>, e: Entry)
    ensures Winner(c, entries, e) ==> Valid(c, e)
  {}

  /** Resolution of a configuration, whatever order its entries come in. */
  lemma ResolvedExactly(c: Catalog, configured: seq<Entry>)
    requires Apart(configured, EntryFields)
    ensures Exactly(c, configured, Resolved(c, configured))
  {
    hide Exactly;
    var sorted := Sort(configured, EntryFields);
    SortAscends(configured, EntryFields);
    SortedExactly(c, sorted);
    ExactlyCarries(c, sorted, configured, Resolved(c, configured));
  }

  /** The order in which the configuration map is read does not matter. */
  lemma OrderIndependent(c: Catalog, a: seq<Entry>, b: seq<Entry>)
    requires Apart(a, EntryFields) && Apart(b, EntryFields) && forall e :: e in a <==> e in b
    ensures Resolved(c, a) == Resolved(c, b)
  {
    SortAscends(a, EntryFields);
    SortAscends(b, EntryFields);
    AscendingUnique(Sort(a, EntryFields), Sort(b, EntryFields), EntryFields);
  }

  /** Each chord that some valid entry names has exactly one binding. */
  lemma OneWinnerPerChord(c: Catalog, configured: seq<Entry>, e: Entry)
    requires Apart(configured, EntryFields) && e in configured && Valid(c, e)
    ensures
      var bs := Resolved(c, configured).bindings;
      && Has(bs, IdOf(c, e))
      && forall x, y :: x in bs && y in bs && x.id == y.id ==> x == y
  {
    ResolvedExactly(c, configured);
    WinnerExists(c, configured, e);
    hide Resolved, Reported, TriggerHeld, Ascending;
    var bs := Resolved(c, configured).bindings;
    forall x, y | x in bs && y in bs && x.id == y.id ensures x == y {
      WinnersUnique(c, configured, x.entry, y.entry);
    }
  }

  /** Every binding carries the command and the chord that its entry names, under the chord's id. */
  lemma BindingsCarryTheirEntry(c: Catalog, configured: seq<Entry>, b: Binding)
    requires Apart(configured, EntryFields) && b in Resolved(c, configured).bindings
    ensures b.entry in configured
    ensures c.commandOf(b.entry.action) == Some(b.command) && c.chordOf(b.entry.binding) == Some(b.chord)
    ensures b.id == StableId(b.chord)
  {
    ResolvedExactly(c, configured);
    hide Resolved, Reported, TriggerHeld, Ascending;
  }

  lemma WinnerExists(c: Catalog, configured: seq<Entry>, e: Entry)
    requires Apart(configured, EntryFields) && e in configured && Valid(c, e)
    ensures Has(Resolved(c, configured).bindings, IdOf(c, e))
  {
    var sorted := Sort(configured, EntryFields);
    SortAscends(configured, EntryFields);
    PassBindsWinners(c, sorted);
    hide AdmitAll, Has, AllWin, Ascending, Apart, MarkAll, FnMask;
    var bs := AdmitAll(c, sorted).bindings;
    MarkedHas(bs, FnMask(bs), IdOf(c, e));
  }

  lemma MarkedHas(bs: seq<Binding>, mask: bv16, id: HotkeyId)
    requires Has(bs, id)
    ensures Has(MarkAll(bs, mask), id)
  {
    hide Blocked;
    var k :| 0 <= k < |bs| && bs[k].id == id;
    assert MarkAll(bs, mask)[k].id == id;
  }
}
