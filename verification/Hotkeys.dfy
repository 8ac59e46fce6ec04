/** Which configured hotkeys take effect: one winner per physical chord, whatever order the
    configuration map is read in. Parsing chords and commands is a parameter. */
module Hotkeys {
  import opened Prelude
  import opened Ordering
  import opened Chords

  /** One entry of the configuration map. */
  datatype Entry = Entry(binding: string, action: string)

  type Command = string

  datatype Catalog = Catalog(chordOf: string -> Option<Chord>, commandOf: string -> Option<Command>)

  datatype Binding = Binding(entry: Entry, command: Command, chord: Chord, id: HotkeyId, executable: bool)

  datatype Issue = Issue(binding: string, action: string, message: string)

  function EntryFields(e: Entry): seq<string> { [e.binding, e.action] }

  function BindingFields(b: Binding): seq<string> { EntryFields(b.entry) }

  function IssueFields(i: Issue): seq<string> { [i.binding, i.action, i.message] }

  const UNKNOWN_ACTION := "unknown action identifier"
  const INVALID_CHORD := "invalid key chord"
  const TRIGGER_IS_MODIFIER := "trigger F-key is also configured as a modifier"

  function DuplicateOf(winner: Entry): string {
    "duplicate physical chord; ignored in favor of '" + winner.binding + "' -> '" + winner.action + "'"
  }

  // ---------------------------------------------------------------- the first pass

  datatype Pass = Pass(bindings: seq<Binding>, issues: seq<Issue>)

  function FindId(bs: seq<Binding>, id: HotkeyId): (r: Option<nat>)
    ensures match r
            case Some(k) => k < |bs| && bs[k].id == id
            case None => forall k :: 0 <= k < |bs| ==> bs[k].id != id
  {
    if bs == [] then None
    else if bs[0].id == id then Some(0)
    else
      match FindId(bs[1..], id)
      case None => None
      case Some(k) => Some(k + 1)
  }

  function IssueAt(e: Entry, message: string): Issue { Issue(e.binding, e.action, message) }

  function Complaints(c: Catalog, e: Entry): seq<Issue> {
    (if c.commandOf(e.action).None? then [IssueAt(e, UNKNOWN_ACTION)] else []) +
    (if c.chordOf(e.binding).None? then [IssueAt(e, INVALID_CHORD)] else [])
  }

  predicate Valid(c: Catalog, e: Entry) { c.commandOf(e.action).Some? && c.chordOf(e.binding).Some? }

  function IdOf(c: Catalog, e: Entry): HotkeyId
    requires Valid(c, e)
  {
    StableId(c.chordOf(e.binding).value)
  }

  function Bound(c: Catalog, e: Entry): Binding
    requires Valid(c, e)
  {
    Binding(e, c.commandOf(e.action).value, c.chordOf(e.binding).value, IdOf(c, e), true)
  }

  /** One turn of the loop over the sorted entries. */
  function Admit(c: Catalog, p: Pass, e: Entry): Pass {
    if !Valid(c, e) then p.(issues := p.issues + Complaints(c, e))
    else
      match FindId(p.bindings, IdOf(c, e))
      case Some(k) => p.(issues := p.issues + [IssueAt(e, DuplicateOf(p.bindings[k].entry))])
      case None => p.(bindings := p.bindings + [Bound(c, e)])
  }

  function AdmitAll(c: Catalog, entries: seq<Entry>): Pass {
    if entries == [] then Pass([], [])
    else Admit(c, AdmitAll(c, entries[..|entries| - 1]), entries[|entries| - 1])
  }

  // --------------------------------------------------------------- the second pass

  function FnMask(bs: seq<Binding>): bv16 {
    if bs == [] then 0 else Joined(FnMask(bs[..|bs| - 1]), bs[|bs| - 1].chord.modifiers.fnMods)
  }

  predicate Blocked(b: Binding, mask: bv16) {
    FnModBit(b.chord.vk).Some? && InMask(FnModBit(b.chord.vk).value, mask)
  }

  function Marked(b: Binding, mask: bv16): Binding { if Blocked(b, mask) then b.(executable := false) else b }

  function MarkAll(bs: seq<Binding>, mask: bv16): (r: seq<Binding>)
    ensures |r| == |bs| && forall k :: 0 <= k < |bs| ==> r[k] == Marked(bs[k], mask)
  {
    seq(|bs|, k requires 0 <= k < |bs| => Marked(bs[k], mask))
  }

  function BlockIssues(bs: seq<Binding>, mask: bv16): seq<Issue> {
    if bs == [] then []
    else
      var b := bs[|bs| - 1];
      BlockIssues(bs[..|bs| - 1], mask) + if Blocked(b, mask) then [IssueAt(b.entry, TRIGGER_IS_MODIFIER)] else []
  }

  /** What resolution returns for the entries in the order the configuration map yields them. */
  function Resolved(c: Catalog, configured: seq<Entry>): Pass {
    var p := AdmitAll(c, Sort(configured, EntryFields));
    var mask := FnMask(p.bindings);
    Pass(MarkAll(p.bindings, mask), Sort(p.issues + BlockIssues(p.bindings, mask), IssueFields))
  }

  lemma PrefixStep<T>(s: seq<T>, i: nat)
    requires i < |s|
    ensures s[..i + 1][..|s[..i + 1]| - 1] == s[..i] && s[..i + 1][|s[..i + 1]| - 1] == s[i]
  {}

  /** The index of the loop: where each id already bound sits. */
  ghost predicate Indexed(indexes: map<HotkeyId, nat>, bs: seq<Binding>) {
    forall id :: if id in indexes then FindId(bs, id) == Some(indexes[id]) else FindId(bs, id).None?
  }

  lemma EmptyIndex()
    ensures Indexed(map[], [])
  {}

  lemma IndexAdded(indexes: map<HotkeyId, nat>, bs: seq<Binding>, b: Binding)
    requires Indexed(indexes, bs) && b.id !in indexes
    ensures Indexed(indexes[b.id := |bs|], bs + [b])
  {
    FoundAfter(bs, b);
    var indexes' := indexes[b.id := |bs|];
    forall id: HotkeyId
      ensures if id in indexes' then FindId(bs + [b], id) == Some(indexes'[id]) else FindId(bs + [b], id).None?
    {
      assert FindId(bs + [b], id) == if id == b.id then Some(|bs|) else FindId(bs, id);
    }
  }

  /** One turn of the loop, with the index instead of a search. */
  lemma AdmitByIndex(c: Catalog, p: Pass, e: Entry, indexes: map<HotkeyId, nat>)
    requires Indexed(indexes, p.bindings)
    ensures c.commandOf(e.action).None? || c.chordOf(e.binding).None? ==>
              Admit(c, p, e) == p.(issues := p.issues + Complaints(c, e))
    ensures c.commandOf(e.action).Some? && c.chordOf(e.binding).Some? ==>
              var chord := c.chordOf(e.binding).value;
              var id := StableId(chord);
              && (id in indexes ==>
                    && indexes[id] < |p.bindings|
                    && Admit(c, p, e) == p.(
                         issues := p.issues + [IssueAt(e, DuplicateOf(p.bindings[indexes[id]].entry))]))
              && (id !in indexes ==>
                    Admit(c, p, e) == p.(
                      bindings := p.bindings + [Binding(e, c.commandOf(e.action).value, chord, id, true)]))
  {}

  /** A new binding is found under its own id only. */
  lemma FoundAfter(bs: seq<Binding>, b: Binding)
    requires FindId(bs, b.id).None?
    ensures forall id :: FindId(bs + [b], id) == if id == b.id then Some(|bs|) else FindId(bs, id)
  {
    forall id ensures FindId(bs + [b], id) == if id == b.id then Some(|bs|) else FindId(bs, id) {
      FoundAt(bs, b, id);
    }
  }

  lemma {:induction false} FoundAt(bs: seq<Binding>, b: Binding, id: HotkeyId)
    requires FindId(bs, b.id).None?
    ensures FindId(bs + [b], id) == if id == b.id then Some(|bs|) else FindId(bs, id)
  {
    if bs != [] {
      assert (bs + [b])[1..] == bs[1..] + [b];
      FoundAt(bs[1..], b, id);
    }
  }

  /** The loop over the sorted entries. */
  method AdmitConfigured(sorted: seq<Entry>, c: Catalog) returns (bindings: seq<Binding>, issues: seq<Issue>)
    ensures Pass(bindings, issues) == AdmitAll(c, sorted)
  {
    hide Indexed, Admit, StableId;
    assert Indexed(map[], []) by { EmptyIndex(); }
    bindings, issues := [], [];
    var indexes: map<HotkeyId, nat> := map[];
    for i := 0 to |sorted|
      invariant Pass(bindings, issues) == AdmitAll(c, sorted[..i])
      invariant Indexed(indexes, bindings)
    {
      var e := sorted[i];
      PrefixStep(sorted, i);
      AdmitByIndex(c, Pass(bindings, issues), e, indexes);
      var command, parsed := c.commandOf(e.action), c.chordOf(e.binding);
      ghost var before := issues;
      if command.None? {
        issues := issues + [IssueAt(e, UNKNOWN_ACTION)];
      }
      if parsed.None? {
        issues := issues + [IssueAt(e, INVALID_CHORD)];
      }
      if command.None? || parsed.None? {
        assert issues == before + Complaints(c, e);
        continue;
      }
      var id := StableId(parsed.value);
      if id in indexes {
        issues := issues + [IssueAt(e, DuplicateOf(bindings[indexes[id]].entry))];
        continue;
      }
      IndexAdded(indexes, bindings, Binding(e, command.value, parsed.value, id, true));
      indexes := indexes[id := |bindings|];
      bindings := bindings + [Binding(e, command.value, parsed.value, id, true)];
    }
    assert sorted[..|sorted|] == sorted;
  }

  /** The loop that marks triggers which are also configured as modifiers. */
  method MarkBlocked(admitted: seq<Binding>, reported: seq<Issue>, mask: bv16)
    returns (bindings: seq<Binding>, issues: seq<Issue>)
    ensures bindings == MarkAll(admitted, mask) && issues == reported + BlockIssues(admitted, mask)
  {
    hide InMask, FnModBit;
    bindings, issues := admitted, reported;
    for k := 0 to |bindings|
      invariant |bindings| == |admitted|
      invariant forall j :: 0 <= j < k ==> bindings[j] == Marked(admitted[j], mask)
      invariant forall j :: k <= j < |admitted| ==> bindings[j] == admitted[j]
      invariant issues == reported + BlockIssues(admitted[..k], mask)
    {
      PrefixStep(admitted, k);
      if Blocked(bindings[k], mask) {
        issues := issues + [IssueAt(bindings[k].entry, TRIGGER_IS_MODIFIER)];
        bindings := bindings[k := bindings[k].(executable := false)];
      }
    }
    assert bindings == MarkAll(admitted, mask);
    assert admitted[..|admitted|] == admitted;
  }

  method ResolveHotkeys(configured: seq<Entry>, c: Catalog) returns (result: Pass)
    ensures result == Resolved(c, configured)
  {
    var bindings, issues := AdmitConfigured(Sort(configured, EntryFields), c);
    bindings, issues := MarkBlocked(bindings, issues, FnMask(bindings));
    result := Pass(bindings, Sort(issues, IssueFields));
  }
}
