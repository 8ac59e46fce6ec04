/** The shortcut guide: representable shortcuts grouped into sections, and a warning for each
    binding that is left out. Parsing a binding is a parameter. */
module ShortcutGuide {
  import opened Prelude
  import opened Chords
  import opened Tally

  type ChordOf = string -> Option<Chord>

  datatype Hotkey = Hotkey(action: string, title: string, group: string, enabled: bool, bindings: seq<string>)

  datatype Shortcut = Shortcut(name: string, win: bool, ctrl: bool, alt: bool, shift: bool, key: bv32)

  datatype Section = Section(name: string, shortcuts: seq<Shortcut>)

  function InvalidWarning(binding: string, action: string): string {
    "skipped invalid binding '" + binding + "' for " + action
  }

  function ModifierWarning(binding: string, action: string): string {
    "skipped '" + binding + "' for " + action + " because PowerToys cannot represent F13-F24 modifiers"
  }

  /** A binding is shown, or skipped with a warning. */
  function Shown(parse: ChordOf, h: Hotkey, binding: string): Result<Shortcut, string> {
    match parse(binding)
    case None => Err(InvalidWarning(binding, h.action))
    case Some(Chord(m, key)) =>
      if m.fnMods != 0 then Err(ModifierWarning(binding, h.action))
      else Ok(Shortcut(h.title, m.win, m.ctrl, m.alt, m.shift, key))
  }

  /** A binding is shown exactly if it parses and needs no function key as a modifier; then the shortcut has
      the hotkey's title and gives back the chord it was made of. Otherwise the warning says which it was. */
  lemma ShownExactly(parse: ChordOf, h: Hotkey, binding: string)
    ensures Shown(parse, h, binding).Ok? <==> parse(binding).Some? && parse(binding).value.modifiers.fnMods == 0
    ensures
      match Shown(parse, h, binding)
      case Ok(s) =>
        s.name == h.title && parse(binding) == Some(Chord(Modifiers(s.ctrl, s.alt, s.shift, s.win, 0), s.key))
      case Err(warning) =>
        warning ==
          if parse(binding).None? then InvalidWarning(binding, h.action) else ModifierWarning(binding, h.action)
  {}

  function ShownAll(parse: ChordOf, h: Hotkey, bindings: seq<string>): seq<Shortcut> {
    if bindings == [] then []
    else
      var front, last := bindings[..|bindings| - 1], Shown(parse, h, bindings[|bindings| - 1]);
      ShownAll(parse, h, front) + if last.Ok? then [last.value] else []
  }

  function SkippedAll(parse: ChordOf, h: Hotkey, bindings: seq<string>): seq<string> {
    if bindings == [] then []
    else
      var front, last := bindings[..|bindings| - 1], Shown(parse, h, bindings[|bindings| - 1]);
      SkippedAll(parse, h, front) + if last.Err? then [last.error] else []
  }

  /** A shortcut with the group it belongs to. */
  datatype Tagged = Tagged(group: string, shortcut: Shortcut)

  function Tag(group: string, shortcuts: seq<Shortcut>): (r: seq<Tagged>)
    ensures |r| == |shortcuts| && forall i :: 0 <= i < |r| ==> r[i] == Tagged(group, shortcuts[i])
  {
    seq(|shortcuts|, i requires 0 <= i < |shortcuts| => Tagged(group, shortcuts[i]))
  }

  /** Every representable shortcut of the enabled hotkeys, in order. */
  function Representable(parse: ChordOf, hotkeys: seq<Hotkey>): seq<Tagged> {
    if hotkeys == [] then []
    else
      var front, h := hotkeys[..|hotkeys| - 1], hotkeys[|hotkeys| - 1];
      Representable(parse, front) + if h.enabled then Tag(h.group, ShownAll(parse, h, h.bindings)) else []
  }

  function Warnings(parse: ChordOf, hotkeys: seq<Hotkey>): seq<string> {
    if hotkeys == [] then []
    else
      var front, h := hotkeys[..|hotkeys| - 1], hotkeys[|hotkeys| - 1];
      Warnings(parse, front) + if h.enabled then SkippedAll(parse, h, h.bindings) else []
  }

  // ------------------------------------------------------------------- grouping

  function Names(ts: seq<Tagged>): (r: seq<string>)
    ensures forall g :: g in r <==> exists i :: 0 <= i < |ts| && ts[i].group == g
    ensures forall i, j :: 0 <= i < j < |r| ==> r[i] != r[j]
  {
    if ts == [] then []
    else
      var front, g := Names(ts[..|ts| - 1]), ts[|ts| - 1].group;
      assert ts == ts[..|ts| - 1] + [ts[|ts| - 1]];
      if g in front then front else front + [g]
  }

  function InGroup(ts: seq<Tagged>, g: string): seq<Shortcut> {
    if ts == [] then []
    else InGroup(ts[..|ts| - 1], g) + if ts[|ts| - 1].group == g then [ts[|ts| - 1].shortcut] else []
  }

  /** Groups in the order they first appear, each with its shortcuts in order. */
  function GroupBy(ts: seq<Tagged>): (r: seq<Section>)
    ensures |r| == |Names(ts)| && forall i :: 0 <= i < |r| ==> r[i] == Section(Names(ts)[i], InGroup(ts, Names(ts)[i]))
  {
    seq(|Names(ts)|, i requires 0 <= i < |Names(ts)| => Section(Names(ts)[i], InGroup(ts, Names(ts)[i])))
  }

  function Index(names: seq<string>, g: string): (r: Option<nat>)
    ensures match r
            case Some(i) => i < |names| && names[i] == g
            case None => g !in names
  {
    if names == [] then None
    else if names[|names| - 1] == g then Some(|names| - 1)
    else Index(names[..|names| - 1], g)
  }

  /** The sections after a group gains shortcuts. */
  function Extended(sections: seq<Section>, at: Option<nat>, g: string, more: seq<Shortcut>): seq<Section>
    requires at.Some? ==> at.value < |sections|
  {
    if at.Some? then
      var s := sections[at.value];
      sections[at.value := s.(shortcuts := s.shortcuts + more)]
    else sections + [Section(g, more)]
  }

  lemma NotThere(ts: seq<Tagged>, g: string)
    requires forall i :: 0 <= i < |ts| ==> ts[i].group != g
    ensures InGroup(ts, g) == []
  {
    if ts != [] { NotThere(ts[..|ts| - 1], g); }
  }

  lemma {:induction false} GroupOne(ts: seq<Tagged>, t: Tagged)
    ensures GroupBy(ts + [t]) == Extended(GroupBy(ts), Index(Names(ts), t.group), t.group, [t.shortcut])
  {
    var all := ts + [t];
    assert all[..|all| - 1] == ts;
    if t.group !in Names(ts) { NotThere(ts, t.group); }
    var at := Index(Names(ts), t.group);
    var r := Extended(GroupBy(ts), at, t.group, [t.shortcut]);
    forall i | 0 <= i < |r| ensures GroupBy(all)[i] == r[i] {
      assert InGroup(all, Names(all)[i]) ==
             InGroup(ts, Names(all)[i]) + if t.group == Names(all)[i] then [t.shortcut] else [];
    }
  }

  lemma NamesOne(ts: seq<Tagged>, t: Tagged)
    ensures Names(ts + [t]) == if t.group in Names(ts) then Names(ts) else Names(ts) + [t.group]
  {
    assert (ts + [t])[..|ts|] == ts;
  }

  lemma SameIndex(ts: seq<Tagged>, t: Tagged)
    ensures
      var at := Index(Names(ts), t.group);
      Index(Names(ts + [t]), t.group) == Some(if at.Some? then at.value else |Names(ts)|)
  {
    hide Names;
    NamesOne(ts, t);
  }

  function Slot(sections: seq<Section>, at: Option<nat>): nat { if at.Some? then at.value else |sections| }

  lemma ExtendedTwice(sections: seq<Section>, at: Option<nat>, g: string, a: seq<Shortcut>, b: seq<Shortcut>)
    requires at.Some? ==> at.value < |sections|
    ensures Slot(sections, at) < |Extended(sections, at, g, a)|
    ensures Extended(Extended(sections, at, g, a), Some(Slot(sections, at)), g, b) == Extended(sections, at, g, a + b)
  {
    if at.Some? {
      assert sections[at.value].shortcuts + a + b == sections[at.value].shortcuts + (a + b);
    }
  }

  lemma TagLast(g: string, batch: seq<Shortcut>)
    requires batch != []
    ensures Tag(g, batch) == Tag(g, batch[..|batch| - 1]) + [Tagged(g, batch[|batch| - 1])]
  {}

  /** A batch of one group either extends its section or starts a new one. */
  lemma {:induction false} GroupBatch(ts: seq<Tagged>, g: string, batch: seq<Shortcut>)
    requires batch != []
    ensures GroupBy(ts + Tag(g, batch)) == Extended(GroupBy(ts), Index(Names(ts), g), g, batch)
    ensures Index(Names(ts + Tag(g, batch)), g) == Some(Slot(GroupBy(ts), Index(Names(ts), g)))
    decreases |batch|
  {
    var front, last := batch[..|batch| - 1], Tagged(g, batch[|batch| - 1]);
    var before := ts + Tag(g, front);
    TagLast(g, batch);
    assert ts + Tag(g, batch) == before + [last];
    GroupOne(before, last);
    SameIndex(before, last);
    hide GroupBy, Names, Index, Extended;
    if front == [] {
      assert before == ts && batch == [last.shortcut];
    } else {
      GroupBatch(ts, g, front);
      assert batch == front + [last.shortcut];
      ExtendedTwice(GroupBy(ts), Index(Names(ts), g), g, front, [last.shortcut]);
    }
  }

  // --------------------------------------------------------------------- the loop

  lemma BindingStep(s: seq<string>, k: nat)
    requires k < |s|
    ensures s[..k + 1][..|s[..k + 1]| - 1] == s[..k] && s[..k + 1][|s[..k + 1]| - 1] == s[k]
  {}

  method ShowBindings(h: Hotkey, parse: ChordOf, before: seq<string>)
    returns (shortcuts: seq<Shortcut>, warnings: seq<string>)
    ensures shortcuts == ShownAll(parse, h, h.bindings)
    ensures warnings == before + SkippedAll(parse, h, h.bindings)
  {
    hide Shown;
    shortcuts, warnings := [], before;
    for k := 0 to |h.bindings|
      invariant shortcuts == ShownAll(parse, h, h.bindings[..k])
      invariant warnings == before + SkippedAll(parse, h, h.bindings[..k])
    {
      BindingStep(h.bindings, k);
      match Shown(parse, h, h.bindings[k]) {
        case Err(warning) => warnings := warnings + [warning];
        case Ok(shortcut) => shortcuts := shortcuts + [shortcut];
      }
    }
    assert h.bindings[..|h.bindings|] == h.bindings;
  }

  lemma HotkeyStep(parse: ChordOf, hotkeys: seq<Hotkey>, i: nat)
    requires i < |hotkeys|
    ensures
      var h := hotkeys[i];
      var ts, shortcuts := Representable(parse, hotkeys[..i]), ShownAll(parse, h, h.bindings);
      && Representable(parse, hotkeys[..i + 1]) ==
           (if h.enabled && shortcuts != [] then ts + Tag(h.group, shortcuts) else ts)
      && Warnings(parse, hotkeys[..i + 1]) ==
           Warnings(parse, hotkeys[..i]) + if h.enabled then SkippedAll(parse, h, h.bindings) else []
  {
    var h := hotkeys[i];
    var ts := Representable(parse, hotkeys[..i]);
    assert hotkeys[..i + 1][..i] == hotkeys[..i];
    assert ts + [] == ts;
    if ShownAll(parse, h, h.bindings) == [] { assert Tag(h.group, []) == []; }
  }

  method RenderManifest(hotkeys: seq<Hotkey>, parse: ChordOf) returns (sections: seq<Section>, warnings: seq<string>)
    ensures sections == GroupBy(Representable(parse, hotkeys))
    ensures warnings == Warnings(parse, hotkeys)
  {
    hide GroupBy, Names, Indexes, Representable, Warnings, ShownAll, SkippedAll, Tag;
    sections, warnings := [], [];
    var sectionIndexes: map<string, nat> := map[];
    NothingGrouped(parse);
    assert hotkeys[..0] == [];
    for i := 0 to |hotkeys|
      invariant sections == GroupBy(Representable(parse, hotkeys[..i]))
      invariant Indexes(sectionIndexes, Names(Representable(parse, hotkeys[..i])))
      invariant warnings == Warnings(parse, hotkeys[..i])
    {
      var h := hotkeys[i];
      ghost var ts := Representable(parse, hotkeys[..i]);
      HotkeyStep(parse, hotkeys, i);
      if !h.enabled {
        continue;
      }
      var shortcuts;
      shortcuts, warnings := ShowBindings(h, parse, warnings);
      if shortcuts == [] {
        continue;
      }
      SectionsBatch(sectionIndexes, ts, h.group, shortcuts);
      if h.group in sectionIndexes {
        var index := sectionIndexes[h.group];
        sections := sections[index := sections[index].(shortcuts := sections[index].shortcuts + shortcuts)];
      } else {
        sectionIndexes := sectionIndexes[h.group := |sections|];
        sections := sections + [Section(h.group, shortcuts)];
      }
    }
    assert hotkeys[..|hotkeys|] == hotkeys;
  }

  /** The index maps exactly the existing section names to their positions. */
  ghost predicate Indexes(indexes: map<string, nat>, names: seq<string>) {
    && (forall g :: g in indexes <==> g in names)
    && (forall g :: g in indexes ==> Index(names, g) == Some(indexes[g]))
  }

  lemma NothingGrouped(parse: ChordOf)
    ensures Representable(parse, []) == [] && Warnings(parse, []) == []
    ensures GroupBy([]) == [] && Indexes(map[], Names([]))
  {}

  lemma {:induction false} NamesBatch(ts: seq<Tagged>, g: string, batch: seq<Shortcut>)
    requires batch != []
    ensures Names(ts + Tag(g, batch)) == if g in Names(ts) then Names(ts) else Names(ts) + [g]
    decreases |batch|
  {
    var front, last := batch[..|batch| - 1], Tagged(g, batch[|batch| - 1]);
    var before := ts + Tag(g, front);
    TagLast(g, batch);
    assert ts + Tag(g, batch) == before + [last];
    assert (before + [last])[..|before|] == before;
    if front == [] {
      assert before == ts;
    } else {
      NamesBatch(ts, g, front);
    }
  }

  lemma IndexAdded(indexes: map<string, nat>, names: seq<string>, g: string)
    requires Indexes(indexes, names) && g !in names
    ensures Indexes(indexes[g := |names|], names + [g])
  {
    assert (names + [g])[..|names|] == names;
    forall x ensures Index(names + [g], x) == if x == g then Some(|names|) else Index(names, x) {}
  }

  lemma IndexesBatch(indexes: map<string, nat>, ts: seq<Tagged>, g: string, batch: seq<Shortcut>)
    requires Indexes(indexes, Names(ts)) && batch != []
    ensures g in indexes ==> indexes[g] < |GroupBy(ts)| && Index(Names(ts), g) == Some(indexes[g])
    ensures g !in indexes ==> Index(Names(ts), g) == None
    ensures Indexes(if g in indexes then indexes else indexes[g := |GroupBy(ts)|], Names(ts + Tag(g, batch)))
  {
    NamesBatch(ts, g, batch);
    hide Index, InGroup;
    if g !in Names(ts) { IndexAdded(indexes, Names(ts), g); }
  }

  /** One turn of the loop: the indexed section grows, or a section and its index entry are added. */
  lemma SectionsBatch(indexes: map<string, nat>, ts: seq<Tagged>, g: string, batch: seq<Shortcut>)
    requires Indexes(indexes, Names(ts)) && batch != []
    ensures g in indexes ==>
              && indexes[g] < |GroupBy(ts)| && Indexes(indexes, Names(ts + Tag(g, batch)))
              && GroupBy(ts + Tag(g, batch)) == GroupBy(ts)[indexes[g] := GroupBy(ts)[indexes[g]].(
                   shortcuts := GroupBy(ts)[indexes[g]].shortcuts + batch)]
    ensures g !in indexes ==>
              && Indexes(indexes[g := |GroupBy(ts)|], Names(ts + Tag(g, batch)))
              && GroupBy(ts + Tag(g, batch)) == GroupBy(ts) + [Section(g, batch)]
  {
    hide GroupBy, Names, Index, Indexes, Tag;
    GroupBatch(ts, g, batch);
    IndexesBatch(indexes, ts, g, batch);
  }

  // -------------------------------------------------------------------- the result

  /** How often a section lists a shortcut of its own group. */
  function Listing(t: Tagged): Section -> nat {
    (s: Section) => if s.name == t.group then multiset(s.shortcuts)[t.shortcut] else 0
  }

  lemma ExtendedListing(sections: seq<Section>, at: Option<nat>, u: Tagged, t: Tagged)
    requires at.Some? ==> at.value < |sections| && sections[at.value].name == u.group
    ensures Total(Extended(sections, at, u.group, [u.shortcut]), Listing(t)) ==
            Total(sections, Listing(t)) + if u == t then 1 else 0
  {
    var f := Listing(t);
    if at.Some? {
      var s := sections[at.value];
      TotalUpdate(sections, at.value, s.(shortcuts := s.shortcuts + [u.shortcut]), f);
      assert multiset(s.shortcuts + [u.shortcut]) == multiset(s.shortcuts) + multiset{u.shortcut};
    } else {
      var all := sections + [Section(u.group, [u.shortcut])];
      assert all[..|all| - 1] == sections;
      assert multiset([u.shortcut])[t.shortcut] == if u.shortcut == t.shortcut then 1 else 0;
    }
  }

  lemma GroupedUnderName(ts: seq<Tagged>, g: string)
    ensures
      var at := Index(Names(ts), g);
      at.Some? ==> at.value < |GroupBy(ts)| && GroupBy(ts)[at.value].name == g
  {}

  /** The sections list every representable shortcut as often as it is configured, each under its
      own group. */
  lemma {:induction false} EachShortcutOnce(ts: seq<Tagged>, t: Tagged)
    ensures Total(GroupBy(ts), Listing(t)) == multiset(ts)[t]
  {
    if ts == [] {
      assert GroupBy(ts) == [];
    } else {
      var front, last := ts[..|ts| - 1], ts[|ts| - 1];
      assert ts == front + [last];
      EachShortcutOnce(front, t);
      GroupOne(front, last);
      GroupedUnderName(front, last.group);
      hide GroupBy, Names, Index, Extended, Listing, InGroup;
      ExtendedListing(GroupBy(front), Index(Names(front), last.group), last, t);
    }
  }

  /** Where a group first appears. */
  function First(ts: seq<Tagged>, g: string): (i: nat)
    ensures i <= |ts| && (forall k :: 0 <= k < i ==> ts[k].group != g) && (i < |ts| ==> ts[i].group == g)
  {
    if ts == [] || ts[0].group == g then 0 else First(ts[1..], g) + 1
  }

  lemma FirstGrown(front: seq<Tagged>, last: Tagged, g: string)
    ensures First(front, g) < |front| ==> First(front + [last], g) == First(front, g)
    ensures First(front, g) == |front| && g == last.group ==> First(front + [last], g) == |front|
  {
    if First(front, g) < |front| || g == last.group { FirstUnique(front + [last], g, First(front, g)); }
  }

  lemma NamesAppear(ts: seq<Tagged>, g: string)
    ensures g in Names(ts) <==> First(ts, g) < |ts|
  {}

  lemma {:induction false} GroupsNonEmpty(ts: seq<Tagged>, g: string)
    requires First(ts, g) < |ts|
    ensures InGroup(ts, g) != []
  {
    var front, last := ts[..|ts| - 1], ts[|ts| - 1];
    if last.group != g {
      FirstUnique(front, g, First(ts, g));
      GroupsNonEmpty(front, g);
    }
  }

  lemma {:induction false} NamesInOrder(ts: seq<Tagged>)
    ensures forall i, j :: 0 <= i < j < |Names(ts)| ==> First(ts, Names(ts)[i]) < First(ts, Names(ts)[j])
  {
    if ts != [] {
      var front, last := ts[..|ts| - 1], ts[|ts| - 1];
      assert ts == front + [last];
      NamesInOrder(front);
      var names := Names(front);
      NamesAppear(front, last.group);
      FirstGrown(front, last, last.group);
      forall i | 0 <= i < |names| ensures First(ts, names[i]) == First(front, names[i]) < |front| {
        NamesAppear(front, names[i]);
        FirstGrown(front, last, names[i]);
      }
      hide First;
    }
  }

  /** Sections come in the order their groups first appear, and none is empty. */
  lemma SectionsInOrder(ts: seq<Tagged>)
    ensures forall i, j :: 0 <= i < j < |GroupBy(ts)| ==>
          First(ts, GroupBy(ts)[i].name) < First(ts, GroupBy(ts)[j].name)
    ensures forall i :: 0 <= i < |GroupBy(ts)| ==> GroupBy(ts)[i].shortcuts != []
  {
    NamesInOrder(ts);
    forall i | 0 <= i < |GroupBy(ts)| ensures GroupBy(ts)[i].shortcuts != [] {
      NamesAppear(ts, Names(ts)[i]);
      GroupsNonEmpty(ts, Names(ts)[i]);
    }
  }

  /** Where in the list the shortcuts of a group come from. */
  function Places(ts: seq<Tagged>, g: string): (r: seq<nat>)
    ensures |r| == |InGroup(ts, g)|
  {
    if ts == [] then []
    else Places(ts[..|ts| - 1], g) + if ts[|ts| - 1].group == g then [|ts| - 1] else []
  }

  /** These shortcuts come from these places: ascending ones, and all of the group. */
  ghost predicate ComeFrom(ts: seq<Tagged>, g: string, places: seq<nat>, listed: seq<Shortcut>) {
    && |places| == |listed|
    && (forall i, j :: 0 <= i < j < |places| ==> places[i] < places[j])
    && (forall i :: 0 <= i < |places| ==> places[i] < |ts| && ts[places[i]] == Tagged(g, listed[i]))
    && (forall k :: 0 <= k < |ts| && ts[k].group == g ==> k in places)
  }

  lemma ComeFromGrows(ts: seq<Tagged>, t: Tagged, g: string, places: seq<nat>, listed: seq<Shortcut>)
    requires ComeFrom(ts, g, places, listed)
    ensures if t.group == g then ComeFrom(ts + [t], g, places + [|ts|], listed + [t.shortcut])
            else ComeFrom(ts + [t], g, places, listed)
  {
    var all := ts + [t];
    assert forall k :: 0 <= k < |ts| ==> all[k] == ts[k];
    if t.group == g {
      var places' := places + [|ts|];
      assert places'[|places|] == |ts| && t == Tagged(g, t.shortcut);
      forall k | 0 <= k < |all| && all[k].group == g ensures k in places' {
        if k < |ts| { assert ts[k].group == g && k in places; }
      }
    }
  }

  /** A section keeps the order in which its shortcuts are configured, and has them all. */
  lemma {:induction false} SectionsStable(ts: seq<Tagged>, g: string)
    ensures ComeFrom(ts, g, Places(ts, g), InGroup(ts, g))
  {
    if ts != [] {
      hide ComeFrom;
      var front, last := ts[..|ts| - 1], ts[|ts| - 1];
      SectionsStable(front, g);
      ComeFromGrows(front, last, g, Places(front, g), InGroup(front, g));
      assert front + [last] == ts;
      assert Places(front, g) + [] == Places(front, g) && InGroup(front, g) + [] == InGroup(front, g);
    }
  }

  lemma FirstUnique(ts: seq<Tagged>, g: string, i: nat)
    requires i <= |ts| && (forall k :: 0 <= k < i ==> ts[k].group != g) && (i < |ts| ==> ts[i].group == g)
    ensures First(ts, g) == i
  {}

  /** What becomes of one binding of an enabled hotkey. */
  datatype Fate = Listed(tagged: Tagged) | Warned(warning: string)

  function FateOf(parse: ChordOf, h: Hotkey, binding: string): Fate {
    match Shown(parse, h, binding)
    case Ok(shortcut) => Listed(Tagged(h.group, shortcut))
    case Err(warning) => Warned(warning)
  }

  function FatesOf(parse: ChordOf, h: Hotkey, bindings: seq<string>): (r: seq<Fate>)
    ensures |r| == |bindings| && forall k :: 0 <= k < |r| ==> r[k] == FateOf(parse, h, bindings[k])
  {
    seq(|bindings|, k requires 0 <= k < |bindings| => FateOf(parse, h, bindings[k]))
  }

  /** The bindings of the enabled hotkeys, one after the other. */
  function Fates(parse: ChordOf, hotkeys: seq<Hotkey>): seq<Fate> {
    if hotkeys == [] then []
    else
      var h := hotkeys[|hotkeys| - 1];
      Fates(parse, hotkeys[..|hotkeys| - 1]) + if h.enabled then FatesOf(parse, h, h.bindings) else []
  }

  function Listings(fates: seq<Fate>): seq<Tagged> {
    if fates == [] then []
    else
      var last := fates[|fates| - 1];
      Listings(fates[..|fates| - 1]) + if last.Listed? then [last.tagged] else []
  }

  function WarningsOf(fates: seq<Fate>): seq<string> {
    if fates == [] then []
    else
      var last := fates[|fates| - 1];
      WarningsOf(fates[..|fates| - 1]) + if last.Warned? then [last.warning] else []
  }

  lemma {:induction false} SplitConcat(a: seq<Fate>, b: seq<Fate>)
    ensures Listings(a + b) == Listings(a) + Listings(b) && WarningsOf(a + b) == WarningsOf(a) + WarningsOf(b)
  {
    if b == [] {
      assert a + b == a;
    } else {
      SplitConcat(a, b[..|b| - 1]);
      assert (a + b)[..|a + b| - 1] == a + b[..|b| - 1];
    }
  }

  lemma {:induction false} SplitBindings(parse: ChordOf, h: Hotkey, bindings: seq<string>)
    ensures Listings(FatesOf(parse, h, bindings)) == Tag(h.group, ShownAll(parse, h, bindings))
    ensures WarningsOf(FatesOf(parse, h, bindings)) == SkippedAll(parse, h, bindings)
  {
    if bindings != [] {
      var front := bindings[..|bindings| - 1];
      SplitBindings(parse, h, front);
      assert FatesOf(parse, h, bindings)[..|bindings| - 1] == FatesOf(parse, h, front);
    }
  }

  /** The shortcuts shown and the warnings are the two halves of one list of fates, in order. */
  lemma {:induction false} ShownOrWarned(parse: ChordOf, hotkeys: seq<Hotkey>)
    ensures Representable(parse, hotkeys) == Listings(Fates(parse, hotkeys))
    ensures Warnings(parse, hotkeys) == WarningsOf(Fates(parse, hotkeys))
  {
    if hotkeys != [] {
      var front, h := hotkeys[..|hotkeys| - 1], hotkeys[|hotkeys| - 1];
      ShownOrWarned(parse, front);
      SplitBindings(parse, h, h.bindings);
      SplitConcat(Fates(parse, front), if h.enabled then FatesOf(parse, h, h.bindings) else []);
    }
  }

  function Configured(h: Hotkey): nat { if h.enabled then |h.bindings| else 0 }

  lemma {:induction false} FatesCounted(parse: ChordOf, hotkeys: seq<Hotkey>)
    ensures |Fates(parse, hotkeys)| == Total(hotkeys, Configured)
  {
    if hotkeys != [] { FatesCounted(parse, hotkeys[..|hotkeys| - 1]); }
  }

  /** Binding `k` of enabled hotkey `j` has exactly one fate, at its place among all configured
      bindings: its own shortcut under its own group, or its own warning. */
  lemma BindingsAccountedFor(parse: ChordOf, hotkeys: seq<Hotkey>, j: nat, k: nat)
    requires j < |hotkeys| && hotkeys[j].enabled && k < |hotkeys[j].bindings|
    ensures
      var at := Total(hotkeys[..j], Configured) + k;
      && at < |Fates(parse, hotkeys)| == Total(hotkeys, Configured)
      && Fates(parse, hotkeys)[at] == FateOf(parse, hotkeys[j], hotkeys[j].bindings[k])
    ensures Representable(parse, hotkeys) == Listings(Fates(parse, hotkeys))
    ensures Warnings(parse, hotkeys) == WarningsOf(Fates(parse, hotkeys))
  {
    ShownOrWarned(parse, hotkeys);
    FateInPlace(parse, hotkeys, j, k);
  }

  lemma {:induction false} FateInPlace(parse: ChordOf, hotkeys: seq<Hotkey>, j: nat, k: nat)
    requires j < |hotkeys| && hotkeys[j].enabled && k < |hotkeys[j].bindings|
    ensures
      var at := Total(hotkeys[..j], Configured) + k;
      && at < |Fates(parse, hotkeys)| == Total(hotkeys, Configured)
      && Fates(parse, hotkeys)[at] == FateOf(parse, hotkeys[j], hotkeys[j].bindings[k])
  {
    hide FateOf;
    var front := hotkeys[..|hotkeys| - 1];
    FatesCounted(parse, hotkeys);
    FatesCounted(parse, front);
    if j < |front| {
      FateInPlace(parse, front, j, k);
      assert front[..j] == hotkeys[..j];
    } else {
      assert hotkeys[..j] == front;
    }
  }
}
