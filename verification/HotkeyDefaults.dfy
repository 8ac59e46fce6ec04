/** Migrating a loaded hotkey table and adding the defaults back, without shadowing the user. */
module HotkeyDefaults {
  import opened Prelude
  import opened Ordering
  import opened Chords
  import opened Hotkeys
  import opened HotkeyWinners

  type Table = map<string, string>

  // ------------------------------------------------------------------ migration

  const DEPRECATED := {"width_third", "width_half", "width_two_thirds"}

  function Renamed(action: string): string {
    if action == "resize_grow" then "cycle_width_up"
    else if action == "resize_shrink" then "cycle_width_down"
    else action
  }

  /** The identifier an action stands for; `normalize` lower-cases and replaces hyphens. */
  function Canonical(normalize: string -> string, action: string): string { Renamed(normalize(action)) }

  function Migrated(t: Table): Table { map k | k in t && Renamed(t[k]) !in DEPRECATED :: Renamed(t[k]) }

  ghost predicate NormalizesNames(normalize: string -> string) {
    && (forall a :: normalize(normalize(a)) == normalize(a))
    && normalize("resize_grow") == "resize_grow" && normalize("resize_shrink") == "resize_shrink"
    && normalize("cycle_width_up") == "cycle_width_up" && normalize("cycle_width_down") == "cycle_width_down"
  }

  lemma RenamesOnce(action: string)
    ensures Renamed(Renamed(action)) == Renamed(action)
  {
    assert |"cycle_width_up"| == 14 && |"cycle_width_down"| == 16 && |"resize_grow"| == 11 && |"resize_shrink"| == 13;
  }

  /** Migration drops only deprecated actions, keeps what the others mean, and is done once. */
  lemma MigrationKeepsMeaning(t: Table, normalize: string -> string)
    requires NormalizesNames(normalize)
    ensures forall k :: k in Migrated(t) <==> k in t && Renamed(t[k]) !in DEPRECATED
    ensures forall k :: k in Migrated(t) ==> Canonical(normalize, Migrated(t)[k]) == Canonical(normalize, t[k])
    ensures Migrated(Migrated(t)) == Migrated(t)
  {
    forall k | k in Migrated(t)
      ensures Canonical(normalize, Migrated(t)[k]) == Canonical(normalize, t[k])
      ensures Renamed(Migrated(t)[k]) == Migrated(t)[k]
    {
      RenamesOnce(t[k]);
      RenamesOnce(normalize(t[k]));
    }
  }

  /** Two actions have new names, three are gone with their keys, and every other binding is left alone. */
  lemma MigrationExact(t: Table, k: string)
    requires k in t
    ensures k !in Migrated(t) <==> t[k] == "width_third" || t[k] == "width_half" || t[k] == "width_two_thirds"
    ensures k in Migrated(t) ==> Migrated(t)[k] == if t[k] == "resize_grow" then "cycle_width_up"
                                                 else if t[k] == "resize_shrink" then "cycle_width_down" else t[k]
  {
    assert |"cycle_width_up"| == 14 && |"cycle_width_down"| == 16 && |"resize_grow"| == 11 && |"resize_shrink"| == 13;
    assert |"width_third"| == 11 && |"width_half"| == 10 && |"width_two_thirds"| == 16;
    assert "resize_grow"[0] == 'r' && "width_third"[0] == 'w' && "cycle_width_down"[0] == 'c';
    assert "width_two_thirds"[0] == 'w';
  }

  // ------------------------------------------------------------------- defaults

  type ChordOf = string -> Option<Chord>

  predicate Taken(t: Table, chordOf: ChordOf, chord: Chord) { exists k :: k in t && chordOf(k) == Some(chord) }

  /** A default is added unless its command is bound or disabled or its chord is bound. */
  predicate Missing(t: Table, disabled: seq<string>, chordOf: ChordOf, key: string, command: string) {
    && command !in t.Values && command !in disabled
    && (chordOf(key).Some? ==> !Taken(t, chordOf, chordOf(key).value))
  }

  function Merged(t: Table, disabled: seq<string>, defaults: Table, chordOf: ChordOf): Table {
    t + map k | k in defaults && Missing(t, disabled, chordOf, k, defaults[k]) :: defaults[k]
  }

  function Replaced(action: string, from: string, to: string): string { if action == from then to else action }

  /** The two renames do not feed each other, so doing them in turn renames each action once. */
  lemma RenamesInTurn(t: Table, t': Table)
    requires t'.Keys == t.Keys
    requires forall k :: k in t ==>
          t'[k] == Replaced(Replaced(t[k], "resize_grow", "cycle_width_up"), "resize_shrink", "cycle_width_down")
    ensures forall k :: k in t ==> t'[k] == Renamed(t[k])
  {
    assert |"cycle_width_up"| == 14 && |"resize_shrink"| == 13;
  }

  class HotkeyConfig {
    var bindings: Table
    const disabled: seq<string>

    constructor (bindings: Table, disabled: seq<string>)
      ensures this.bindings == bindings && this.disabled == disabled
    {
      this.bindings, this.disabled := bindings, disabled;
    }

    /** Rewrites the values in place, one rename after the other, then drops deprecated ones. */
    method MigrateHotkeyBindings()
      modifies this
      ensures bindings == Migrated(old(bindings))
    {
      hide Renamed, Replaced;
      RenameValues("resize_grow", "cycle_width_up");
      RenameValues("resize_shrink", "cycle_width_down");
      RenamesInTurn(old(bindings), bindings);
      bindings := map k | k in bindings && bindings[k] !in DEPRECATED :: bindings[k];
    }

    method RenameValues(from: string, to: string)
      modifies this
      ensures bindings == map k | k in old(bindings) :: Replaced(old(bindings)[k], from, to)
    {
      var todo := bindings.Keys;
      while todo != {}
        invariant todo <= bindings.Keys == old(bindings).Keys
        invariant forall k :: k in bindings ==>
          bindings[k] == if k in todo then old(bindings)[k] else Replaced(old(bindings)[k], from, to)
      {
        var k :| k in todo;
        if bindings[k] == from {
          bindings := bindings[k := to];
        }
        todo := todo - {k};
      }
    }

    /** The defaults are visited in an arbitrary order. */
    method MergeDefaultHotkeys(defaults: Table, chordOf: ChordOf)
      modifies this
      ensures bindings == Merged(old(bindings), disabled, defaults, chordOf)
    {
      var user := bindings;
      var todo := defaults.Keys;
      while todo != {}
        invariant todo <= defaults.Keys
        invariant bindings == user +
          map k | k in defaults && k !in todo && Missing(user, disabled, chordOf, k, defaults[k]) :: defaults[k]
      {
        var k :| k in todo;
        if Missing(user, disabled, chordOf, k, defaults[k]) {
          bindings := bindings[k := defaults[k]];
        }
        todo := todo - {k};
      }
    }
  }

  /** Default keys are well-formed chords. */
  ghost predicate DefaultsParse(defaults: Table, chordOf: ChordOf) { forall k :: k in defaults ==> chordOf(k).Some? }

  /** A user binding whose key parses is never overwritten. */
  lemma UserBindingsKept(t: Table, disabled: seq<string>, defaults: Table, chordOf: ChordOf, k: string)
    requires k in t && chordOf(k).Some?
    ensures k in Merged(t, disabled, defaults, chordOf) && Merged(t, disabled, defaults, chordOf)[k] == t[k]
  {
    assert Taken(t, chordOf, chordOf(k).value);
  }

  lemma MergedHolds(t: Table, disabled: seq<string>, defaults: Table, chordOf: ChordOf)
    requires DefaultsParse(defaults, chordOf)
    ensures
      var m := Merged(t, disabled, defaults, chordOf);
      && (forall k :: k in t ==> k in m && m[k] == t[k])
      && (forall k :: k in m && k !in t ==>
            k in defaults && m[k] == defaults[k] && Missing(t, disabled, chordOf, k, defaults[k]))
      && (forall k :: k in defaults && Missing(t, disabled, chordOf, k, defaults[k]) ==> k in m && m[k] == defaults[k])
  {
    forall k | k in t && k in defaults ensures !Missing(t, disabled, chordOf, k, defaults[k]) {
      assert Taken(t, chordOf, chordOf(k).value);
    }
  }

  /** Merging again changes nothing. */
  lemma MergeIdempotent(t: Table, disabled: seq<string>, defaults: Table, chordOf: ChordOf)
    requires DefaultsParse(defaults, chordOf)
    ensures
      var m := Merged(t, disabled, defaults, chordOf);
      Merged(m, disabled, defaults, chordOf) == m
  {
    var m := Merged(t, disabled, defaults, chordOf);
    MergedHolds(t, disabled, defaults, chordOf);
    hide Merged;
    forall k | k in defaults ensures !Missing(m, disabled, chordOf, k, defaults[k]) {
      if Missing(t, disabled, chordOf, k, defaults[k]) {
        assert k in m && m[k] in m.Values;
      } else if Missing(m, disabled, chordOf, k, defaults[k]) {
        MissingShrinks(t, m, disabled, chordOf, k, defaults[k]);
      }
    }
    NothingMissing(m, disabled, defaults, chordOf);
  }

  lemma MissingShrinks(t: Table, m: Table, disabled: seq<string>, chordOf: ChordOf, key: string, command: string)
    requires (forall k :: k in t ==> k in m && m[k] == t[k]) && Missing(m, disabled, chordOf, key, command)
    ensures Missing(t, disabled, chordOf, key, command)
  {
    forall v | v in t.Values ensures v in m.Values {
      var k :| k in t && t[k] == v;
      assert m[k] == v;
    }
    forall chord | Taken(t, chordOf, chord) ensures Taken(m, chordOf, chord) {
      var k :| k in t && chordOf(k) == Some(chord);
      assert k in m;
    }
  }

  lemma NothingMissing(m: Table, disabled: seq<string>, defaults: Table, chordOf: ChordOf)
    requires forall k :: k in defaults ==> !Missing(m, disabled, chordOf, k, defaults[k])
    ensures Merged(m, disabled, defaults, chordOf) == m
  {}

  /** What merging adds: only defaults whose command the user bound nowhere and whose chord he bound to
      nothing; a command that is disabled and not bound stays unbound; and the command of every default is bound
      afterwards unless it is disabled or the user took its chord. */
  lemma MergeAddsExactly(t: Table, disabled: seq<string>, defaults: Table, chordOf: ChordOf)
    requires DefaultsParse(defaults, chordOf)
    ensures
      var m := Merged(t, disabled, defaults, chordOf);
      && (forall k :: k in t ==> k in m && m[k] == t[k])
      && (forall k :: k in m && k !in t ==>
            && k in defaults && m[k] == defaults[k] && m[k] !in t.Values
            && forall u :: u in t ==> chordOf(u) != chordOf(k))
      && (forall command :: command in disabled && command in m.Values ==> command in t.Values)
      && (forall k :: k in defaults ==>
            || defaults[k] in m.Values || defaults[k] in disabled
            || exists u :: u in t && chordOf(u) == chordOf(k))
  {
    var m := Merged(t, disabled, defaults, chordOf);
    MergedHolds(t, disabled, defaults, chordOf);
    hide Merged;
    forall command | command in disabled && command in m.Values ensures command in t.Values {
      var k :| k in m && m[k] == command;
      if k in t { assert t[k] in t.Values; }
    }
    forall k | k in m ensures m[k] in m.Values {}
    forall command | command in t.Values ensures command in m.Values {
      var u :| u in t && t[u] == command;
      assert m[u] in m.Values;
    }
    forall k | k in m && k !in t ensures forall u :: u in t ==> chordOf(u) != chordOf(k) {
      assert !Taken(t, chordOf, chordOf(k).value);
    }
  }

  // ------------------------------------------------------ defaults do not shadow

  ghost predicate Enumerates(entries: seq<Entry>, t: Table) {
    Apart(entries, EntryFields) && forall e :: e in entries <==> e.binding in t && t[e.binding] == e.action
  }

  /** Every chord's key fits the low byte, which is all an id keeps of it. */
  ghost predicate KeysFit(chordOf: ChordOf) { forall s :: chordOf(s).Some? ==> chordOf(s).value.vk <= 0xFF }

  lemma SameIdSame(a: Chord, b: Chord)
    requires a.vk <= 0xFF && b.vk <= 0xFF && StableId(a) == StableId(b)
    ensures a == b
  {
    StableIdInjective(a, b);
    LowByte(a.vk);
    LowByte(b.vk);
  }

  lemma LowByte(vk: bv32)
    requires vk <= 0xFF
    ensures vk & 0xFF == vk
  {}

  /** No added default names a chord the user bound, so every such chord keeps its winner, and none
      gains one. */
  lemma UserChordsKeepWinners(c: Catalog, t: Table, disabled: seq<string>, defaults: Table, user: seq<Entry>,
      all: seq<Entry>, w: Entry)
    requires DefaultsParse(defaults, c.chordOf) && KeysFit(c.chordOf)
    requires Enumerates(user, t) && Enumerates(all, Merged(t, disabled, defaults, c.chordOf))
    requires Valid(c, w) && Taken(t, c.chordOf, c.chordOf(w.binding).value)
    ensures Winner(c, all, w) <==> Winner(c, user, w)
  {
    MergedHolds(t, disabled, defaults, c.chordOf);
    hide Merged;
    forall e | Rivals(c, e, w) ensures e in all <==> e in user {
      SameIdSame(c.chordOf(e.binding).value, c.chordOf(w.binding).value);
    }
    assert Rivals(c, w, w);
  }

  /** Without function-key modifiers among the defaults, a user's binding resolves to the same
      thing, executable or not, as it does alone. */
  lemma UserBindingsResolveAlike(c: Catalog, t: Table, disabled: seq<string>, defaults: Table, user: seq<Entry>,
      all: seq<Entry>, b: Binding)
    requires DefaultsParse(defaults, c.chordOf) && KeysFit(c.chordOf)
    requires forall k :: k in defaults ==> c.chordOf(k).value.modifiers.fnMods == 0
    requires Enumerates(user, t) && Enumerates(all, Merged(t, disabled, defaults, c.chordOf))
    requires Taken(t, c.chordOf, b.chord)
    ensures b in Resolved(c, all).bindings <==> b in Resolved(c, user).bindings
  {
    ResolvedExactly(c, all);
    ResolvedExactly(c, user);
    hide Resolved, Reported, Ascending, Winner;
    var e := b.entry;
    WinnerValid(c, all, e);
    WinnerValid(c, user, e);
    if Valid(c, e) && b.chord == c.chordOf(e.binding).value {
      UserChordsKeepWinners(c, t, disabled, defaults, user, all, e);
      TriggersHeldAlike(c, t, disabled, defaults, user, all, e);
    }
  }

  lemma TriggersHeldAlike(c: Catalog, t: Table, disabled: seq<string>, defaults: Table, user: seq<Entry>,
      all: seq<Entry>, e: Entry)
    requires DefaultsParse(defaults, c.chordOf) && KeysFit(c.chordOf)
    requires forall k :: k in defaults ==> c.chordOf(k).value.modifiers.fnMods == 0
    requires Enumerates(user, t) && Enumerates(all, Merged(t, disabled, defaults, c.chordOf))
    requires Valid(c, e)
    ensures TriggerHeld(c, all, e) <==> TriggerHeld(c, user, e)
  {
    hide InMask, FnModBit;
    var bit := FnModBit(c.chordOf(e.binding).value.vk);
    if bit.Some? {
      InJoined(bit.value, 0, 0);
      MergedHolds(t, disabled, defaults, c.chordOf);
      hide Merged;
      forall w | Valid(c, w) && InMask(bit.value, c.chordOf(w.binding).value.modifiers.fnMods)
        ensures Winner(c, all, w) <==> Winner(c, user, w)
      {
        HeldByUser(c, t, disabled, defaults, user, all, w);
      }
    }
  }

  /** A winner with function-key modifiers is one of the user's. */
  lemma HeldByUser(c: Catalog, t: Table, disabled: seq<string>, defaults: Table, user: seq<Entry>, all: seq<Entry>,
      w: Entry)
    requires DefaultsParse(defaults, c.chordOf) && KeysFit(c.chordOf)
    requires forall k :: k in defaults ==> c.chordOf(k).value.modifiers.fnMods == 0
    requires Enumerates(user, t) && Enumerates(all, Merged(t, disabled, defaults, c.chordOf))
    requires Valid(c, w) && c.chordOf(w.binding).value.modifiers.fnMods != 0
    ensures Winner(c, all, w) <==> Winner(c, user, w)
  {
    MergedHolds(t, disabled, defaults, c.chordOf);
    hide Merged;
    if w.binding in t {
      assert Taken(t, c.chordOf, c.chordOf(w.binding).value);
      UserChordsKeepWinners(c, t, disabled, defaults, user, all, w);
    }
  }
}
