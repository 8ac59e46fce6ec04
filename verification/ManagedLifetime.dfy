/** Telling the lifetimes of a recycled window handle apart with stamped tokens.

    The operating system creates and destroys windows on handles at will and clears a
    window's stamp with it; a read of the stamp may fail at any time. `born` is history:
    which lifetime each minted token was stamped on. */
module ManagedLifetime {
  import opened Prelude

  type Hwnd = nat
  type Token = nat
  type Lifetime = nat

  /** Event times of the window system, which wrap. */
  type Millis = t: nat | t < 0x1_0000_0000

  const DRAG_PLACEHOLDER_HWND: Hwnd := 0xFFFF_FFFF_FFFF_FFFF

  datatype Window = Window(lifetime: Lifetime, stamp: Option<Token>)

  /** What reading a handle's stamp can return. */
  datatype Read = Stamp(stamp: Option<Token>) | GoneHandle | TransientFailure

  datatype System = System(
    windows: map<Hwnd, Window>,          // live windows, by handle
    nextLifetime: Lifetime,
    nextToken: Token,
    born: map<Token, Lifetime>,
    members: set<Hwnd>,                  // handles the daemon manages
    tokens: map<Hwnd, Token>,            // managed_lifetime_tokens
    admitted: map<Hwnd, Millis>,         // managed_lifetime_admitted_at_event_ms
    hidden: map<Hwnd, Option<Token>>)    // recently_hidden_hwnds

  const START := System(map[], 0, 1, map[], {}, map[], map[], map[])

  /** Only a dead handle reads as gone, and a successful read tells the truth. */
  predicate Legal(s: System, h: Hwnd, read: Read) {
    match read
    case Stamp(stamp) => h in s.windows && s.windows[h].stamp == stamp
    case GoneHandle => h !in s.windows
    case TransientFailure => true
  }

  // ------------------------------------------------- queries, as in the source

  predicate Replaced(s: System, h: Hwnd, read: Read) {
    if h !in s.tokens then false
    else
      match read
      case Stamp(None) => true
      case Stamp(Some(token)) => token != s.tokens[h]
      case _ => false
  }

  /** `ignoreLive` is the answer of the separate ignore-lifetime check. */
  predicate DestroyedNamesCurrent(s: System, h: Hwnd, read: Read, ignoreLive: bool) {
    if h in s.members && h in s.tokens then
      match read
      case Stamp(Some(token)) => token == s.tokens[h]
      case TransientFailure => true
      case _ => false
    else ignoreLive
  }

  predicate RecentlyHiddenNamesCurrent(stored: Option<Token>, read: Read) {
    match stored
    case None => true
    case Some(token) =>
      match read
      case Stamp(Some(current)) => current == token
      case Stamp(None) => false
      case _ => true
  }

  /** Nearby times compared in the wrapping domain. */
  predicate NoLaterThan(a: Millis, b: Millis) { (b - a) % 0x1_0000_0000 < 0x8000_0000 }

  /** A Hidden event strictly earlier than the member's recorded admission names an older lifetime. */
  predicate HiddenIsStale(s: System, h: Hwnd, at: Millis) {
    h in s.members && h in s.admitted && !NoLaterThan(s.admitted[h], at)
  }

  // ------------------------------------------------------------- transitions

  function Depart(s: System, h: Hwnd): System {
    s.(members := s.members - {h}, tokens := s.tokens - {h}, admitted := s.admitted - {h}, hidden := s.hidden - {h})
  }

  function DepartReplaced(s: System, h: Hwnd, read: Read): (System, bool) {
    if h in s.members && Replaced(s, h, read) then (Depart(s, h), true) else (s, false)
  }

  /** The second component says whether the handle is still the recorded window. */
  function DuplicateAdmission(s: System, h: Hwnd, read: Read): (System, bool) {
    var (s', departed) := DepartReplaced(s, h, read);
    (s', !departed && h in s'.members)
  }

  function AdmittedAt(admitted: map<Hwnd, Millis>, h: Hwnd, at: Option<Millis>): map<Hwnd, Millis> {
    if at.Some? then admitted[h := at.value] else admitted - {h}
  }

  /** Stamps the window now on `h`, admitted by an event at `at` or by none; `stampOk` is false when
      the property write is refused. */
  function Record(s: System, h: Hwnd, at: Option<Millis>, stampOk: bool): System {
    if h == DRAG_PLACEHOLDER_HWND || h !in s.windows then s
    else if !stampOk then s.(nextToken := s.nextToken + 1)
    else
      s.(nextToken := s.nextToken + 1,
         born := s.born[s.nextToken := s.windows[h].lifetime],
         windows := s.windows[h := s.windows[h].(stamp := Some(s.nextToken))],
         tokens := s.tokens[h := s.nextToken],
         admitted := AdmittedAt(s.admitted, h, at))
  }

  function TokenForHidden(s: System, h: Hwnd, read: Read): Option<Token> {
    if read.Stamp? && read.stamp.Some? then read.stamp
    else if h in s.tokens then Some(s.tokens[h]) else None
  }

  datatype Action =
    | OsCreate(h: Hwnd)
    | OsDestroy(h: Hwnd)
    | Probe(h: Hwnd, read: Read)                        // depart a replaced member
    | Admit(h: Hwnd, read: Read)                        // duplicate check, then insertion
    | Stamping(h: Hwnd, at: Option<Millis>, stampOk: bool)  // record the lifetime of a member
    | Enumerate(h: Hwnd, stampOk: bool)                 // the same, only if unrecorded
    | DestroyedEvent(h: Hwnd, read: Read, ignoreLive: bool)
    | HiddenEvent(h: Hwnd, read: Read, brief: bool, hiddenAt: Millis)  // brief: so remembered

  predicate Allowed(s: System, a: Action) {
    match a
    case OsCreate(h) => h !in s.windows
    case OsDestroy(h) => h in s.windows
    case Probe(h, read) => Legal(s, h, read)
    case Admit(h, read) => Legal(s, h, read)
    case Stamping(h, _, _) => h in s.members
    case Enumerate(h, _) => h in s.members
    case DestroyedEvent(h, read, _) => Legal(s, h, read)
    case HiddenEvent(h, read, _, _) => Legal(s, h, read)
  }

  function Next(s: System, a: Action): System {
    match a
    case OsCreate(h) =>
      s.(windows := s.windows[h := Window(s.nextLifetime, None)], nextLifetime := s.nextLifetime + 1)
    case OsDestroy(h) => s.(windows := s.windows - {h})
    case Probe(h, read) => DepartReplaced(s, h, read).0
    case Admit(h, read) =>
      var (s', duplicate) := DuplicateAdmission(s, h, read);
      if duplicate then s' else s'.(members := s'.members + {h})
    case Stamping(h, at, stampOk) => Record(s, h, at, stampOk)
    case Enumerate(h, stampOk) => if h in s.tokens then s else Record(s, h, None, stampOk)
    case DestroyedEvent(h, read, ignoreLive) =>
      if DestroyedNamesCurrent(s, h, read, ignoreLive) then s else Depart(s, h)
    case HiddenEvent(h, read, brief, at) =>
      var s' := Depart(s, h);
      if HiddenIsStale(s, h, at) then s
      else if brief then s'.(hidden := s.hidden[h := TokenForHidden(s, h, read)])
      else s'.(hidden := s.hidden)
  }

  predicate AllowedRun(s: System, run: seq<Action>)
    decreases |run|
  {
    run == [] || (Allowed(s, run[0]) && AllowedRun(Next(s, run[0]), run[1..]))
  }

  function After(s: System, run: seq<Action>): System
    decreases |run|
  {
    if run == [] then s else After(Next(s, run[0]), run[1..])
  }

  // --------------------------------------------------------------- invariant

  /** The recorded lifetime of `h` is the one that has the handle now. */
  predicate Owns(s: System, h: Hwnd) {
    && h in s.tokens && h in s.windows && s.tokens[h] in s.born
    && s.windows[h].lifetime == s.born[s.tokens[h]]
  }

  ghost predicate Inv(s: System) {
    && s.tokens.Keys <= s.members && s.admitted.Keys <= s.tokens.Keys
    && (forall t :: t in s.born ==> t < s.nextToken && s.born[t] < s.nextLifetime)
    && (forall h :: h in s.windows ==> s.windows[h].lifetime < s.nextLifetime)
    && (forall h :: h in s.windows && s.windows[h].stamp.Some? ==>
          s.windows[h].stamp.value in s.born && s.born[s.windows[h].stamp.value] == s.windows[h].lifetime)
    && (forall h :: h in s.tokens ==> s.tokens[h] in s.born)
    && (forall h :: Owns(s, h) ==> s.windows[h].stamp == Some(s.tokens[h]))
    && (forall h :: h in s.hidden && s.hidden[h].Some? ==> s.hidden[h].value in s.born)
  }

  lemma InvDepart(s: System, h: Hwnd)
    requires Inv(s)
    ensures Inv(Depart(s, h))
  {
    forall k | Owns(Depart(s, h), k) ensures Owns(s, k) {}
  }

  lemma InvRecord(s: System, h: Hwnd, at: Option<Millis>, stampOk: bool)
    requires Inv(s) && h in s.members
    ensures Inv(Record(s, h, at, stampOk))
  {
    var s' := Record(s, h, at, stampOk);
    forall k | Owns(s', k) ensures s'.windows[k].stamp == Some(s'.tokens[k]) {
      if k != h { assert Owns(s, k); }
    }
  }

  lemma InvOs(s: System, a: Action)
    requires Inv(s) && Allowed(s, a) && (a.OsCreate? || a.OsDestroy?)
    ensures Inv(Next(s, a))
  {
    var s' := Next(s, a);
    forall k | Owns(s', k) ensures s'.windows[k].stamp == Some(s'.tokens[k]) {
      assert Owns(s, k);
    }
  }

  lemma InvHidden(s: System, h: Hwnd, entry: Option<Token>)
    requires Inv(s) && (entry.Some? ==> entry.value in s.born)
    ensures Inv(Depart(s, h).(hidden := s.hidden))
    ensures Inv(Depart(s, h).(hidden := s.hidden[h := entry]))
  {
    forall k | Owns(Depart(s, h), k) ensures Owns(s, k) {}
  }

  lemma InvNext(s: System, a: Action)
    requires Inv(s) && Allowed(s, a)
    ensures Inv(Next(s, a))
  {
    match a
    case OsCreate(_) => InvOs(s, a);
    case OsDestroy(_) => InvOs(s, a);
    case Probe(h, _) => InvDepart(s, h);
    case Admit(h, _) =>
      InvDepart(s, h);
      InvMember(s, h);
      InvMember(Depart(s, h), h);
    case Stamping(h, at, stampOk) => InvRecord(s, h, at, stampOk);
    case Enumerate(h, stampOk) => InvRecord(s, h, None, stampOk);
    case DestroyedEvent(h, _, _) => InvDepart(s, h);
    case HiddenEvent(h, read, _, _) => InvHidden(s, h, TokenForHidden(s, h, read));
  }

  lemma InvMember(s: System, h: Hwnd)
    requires Inv(s)
    ensures Inv(s.(members := s.members + {h}))
  {
    forall k | Owns(s.(members := s.members + {h}), k) ensures Owns(s, k) {}
  }

  lemma {:induction false} InvAlways(s: System, run: seq<Action>)
    requires Inv(s) && AllowedRun(s, run)
    ensures Inv(After(s, run))
    decreases |run|
  {
    if run != [] {
      InvNext(s, run[0]);
      InvAlways(Next(s, run[0]), run[1..]);
    }
  }

  // ---------------------------------------------------------------- theorems

  /** In every reachable state, whatever the read returns: replacement is claimed exactly when
      the read succeeded and the recorded lifetime lost the handle. */
  lemma ReplacedExactly(run: seq<Action>, h: Hwnd, read: Read)
    requires AllowedRun(START, run) && Legal(After(START, run), h, read)
    ensures
      var s := After(START, run);
      Replaced(s, h, read) <==> h in s.tokens && read.Stamp? && !Owns(s, h)
  {
    InvAlways(START, run);
  }

  /** A Destroyed event is taken as stale exactly when the recorded lifetime still has the
      handle or the read failed transiently. */
  lemma DestroyedExactly(run: seq<Action>, h: Hwnd, read: Read, ignoreLive: bool)
    requires AllowedRun(START, run) && Legal(After(START, run), h, read)
    requires h in After(START, run).tokens
    ensures
      var s := After(START, run);
      DestroyedNamesCurrent(s, h, read, ignoreLive) <==> Owns(s, h) || read.TransientFailure?
  {
    InvAlways(START, run);
  }

  /** The action neither destroys the window of `h` nor hides it, unless the hiding is stale. */
  predicate Spares(s: System, h: Hwnd, a: Action) {
    a != OsDestroy(h) && (a.HiddenEvent? && a.h == h ==> HiddenIsStale(s, h, a.hiddenAt))
  }

  predicate SparesAll(s: System, h: Hwnd, run: seq<Action>)
    decreases |run|
  {
    run == [] || (Spares(s, h, run[0]) && SparesAll(Next(s, run[0]), h, run[1..]))
  }

  lemma OwnsNext(s: System, h: Hwnd, a: Action)
    requires Inv(s) && Allowed(s, a) && Owns(s, h) && Spares(s, h, a)
    ensures Owns(Next(s, a), h) && h in Next(s, a).members
    ensures Next(s, a).windows[h].lifetime == s.windows[h].lifetime
  {
    match a
    case Stamping(k, at, stampOk) => OwnsRecord(s, h, k, at, stampOk);
    case Enumerate(k, stampOk) => OwnsRecord(s, h, k, None, stampOk);
    case _ =>
      hide Record;
  }

  lemma OwnsRecord(s: System, h: Hwnd, k: Hwnd, at: Option<Millis>, stampOk: bool)
    requires Inv(s) && Owns(s, h) && k in s.members
    ensures Owns(Record(s, k, at, stampOk), h) && h in Record(s, k, at, stampOk).members
    ensures Record(s, k, at, stampOk).windows[h].lifetime == s.windows[h].lifetime
  {}

  /** Once recorded, a window stays managed, with the same lifetime, over any run in which it is
      neither destroyed nor hidden: stale Destroyed events, Hidden events from before its admission,
      repeated Created events, enumerations, failing reads and recycling of other handles included. */
  lemma {:induction false} RecordedMemberSurvives(s: System, h: Hwnd, run: seq<Action>)
    requires Inv(s) && AllowedRun(s, run) && Owns(s, h) && SparesAll(s, h, run)
    ensures Owns(After(s, run), h) && h in After(s, run).members
    ensures After(s, run).windows[h].lifetime == s.windows[h].lifetime
    decreases |run|
  {
    if run != [] {
      OwnsNext(s, h, run[0]);
      InvNext(s, run[0]);
      RecordedMemberSurvives(Next(s, run[0]), h, run[1..]);
    }
  }

  /** Nothing but a later recording of the same window changes the time a Hidden event is held
      against: in every reachable state only recorded members have one. */
  lemma GuardNeedsRecord(run: seq<Action>, h: Hwnd, at: Millis)
    requires AllowedRun(START, run)
    ensures HiddenIsStale(After(START, run), h, at) ==> h in After(START, run).tokens
    ensures var s := After(START, run);
            h in s.admitted ==> h in s.members && (HiddenIsStale(s, h, at) <==> !NoLaterThan(s.admitted[h], at))
  {
    InvAlways(START, run);
  }

  /** Admission reports a duplicate exactly for a member that is unrecorded, still owns its
      handle, or could not be read. */
  lemma DuplicateExactly(run: seq<Action>, h: Hwnd, read: Read)
    requires AllowedRun(START, run) && Legal(After(START, run), h, read)
    ensures
      var s := After(START, run);
      DuplicateAdmission(s, h, read).1 <==>
        h in s.members && (h !in s.tokens || Owns(s, h) || !read.Stamp?)
  {
    InvAlways(START, run);
  }

  /** A recycled handle whose read succeeds is admitted afresh, and after a successful stamp the
      new lifetime is the recorded one. */
  lemma ReplacementAdmitted(run: seq<Action>, h: Hwnd, read: Read, at: Option<Millis>)
    requires AllowedRun(START, run) && Legal(After(START, run), h, read)
    requires h != DRAG_PLACEHOLDER_HWND
    requires var s := After(START, run); h in s.tokens && h in s.windows && !Owns(s, h) && read.Stamp?
    ensures
      var s := After(START, run);
      var admitted := Next(s, Admit(h, read));
      var recorded := Next(admitted, Stamping(h, at, true));
      && DepartReplaced(s, h, read).1
      && h in admitted.members && h !in admitted.tokens && h !in admitted.hidden
      && Owns(recorded, h) && recorded.tokens[h] != s.tokens[h]
      && h !in admitted.admitted && (h in recorded.admitted <==> at.Some?)
  {
    InvAlways(START, run);
  }

  /** A suppression entry with a stored token never suppresses another lifetime that can be read. */
  lemma SuppressionNamesItsLifetime(run: seq<Action>, h: Hwnd, token: Token, read: Read)
    requires AllowedRun(START, run) && Legal(After(START, run), h, read) && read.Stamp?
    requires var s := After(START, run); h in s.hidden && s.hidden[h] == Some(token)
    requires RecentlyHiddenNamesCurrent(Some(token), read)
    ensures
      var s := After(START, run);
      token in s.born && s.windows[h].lifetime == s.born[token]
  {
    InvAlways(START, run);
  }

  // ------------------------------------------------------------ what events do

  /** `h` is not managed and no lifetime is recorded for it. */
  predicate Departed(s: System, h: Hwnd) { h !in s.members && h !in s.tokens && h !in s.admitted }

  /** The daemon keeps nothing of `h`. */
  predicate Forgotten(s: System, h: Hwnd) { Departed(s, h) && h !in s.hidden }

  /** The daemon keeps nothing of an earlier lifetime of `h`. */
  predicate Blank(s: System, h: Hwnd) { h !in s.tokens && h !in s.admitted && h !in s.hidden }

  /** Nothing differs but what the daemon keeps of `h`. */
  ghost predicate OnlyAt(s: System, s': System, h: Hwnd) {
    && s'.windows == s.windows && s'.nextLifetime == s.nextLifetime && s'.nextToken == s.nextToken && s'.born == s.born
    && s'.members - {h} == s.members - {h} && s'.tokens - {h} == s.tokens - {h}
    && s'.admitted - {h} == s.admitted - {h} && s'.hidden - {h} == s.hidden - {h}
  }

  lemma DepartOnly(s: System, h: Hwnd)
    ensures OnlyAt(s, Depart(s, h), h) && Forgotten(Depart(s, h), h)
  {}

  lemma DepartRemembering(s: System, h: Hwnd, entry: Option<Token>)
    ensures
      var s' := Depart(s, h).(hidden := s.hidden[h := entry]);
      OnlyAt(s, s', h) && Departed(s', h)
    ensures
      var s' := Depart(s, h).(hidden := s.hidden);
      OnlyAt(s, s', h) && Departed(s', h)
  {}

  lemma AdmitOnly(s: System, h: Hwnd)
    ensures OnlyAt(s, s.(members := s.members + {h}), h)
    ensures
      var s' := Depart(s, h);
      var s'' := s'.(members := s'.members + {h});
      OnlyAt(s, s'', h) && Blank(s'', h)
  {}

  /** After a Destroyed event the handle is forgotten altogether, unless its recorded lifetime still has
      it, its stamp could not be read, or nothing is recorded and the ignore check vouches for it; in
      these cases nothing changes. No other handle ever changes. */
  lemma DestroyedDeparts(run: seq<Action>, h: Hwnd, read: Read, ignoreLive: bool)
    requires AllowedRun(START, run) && Legal(After(START, run), h, read)
    ensures
      var s := After(START, run);
      var s' := Next(s, DestroyedEvent(h, read, ignoreLive));
      && OnlyAt(s, s', h)
      && if (if h in s.tokens then Owns(s, h) || read.TransientFailure? else ignoreLive) then s' == s
         else Forgotten(s', h)
  {
    var s := After(START, run);
    if h in s.tokens {
      InvAlways(START, run);
      TokensAreMembers(s);
      DestroyedExactly(run, h, read, ignoreLive);
    }
    DepartOnly(s, h);
    Unchanged(s, h);
    hide After, AllowedRun, Inv, Owns, OnlyAt, Forgotten, Depart, Legal;
  }

  lemma TokensAreMembers(s: System)
    requires Inv(s)
    ensures s.tokens.Keys <= s.members && s.admitted.Keys <= s.tokens.Keys
  {}

  const WRAP := 0x1_0000_0000

  /** Times less than half the clock's range apart compare in the wrapping domain as they really are. */
  lemma NearbyTimesOrdered(x: int, y: int)
    requires -(WRAP / 2) <= y - x < WRAP / 2
    ensures NoLaterThan(x % WRAP, y % WRAP) <==> x <= y
  {
    assert (y % WRAP - x % WRAP) % WRAP == (y - x) % WRAP by { ModDifference(y, x); }
    if x <= y { SmallMod(y - x, 0); } else { SmallMod(y - x + WRAP, 1); }
  }

  lemma ModDifference(a: int, b: int)
    ensures (a % WRAP - b % WRAP) % WRAP == (a - b) % WRAP
  {
    var q := a / WRAP - b / WRAP;
    assert a - b == (a % WRAP - b % WRAP) + q * WRAP;
    Shifted(a % WRAP - b % WRAP, q);
  }

  lemma Shifted(a: int, q: int)
    ensures (a + q * WRAP) % WRAP == a % WRAP
  {}

  lemma SmallMod(d: int, q: int)
    requires 0 <= d < WRAP
    ensures (d - q * WRAP) % WRAP == d
  {
    Shifted(d, -q);
  }

  /** A Hidden event at true time `y` forgets the handle too, unless it is from before its admission at
      true time `x`, when nothing changes. A window that was shown only briefly is remembered. */
  lemma HiddenDeparts(run: seq<Action>, h: Hwnd, read: Read, brief: bool, x: int, y: int)
    requires AllowedRun(START, run) && Legal(After(START, run), h, read)
    requires -(WRAP / 2) <= y - x < WRAP / 2
    requires var s := After(START, run); h in s.admitted ==> s.admitted[h] == x % WRAP
    ensures
      var s := After(START, run);
      var s' := Next(s, HiddenEvent(h, read, brief, y % WRAP));
      && OnlyAt(s, s', h)
      && if h in s.admitted && y < x then s' == s
         else
           && Departed(s', h)
           && if brief then Remembered(s, s', h, read) else s'.hidden == s.hidden
  {
    var s := After(START, run);
    InvAlways(START, run);
    HiddenParts(s, h, read, brief, y % WRAP);
    NearbyTimesOrdered(x, y);
    hide Inv, OnlyAt, Departed, Remembered, NoLaterThan, Legal, After, AllowedRun, Next;
  }

  lemma HiddenParts(s: System, h: Hwnd, read: Read, brief: bool, at: Millis)
    requires Inv(s) && Legal(s, h, read)
    ensures
      var s' := Next(s, HiddenEvent(h, read, brief, at));
      && OnlyAt(s, s', h)
      && if h in s.admitted && !NoLaterThan(s.admitted[h], at) then s' == s
         else
           && Departed(s', h)
           && if brief then Remembered(s, s', h, read) else s'.hidden == s.hidden
  {
    TokensAreMembers(s);
    DepartRemembering(s, h, TokenForHidden(s, h, read));
    RemembersToken(s, h, read);
    hide Inv, Depart, OnlyAt, Departed, Remembered, NoLaterThan, TokenForHidden, Legal;
    assert OnlyAt(s, s, h) by { Unchanged(s, h); }
  }

  lemma Unchanged(s: System, h: Hwnd)
    ensures OnlyAt(s, s, h)
  {}

  lemma RemembersToken(s: System, h: Hwnd, read: Read)
    requires Inv(s) && Legal(s, h, read)
    ensures Remembered(s, Depart(s, h).(hidden := s.hidden[h := TokenForHidden(s, h, read)]), h, read)
  {}

  /** The entry that remembers a hidden window names the lifetime that can be read, else the recorded one;
      it names none only if neither is known. */
  predicate Remembered(s: System, s': System, h: Hwnd, read: Read) {
    && h in s'.hidden
    && match s'.hidden[h]
       case None => h !in s.tokens && !(read.Stamp? && read.stamp.Some?)
       case Some(token) =>
         && token in s.born
         && if read.Stamp? && read.stamp.Some?
            then h in s.windows && s.born[token] == s.windows[h].lifetime && s.windows[h].stamp == Some(token)
            else h in s.tokens && token == s.tokens[h]
  }

  /** Departing a replaced member forgets it; nothing else changes, and otherwise nothing at all. */
  lemma ProbeDeparts(run: seq<Action>, h: Hwnd, read: Read)
    requires AllowedRun(START, run) && Legal(After(START, run), h, read)
    ensures
      var s := After(START, run);
      var s' := Next(s, Probe(h, read));
      OnlyAt(s, s', h) && if h in s.tokens && read.Stamp? && !Owns(s, h) then Forgotten(s', h) else s' == s
  {
    InvAlways(START, run);
  }

  /** After an admission the handle is a member: unchanged when it still counts as the same window, and
      with nothing recorded or remembered of an earlier lifetime when that was replaced. */
  lemma AdmissionAdmits(run: seq<Action>, h: Hwnd, read: Read)
    requires AllowedRun(START, run) && Legal(After(START, run), h, read)
    ensures
      var s := After(START, run);
      var s' := Next(s, Admit(h, read));
      && OnlyAt(s, s', h) && h in s'.members
      && (h in s.members && (h !in s.tokens || Owns(s, h) || !read.Stamp?) ==> s' == s)
      && (h in s.tokens && read.Stamp? && !Owns(s, h) ==> Blank(s', h))
      && (h !in s.members ==> h !in s'.tokens && h !in s'.admitted)
  {
    var s := After(START, run);
    InvAlways(START, run);
    ReplacedExactly(run, h, read);
    TokensAreMembers(s);
    AdmissionParts(s, h, read);
    hide After, AllowedRun, Inv, OnlyAt, Blank, Owns, Replaced, Legal, Next;
  }

  lemma AdmissionParts(s: System, h: Hwnd, read: Read)
    ensures
      var s' := Next(s, Admit(h, read));
      && OnlyAt(s, s', h) && h in s'.members
      && (h in s.members && !Replaced(s, h, read) ==> s' == s)
      && (h in s.members && Replaced(s, h, read) ==> Blank(s', h))
      && (h !in s.members ==> s'.tokens == s.tokens && s'.admitted == s.admitted)
  {
    AdmitOnly(s, h);
    Unchanged(s, h);
    hide OnlyAt, Blank, Replaced, Depart;
  }

  /** Recording a member stamps the window now on the handle with a fresh token, which then is the
      recorded one; the admission time is the given one or none. A refused stamp records nothing, and an
      enumeration spares what is recorded. */
  lemma RecordingOwns(run: seq<Action>, h: Hwnd, at: Option<Millis>, stampOk: bool)
    requires AllowedRun(START, run) && h in After(START, run).members
    ensures
      var s := After(START, run);
      var s' := Next(s, Stamping(h, at, stampOk));
      && s'.members == s.members && s'.hidden == s.hidden && s'.windows.Keys == s.windows.Keys
      && (forall k :: k != h && k in s.windows ==> s'.windows[k] == s.windows[k])
      && s'.tokens - {h} == s.tokens - {h} && s'.admitted - {h} == s.admitted - {h}
      && (h in s.windows ==> s'.windows[h].lifetime == s.windows[h].lifetime)
      && if h != DRAG_PLACEHOLDER_HWND && h in s.windows && stampOk
         then
           && Owns(s', h) && s'.tokens[h] !in s.born && s'.windows[h].stamp == Some(s'.tokens[h])
           && (if at.Some? then h in s'.admitted && s'.admitted[h] == at.value else h !in s'.admitted)
         else s'.tokens == s.tokens && s'.admitted == s.admitted && s'.windows == s.windows && s'.born == s.born
    ensures
      var s := After(START, run);
      Next(s, Enumerate(h, stampOk)) == if h in s.tokens then s else Next(s, Stamping(h, None, stampOk))
  {
    InvAlways(START, run);
    RecordingElsewhere(After(START, run), h, at, stampOk);
    RecordingHere(After(START, run), h, at, stampOk);
    hide Inv, Record, Owns;
  }

  lemma RecordingElsewhere(s: System, h: Hwnd, at: Option<Millis>, stampOk: bool)
    ensures
      var s' := Record(s, h, at, stampOk);
      && s'.members == s.members && s'.hidden == s.hidden && s'.windows.Keys == s.windows.Keys
      && (forall k :: k != h && k in s.windows ==> s'.windows[k] == s.windows[k])
      && s'.tokens - {h} == s.tokens - {h} && s'.admitted - {h} == s.admitted - {h}
      && (h in s.windows ==> s'.windows[h].lifetime == s.windows[h].lifetime)
  {}

  lemma RecordingHere(s: System, h: Hwnd, at: Option<Millis>, stampOk: bool)
    requires Inv(s)
    ensures
      var s' := Record(s, h, at, stampOk);
      if h != DRAG_PLACEHOLDER_HWND && h in s.windows && stampOk
      then
        && Owns(s', h) && s'.tokens[h] !in s.born && s'.windows[h].stamp == Some(s'.tokens[h])
        && (if at.Some? then h in s'.admitted && s'.admitted[h] == at.value else h !in s'.admitted)
      else s'.tokens == s.tokens && s'.admitted == s.admitted && s'.windows == s.windows && s'.born == s.born
  {}

  // -------------------------------------------------------------- suppression

  /** An action of the operating system, or of the daemon on another handle. */
  predicate Bystander(h: Hwnd, a: Action) { a.h != h || a.OsCreate? || a.OsDestroy? }

  /** What is remembered of the hidden window: its token, and its stamp while its lifetime has the
      handle. */
  ghost predicate StillRemembered(s: System, h: Hwnd, token: Token, lifetime: Lifetime) {
    && h in s.hidden && s.hidden[h] == Some(token) && token in s.born && s.born[token] == lifetime
    && lifetime < s.nextLifetime
    && (h in s.windows && s.windows[h].lifetime == lifetime ==> s.windows[h].stamp == Some(token))
  }

  lemma RememberedNext(s: System, h: Hwnd, token: Token, lifetime: Lifetime, a: Action)
    requires Inv(s) && Allowed(s, a) && Bystander(h, a) && StillRemembered(s, h, token, lifetime)
    ensures StillRemembered(Next(s, a), h, token, lifetime)
  {}

  lemma {:induction false} RememberedLater(s: System, h: Hwnd, token: Token, lifetime: Lifetime, run: seq<Action>)
    requires Inv(s) && AllowedRun(s, run) && (forall k :: 0 <= k < |run| ==> Bystander(h, run[k]))
    requires StillRemembered(s, h, token, lifetime)
    ensures StillRemembered(After(s, run), h, token, lifetime) && Inv(After(s, run))
    decreases |run|
  {
    if run != [] {
      hide Inv, StillRemembered;
      RememberedNext(s, h, token, lifetime, run[0]);
      InvNext(s, run[0]);
      RememberedLater(Next(s, run[0]), h, token, lifetime, run[1..]);
    }
  }

  /** A recorded window that was hidden after a brief life is remembered, whatever the operating system
      and the daemon then do to the handle and to others; and a re-created window on the handle is
      taken for it exactly if it is the same lifetime or cannot be read. */
  lemma SuppressionFollowsLifetime(run: seq<Action>, h: Hwnd, read: Read, at: Millis, later: seq<Action>, read': Read)
    requires AllowedRun(START, run)
    requires
      var s := After(START, run);
      && Owns(s, h) && Legal(s, h, read) && !HiddenIsStale(s, h, at)
      && AllowedRun(Next(s, HiddenEvent(h, read, true, at)), later)
    requires forall k :: 0 <= k < |later| ==> Bystander(h, later[k])
    requires Legal(After(Next(After(START, run), HiddenEvent(h, read, true, at)), later), h, read')
    ensures
      var s := After(START, run);
      var t := After(Next(s, HiddenEvent(h, read, true, at)), later);
      && h in t.hidden
      && (RecentlyHiddenNamesCurrent(t.hidden[h], read') <==>
            !read'.Stamp? || t.windows[h].lifetime == s.windows[h].lifetime)
  {
    var s := After(START, run);
    InvAlways(START, run);
    InvNext(s, HiddenEvent(h, read, true, at));
    HiddenIsRemembered(s, h, read, at);
    var hidden := Next(s, HiddenEvent(h, read, true, at));
    RememberedLater(hidden, h, s.tokens[h], s.windows[h].lifetime, later);
    RememberedNamesLifetime(After(hidden, later), h, s.tokens[h], s.windows[h].lifetime, read');
    hide After, AllowedRun, Inv, Next, HiddenIsStale, RecentlyHiddenNamesCurrent, StillRemembered, Legal;
  }

  lemma HiddenIsRemembered(s: System, h: Hwnd, read: Read, at: Millis)
    requires Inv(s) && Owns(s, h) && Legal(s, h, read) && !HiddenIsStale(s, h, at)
    ensures StillRemembered(Next(s, HiddenEvent(h, read, true, at)), h, s.tokens[h], s.windows[h].lifetime)
  {}

  lemma RememberedNamesLifetime(s: System, h: Hwnd, token: Token, lifetime: Lifetime, read: Read)
    requires Inv(s) && StillRemembered(s, h, token, lifetime) && Legal(s, h, read)
    ensures h in s.hidden
    ensures RecentlyHiddenNamesCurrent(s.hidden[h], read) <==> !read.Stamp? || s.windows[h].lifetime == lifetime
  {}

  // ------------------------------------------------------- the daemon's code

  class Daemon {
    // The operating system's side.
    var windows: map<Hwnd, Window>
    var nextLifetime: Lifetime
    var nextToken: Token
    ghost var born: map<Token, Lifetime>
    // The daemon's side.
    var members: set<Hwnd>
    var managedLifetimeTokens: map<Hwnd, Token>
    var managedLifetimeAdmittedAt: map<Hwnd, Millis>
    var recentlyHidden: map<Hwnd, Option<Token>>

    ghost function View(): System reads this {
      System(windows, nextLifetime, nextToken, born, members, managedLifetimeTokens,
             managedLifetimeAdmittedAt, recentlyHidden)
    }

    constructor ()
      ensures View() == START && Inv(View())
    {
      windows, nextLifetime, nextToken, born := map[], 0, 1, map[];
      members, managedLifetimeTokens, managedLifetimeAdmittedAt, recentlyHidden := {}, map[], map[], map[];
    }

    method ReadManagedIdentity(h: Hwnd) returns (read: Read)
      ensures Legal(View(), h, read)
    {
      var transient: bool := *;
      if transient { return TransientFailure; }
      if h !in windows { return GoneHandle; }
      return Stamp(windows[h].stamp);
    }

    method StampManagedIdentity(h: Hwnd) returns (token: Option<Token>)
      modifies `windows, `nextToken, `born
      ensures token.None? && h !in old(windows) ==> View() == old(View())
      ensures token.None? && h in old(windows) ==> View() == old(View()).(nextToken := old(nextToken) + 1)
      ensures token.Some? ==>
                && h in old(windows) && token.value == old(nextToken)
                && View() == old(View()).(
                     nextToken := old(nextToken) + 1,
                     born := old(born)[token.value := old(windows)[h].lifetime],
                     windows := old(windows)[h := old(windows)[h].(stamp := token)])
    {
      if h !in windows { return None; }
      token := Some(nextToken);
      nextToken := nextToken + 1;
      var refused: bool := *;
      if refused { return None; }
      born := born[token.value := windows[h].lifetime];
      windows := windows[h := windows[h].(stamp := token)];
    }

    method RecordManagedLifetime(h: Hwnd, at: Option<Millis>) returns (ghost stampOk: bool)
      modifies this
      ensures View() == Record(old(View()), h, at, stampOk)
    {
      stampOk := false;
      if h == DRAG_PLACEHOLDER_HWND { return; }
      var token := StampManagedIdentity(h);
      if token.Some? {
        stampOk := true;
        managedLifetimeTokens := managedLifetimeTokens[h := token.value];
        match at {
          case Some(time) => managedLifetimeAdmittedAt := managedLifetimeAdmittedAt[h := time];
          case None => managedLifetimeAdmittedAt := managedLifetimeAdmittedAt - {h};
        }
      }
    }

    method RecordManagedLifetimeIfUnrecorded(h: Hwnd) returns (ghost stampOk: bool)
      modifies this
      ensures View() == Next(old(View()), Enumerate(h, stampOk))
    {
      stampOk := false;
      if h in managedLifetimeTokens { return; }
      stampOk := RecordManagedLifetime(h, None);
    }

    method ManagedLifetimeReplaced(h: Hwnd) returns (replaced: bool, ghost read: Read)
      ensures Legal(View(), h, read) && replaced == Replaced(View(), h, read)
    {
      if h !in managedLifetimeTokens { return false, TransientFailure; }
      var r := ReadManagedIdentity(h);
      read := r;
      match r {
        case Stamp(None) => replaced := true;
        case Stamp(Some(token)) => replaced := token != managedLifetimeTokens[h];
        case _ => replaced := false;
      }
    }

    method DestroyedNamesCurrentLifetime(h: Hwnd, ignoreLive: bool) returns (current: bool, ghost read: Read)
      ensures Legal(View(), h, read) && current == DestroyedNamesCurrent(View(), h, read, ignoreLive)
    {
      if h in members && h in managedLifetimeTokens {
        var r := ReadManagedIdentity(h);
        read := r;
        match r {
          case Stamp(Some(token)) => current := token == managedLifetimeTokens[h];
          case TransientFailure => current := true;
          case _ => current := false;
        }
      } else {
        return ignoreLive, TransientFailure;
      }
    }

    method RecentlyHiddenNamesCurrentLifetime(stored: Option<Token>, h: Hwnd) returns (current: bool, ghost read: Read)
      ensures Legal(View(), h, read) && current == RecentlyHiddenNamesCurrent(stored, read)
    {
      var r := ReadManagedIdentity(h);
      read := r;
      match r {
        case Stamp(Some(token)) => current := stored.None? || token == stored.value;
        case Stamp(None) => current := stored.None?;
        case _ => current := true;
      }
    }

    method TakeManagedLifetimeToken(h: Hwnd) returns (token: Option<Token>)
      modifies `managedLifetimeTokens, `managedLifetimeAdmittedAt
      ensures managedLifetimeTokens == old(managedLifetimeTokens) - {h}
      ensures managedLifetimeAdmittedAt == old(managedLifetimeAdmittedAt) - {h}
      ensures token == if h in old(managedLifetimeTokens) then Some(old(managedLifetimeTokens)[h]) else None
    {
      token := if h in managedLifetimeTokens then Some(managedLifetimeTokens[h]) else None;
      managedLifetimeTokens := managedLifetimeTokens - {h};
      managedLifetimeAdmittedAt := managedLifetimeAdmittedAt - {h};
    }

    method DepartReplacedManagedLifetime(h: Hwnd) returns (departed: bool, ghost read: Read)
      modifies this
      ensures Legal(old(View()), h, read)
      ensures (View(), departed) == DepartReplaced(old(View()), h, read)
    {
      if h !in members { return false, TransientFailure; }
      var replaced;
      replaced, read := ManagedLifetimeReplaced(h);
      if !replaced { return false, read; }
      var _ := TakeManagedLifetimeToken(h);
      members := members - {h};
      recentlyHidden := recentlyHidden - {h};
      departed := true;
    }

    method DuplicateManagedAdmission(h: Hwnd) returns (duplicate: bool, ghost read: Read)
      modifies this
      ensures Legal(old(View()), h, read)
      ensures (View(), duplicate) == DuplicateAdmission(old(View()), h, read)
    {
      var departed;
      departed, read := DepartReplacedManagedLifetime(h);
      duplicate := !departed && h in members;
    }

    /** The Destroyed event: departs unless it names a lifetime that is still there. */
    method OnWindowDestroyed(h: Hwnd, ignoreLive: bool) returns (ghost read: Read)
      modifies this
      ensures Legal(old(View()), h, read)
      ensures View() == Next(old(View()), DestroyedEvent(h, read, ignoreLive))
    {
      var current;
      current, read := DestroyedNamesCurrentLifetime(h, ignoreLive);
      if current { return; }
      var _ := TakeManagedLifetimeToken(h);
      members := members - {h};
      recentlyHidden := recentlyHidden - {h};
    }

    method AdmittedEventTimeIfCurrentMember(h: Hwnd) returns (at: Option<Millis>)
      ensures at == if h in members && h in managedLifetimeAdmittedAt then Some(managedLifetimeAdmittedAt[h]) else None
    {
      at := if h in members && h in managedLifetimeAdmittedAt then Some(managedLifetimeAdmittedAt[h]) else None;
    }

    /** The Hidden event: departs unless it is from before the member's admission. A window that was
        shown only briefly is remembered by its token. */
    method OnWindowHidden(h: Hwnd, at: Millis, brief: bool) returns (ghost read: Read)
      modifies this
      ensures Legal(old(View()), h, read)
      ensures View() == Next(old(View()), HiddenEvent(h, read, brief, at))
    {
      var r := ReadManagedIdentity(h);
      read := r;
      var admittedAt := AdmittedEventTimeIfCurrentMember(h);
      if admittedAt.Some? && !NoLaterThan(admittedAt.value, at) {
        return;
      }
      var recorded := TakeManagedLifetimeToken(h);
      members := members - {h};
      if brief {
        recentlyHidden := recentlyHidden[h := if r.Stamp? && r.stamp.Some? then r.stamp else recorded];
      }
    }
  }
}
