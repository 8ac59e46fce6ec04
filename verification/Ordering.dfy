/** Lexicographic orders and sorting by them. */
module Ordering {

  ghost predicate StrictTotal<T(!new)>(less: (T, T) -> bool) {
    && (forall x :: !less(x, x))
    && (forall x, y :: less(x, y) || less(y, x) || x == y)
    && (forall x, y, z :: less(x, y) && less(y, z) ==> less(x, z))
  }

  /** Lexicographic comparison; a proper prefix comes first. */
  predicate Lex<T(==)>(a: seq<T>, b: seq<T>, less: (T, T) -> bool) {
    if b == [] then false
    else if a == [] then true
    else if a[0] == b[0] then Lex(a[1..], b[1..], less)
    else less(a[0], b[0])
  }

  lemma {:induction false} LexTrichotomy<T(!new)>(a: seq<T>, b: seq<T>, less: (T, T) -> bool)
    requires StrictTotal(less)
    ensures !Lex(a, a, less)
    ensures Lex(a, b, less) || Lex(b, a, less) || a == b
  {
    if a != [] {
      if b != [] && a[0] == b[0] {
        LexTrichotomy(a[1..], b[1..], less);
        assert a == [a[0]] + a[1..] && b == [b[0]] + b[1..];
      } else {
        LexTrichotomy(a[1..], a[1..], less);
      }
    }
  }

  lemma {:induction false} LexTransitive<T(!new)>(a: seq<T>, b: seq<T>, c: seq<T>, less: (T, T) -> bool)
    requires StrictTotal(less) && Lex(a, b, less) && Lex(b, c, less)
    ensures Lex(a, c, less)
  {
    if a != [] && a[0] == b[0] && b[0] == c[0] { LexTransitive(a[1..], b[1..], c[1..], less); }
  }

  /** `a` and `b` first differ at `k`. */
  predicate DifferAt<T(==)>(a: seq<T>, b: seq<T>, k: nat) { k < |a| && k < |b| && a[..k] == b[..k] && a[k] != b[k] }

  /** The first difference decides, and without one the shorter comes first. */
  lemma {:induction false} LexMeans<T>(a: seq<T>, b: seq<T>, less: (T, T) -> bool)
    ensures Lex(a, b, less) <==> a < b || exists k: nat :: DifferAt(a, b, k) && less(a[k], b[k])
  {
    if a != [] && b != [] {
      if a[0] == b[0] {
        LexMeans(a[1..], b[1..], less);
        assert a == [a[0]] + a[1..] && b == [b[0]] + b[1..];
        forall k: nat ensures DifferAt(a[1..], b[1..], k) <==> DifferAt(a, b, k + 1) { DifferLater(a, b, k); }
        forall k: nat | DifferAt(a, b, k) ensures k > 0 && DifferAt(a[1..], b[1..], k - 1) { DifferLater(a, b, k - 1); }
        if Lex(a, b, less) && !(a[1..] < b[1..]) {
          var k: nat :| DifferAt(a[1..], b[1..], k) && less(a[1..][k], b[1..][k]);
          assert DifferAt(a, b, k + 1) && less(a[k + 1], b[k + 1]);
        }
      } else {
        assert DifferAt(a, b, 0);
        assert forall k: nat :: DifferAt(a, b, k) && k > 0 ==> a[..k][0] == b[..k][0];
      }
    }
  }

  lemma DifferLater<T>(a: seq<T>, b: seq<T>, k: int)
    requires a != [] && b != [] && a[0] == b[0] && k >= -1
    ensures k >= 0 ==> (DifferAt(a[1..], b[1..], k) <==> DifferAt(a, b, k + 1))
    ensures !DifferAt(a, b, 0)
  {
    if 0 <= k < |a| - 1 && k < |b| - 1 {
      assert a[..k + 1] == [a[0]] + a[1..][..k] && b[..k + 1] == [b[0]] + b[1..][..k];
      assert a[..k + 1][1..] == a[1..][..k] && b[..k + 1][1..] == b[1..][..k];
    }
  }

  predicate CharLess(a: char, b: char) { a < b }

  predicate StringLess(a: string, b: string) { Lex(a, b, CharLess) }

  /** Strings compare by the first character in which they differ, a proper prefix being less. */
  lemma StringLessMeans(a: string, b: string)
    ensures StringLess(a, b) <==> a < b || exists k: nat :: DifferAt(a, b, k) && a[k] < b[k]
  {
    LexMeans(a, b, CharLess);
  }

  /** Records compared field by field. */
  predicate FieldsLess(a: seq<string>, b: seq<string>) { Lex(a, b, StringLess) }

  lemma StringsOrdered()
    ensures StrictTotal(StringLess)
  {
    assert StrictTotal(CharLess);
    forall a, b, c: string
      ensures !StringLess(a, a) && (StringLess(a, b) || StringLess(b, a) || a == b)
      ensures StringLess(a, b) && StringLess(b, c) ==> StringLess(a, c)
    {
      LexTrichotomy(a, a, CharLess);
      LexTrichotomy(a, b, CharLess);
      if StringLess(a, b) && StringLess(b, c) { LexTransitive(a, b, c, CharLess); }
    }
  }

  lemma FieldsOrdered()
    ensures StrictTotal(FieldsLess)
  {
    StringsOrdered();
    forall a, b, c: seq<string>
      ensures !FieldsLess(a, a) && (FieldsLess(a, b) || FieldsLess(b, a) || a == b)
      ensures FieldsLess(a, b) && FieldsLess(b, c) ==> FieldsLess(a, c)
    {
      LexTrichotomy(a, a, StringLess);
      LexTrichotomy(a, b, StringLess);
      if FieldsLess(a, b) && FieldsLess(b, c) { LexTransitive(a, b, c, StringLess); }
    }
  }

  // ------------------------------------------------------------------- sorting

  function Insert<T>(s: seq<T>, x: T, fields: T -> seq<string>): seq<T> {
    if s == [] || !FieldsLess(fields(s[0]), fields(x)) then [x] + s
    else [s[0]] + Insert(s[1..], x, fields)
  }

  function Sort<T>(s: seq<T>, fields: T -> seq<string>): seq<T> {
    if s == [] then [] else Insert(Sort(s[1..], fields), s[0], fields)
  }

  ghost predicate Ascending<T>(s: seq<T>, fields: T -> seq<string>) {
    forall i, j :: 0 <= i < j < |s| ==> FieldsLess(fields(s[i]), fields(s[j]))
  }

  ghost predicate Apart<T>(s: seq<T>, fields: T -> seq<string>) {
    forall i, j :: 0 <= i < j < |s| ==> fields(s[i]) != fields(s[j])
  }

  lemma {:induction false} InsertAscends<T(!new)>(s: seq<T>, x: T, fields: T -> seq<string>)
    requires Ascending(s, fields) && forall y :: y in s ==> fields(y) != fields(x)
    ensures Ascending(Insert(s, x, fields), fields)
    ensures forall y :: y in Insert(s, x, fields) <==> y == x || y in s
  {
    FieldsOrdered();
    if s != [] {
      assert s == [s[0]] + s[1..];
      if FieldsLess(fields(s[0]), fields(x)) {
        InsertAscends(s[1..], x, fields);
        var rest := Insert(s[1..], x, fields);
        forall y | y in rest ensures FieldsLess(fields(s[0]), fields(y)) {
          if y != x {
            var j :| 0 <= j < |s[1..]| && s[1..][j] == y;
            assert s[j + 1] == y;
          }
        }
        AscendingCons(s[0], rest, fields);
      } else {
        assert FieldsLess(fields(x), fields(s[0]));
        AscendingCons(x, s, fields);
      }
    }
  }

  lemma AscendingCons<T(!new)>(x: T, s: seq<T>, fields: T -> seq<string>)
    requires Ascending(s, fields) && forall y :: y in s ==> FieldsLess(fields(x), fields(y))
    ensures Ascending([x] + s, fields)
  {}

  /** Items that differ in their fields come out strictly ascending, none lost and none added. */
  lemma {:induction false} SortAscends<T(!new)>(s: seq<T>, fields: T -> seq<string>)
    requires Apart(s, fields)
    ensures Ascending(Sort(s, fields), fields)
    ensures forall x :: x in Sort(s, fields) <==> x in s
  {
    if s != [] {
      assert s == [s[0]] + s[1..];
      SortAscends(s[1..], fields);
      var rest := Sort(s[1..], fields);
      forall y | y in rest ensures fields(y) != fields(s[0]) {
        var j :| 0 <= j < |s[1..]| && s[1..][j] == y;
        assert s[j + 1] == y;
      }
      InsertAscends(rest, s[0], fields);
    }
  }

  /** A strictly ascending sequence is determined by what it holds. */
  lemma {:induction false} AscendingUnique<T(!new)>(a: seq<T>, b: seq<T>, fields: T -> seq<string>)
    requires Ascending(a, fields) && Ascending(b, fields)
    requires forall x :: x in a <==> x in b
    ensures a == b
  {
    FieldsOrdered();
    if a == [] {
      if b != [] { HoldsSome(b); }
    } else {
      assert a[0] in b && b[0] in a;
      assert a[0] == b[0];
      forall x ensures x in a[1..] <==> x in b[1..] {
        TailHolds(a, x, fields);
        TailHolds(b, x, fields);
      }
      AscendingUnique(a[1..], b[1..], fields);
      assert a == [a[0]] + a[1..] && b == [b[0]] + b[1..];
    }
  }

  lemma HoldsSome<T(!new)>(s: seq<T>)
    requires s != []
    ensures exists x :: x in s
  {
    assert s[0] in s;
  }

  lemma TailHolds<T(!new)>(s: seq<T>, x: T, fields: T -> seq<string>)
    requires s != [] && Ascending(s, fields)
    ensures x in s[1..] <==> x in s && x != s[0]
  {
    FieldsOrdered();
  }
}
