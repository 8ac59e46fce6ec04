/** Adding up a measure over a sequence. */
module Tally {

  ghost function Total<T>(s: seq<T>, f: T -> nat): nat {
    if s == [] then 0 else Total(s[..|s| - 1], f) + f(s[|s| - 1])
  }

  lemma {:induction false} TotalConcat<T>(a: seq<T>, b: seq<T>, f: T -> nat)
    ensures Total(a + b, f) == Total(a, f) + Total(b, f)
  {
    if b == [] {
      assert a + b == a;
    } else {
      TotalConcat(a, b[..|b| - 1], f);
      assert (a + b)[..|a + b| - 1] == a + b[..|b| - 1];
    }
  }

  lemma TotalAround<T>(a: seq<T>, x: T, b: seq<T>, f: T -> nat)
    ensures Total(a + [x] + b, f) == Total(a + b, f) + f(x)
  {
    TotalConcat(a + [x], b, f);
    TotalConcat(a, [x], f);
    TotalConcat(a, b, f);
    assert [x][..0] == [];
  }

  lemma Joined<T>(s: seq<T>, i: nat)
    requires i <= |s|
    ensures s[..i] + s[i..] == s
    ensures i < |s| ==> s[..i] + [s[i]] + s[i + 1..] == s
  {}

  lemma TotalInsert<T>(s: seq<T>, i: nat, x: T, f: T -> nat)
    requires i <= |s|
    ensures Total(s[..i] + [x] + s[i..], f) == Total(s, f) + f(x)
  {
    Joined(s, i);
    TotalAround(s[..i], x, s[i..], f);
  }

  lemma TotalRemove<T>(s: seq<T>, i: nat, f: T -> nat)
    requires i < |s|
    ensures Total(s, f) == Total(s[..i] + s[i + 1..], f) + f(s[i])
  {
    Joined(s, i);
    TotalAround(s[..i], s[i], s[i + 1..], f);
  }

  lemma TotalUpdate<T>(s: seq<T>, i: nat, x: T, f: T -> nat)
    requires i < |s|
    ensures Total(s[i := x], f) + f(s[i]) == Total(s, f) + f(x)
  {
    TotalRemove(s, i, f);
    TotalRemove(s[i := x], i, f);
    assert s[i := x][..i] == s[..i] && s[i := x][i + 1..] == s[i + 1..];
  }

  /** Padding with items that measure nothing. */
  lemma {:induction false} TotalZero<T>(s: seq<T>, f: T -> nat)
    requires forall i :: 0 <= i < |s| ==> f(s[i]) == 0
    ensures Total(s, f) == 0
  {
    if s != [] { TotalZero(s[..|s| - 1], f); }
  }
}
