/** Python's `sorted()` on a collection of distinct strings. Python orders
    `str` values lexicographically by code point; `Below` is that order. */
module Sorting {

  /** `a < b` for Python strings. */
  predicate Below(a: string, b: string)
  {
    if a == [] then b != []
    else if b == [] then false
    else if a[0] != b[0] then a[0] < b[0]
    else Below(a[1..], b[1..])
  }

  /** Strictly ascending, hence also free of duplicates. */
  predicate Ascending(s: seq<string>)
  {
    forall i, j :: 0 <= i < j < |s| ==> Below(s[i], s[j])
  }

  /** Inserts `x` at its place in an ascending sequence that does not hold it. */
  function Insert(s: seq<string>, x: string): (r: seq<string>)
    requires Ascending(s) && x !in s
    ensures Ascending(r)
    ensures forall y :: y in r <==> y in s || y == x
  {
    if s == [] then [x]
    else if Below(x, s[0]) then
      BelowAscending(s, x);
      [x] + s
    else
      BelowTotal(x, s[0]);
      var rest := Insert(s[1..], x);
      assert forall j :: 0 <= j < |rest| ==> Below(s[0], rest[j]) by {
        forall j | 0 <= j < |rest|
          ensures Below(s[0], rest[j])
        {
          assert rest[j] in s[1..] || rest[j] == x;
        }
      }
      [s[0]] + rest
  }

  /** `sorted(words)`: the words in ascending order. */
  method SortedWords(words: set<string>) returns (r: seq<string>)
    ensures Ascending(r)
    ensures forall w :: w in r <==> w in words
  {
    r := [];
    var rest := words;
    while rest != {}
      invariant Ascending(r)
      invariant forall w :: w in r || w in rest <==> w in words
      invariant forall w :: w in r ==> w !in rest
      decreases rest
    {
      var w :| w in rest;
      r := Insert(r, w);
      rest := rest - {w};
    }
  }

  // ---------------------------------------------------------------------
  // Lemmas

  lemma {:induction false} BelowIrreflexive(a: string)
    ensures !Below(a, a)
  {
    if a != [] {
      BelowIrreflexive(a[1..]);
    }
  }

  lemma {:induction false} BelowTransitive(a: string, b: string, c: string)
    requires Below(a, b) && Below(b, c)
    ensures Below(a, c)
  {
    if a != [] && b != [] && c != [] && a[0] == b[0] && b[0] == c[0] {
      BelowTransitive(a[1..], b[1..], c[1..]);
    }
  }

  lemma {:induction false} BelowTotal(a: string, b: string)
    ensures a == b || Below(a, b) || Below(b, a)
  {
    if a != [] && b != [] && a[0] == b[0] {
      BelowTotal(a[1..], b[1..]);
      if a[1..] == b[1..] {
        assert a == [a[0]] + a[1..] && b == [b[0]] + b[1..];
      }
    }
  }

  lemma BelowAscending(s: seq<string>, x: string)
    requires Ascending(s) && s != [] && Below(x, s[0])
    ensures Ascending([x] + s)
  {
    forall j | 0 < j < |s|
      ensures Below(x, s[j])
    {
      BelowTransitive(x, s[0], s[j]);
    }
  }

  /** There is only one ascending arrangement of a set of strings, so the
      order `sorted()` returns is determined by the words alone. */
  lemma {:induction false} AscendingUnique(a: seq<string>, b: seq<string>)
    requires Ascending(a) && Ascending(b)
    requires forall w :: w in a <==> w in b
    ensures a == b
  {
    if a != [] && b != [] {
      if a[0] != b[0] {
        assert b[0] in a && a[0] in b;
        var i :| 0 <= i < |a| && a[i] == b[0];
        var j :| 0 <= j < |b| && b[j] == a[0];
        BelowTransitive(a[0], b[0], a[0]);
        BelowIrreflexive(a[0]);
      }
      forall w
        ensures w in a[1..] <==> w in b[1..]
      {
        if w in a[1..] {
          var i :| 1 <= i < |a| && a[i] == w;
          assert Below(a[0], w);
          BelowIrreflexive(w);
          assert w in b && w != b[0];
          var j :| 0 <= j < |b| && b[j] == w;
          assert b[1..][j - 1] == w;
        }
        if w in b[1..] {
          var j :| 1 <= j < |b| && b[j] == w;
          assert Below(b[0], w);
          BelowIrreflexive(w);
          assert w in a && w != a[0];
          var i :| 0 <= i < |a| && a[i] == w;
          assert a[1..][i - 1] == w;
        }
      }
      AscendingUnique(a[1..], b[1..]);
    } else {
      SameElementsEmpty(a, b);
    }
  }

  lemma SameElementsEmpty(a: seq<string>, b: seq<string>)
    requires forall w :: w in a <==> w in b
    ensures a == [] <==> b == []
  {
    if a != [] {
      assert a[0] in b;
    }
    if b != [] {
      assert b[0] in a;
    }
  }
}
