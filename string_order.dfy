/**
 * Python's ordering of `str` values, which `sorted` uses: lexicographic by
 * code point, a proper prefix coming before any extension of it.
 */
module StringOrder {

  /** `a` sorts strictly before `b`. */
  predicate Below(a: string, b: string)
    decreases |a|
  {
    |b| > 0 && (|a| == 0 || a[0] < b[0] || (a[0] == b[0] && Below(a[1..], b[1..])))
  }

  /** Every pair of positions is in strictly ascending order (hence no duplicates). */
  predicate StrictlyAscending(xs: seq<string>)
  {
    forall i, j :: 0 <= i < j < |xs| ==> Below(xs[i], xs[j])
  }

  lemma {:induction false} BelowIrreflexive(a: string)
    ensures !Below(a, a)
  {
    if |a| > 0 {
      BelowIrreflexive(a[1..]);
    }
  }

  lemma {:induction false} BelowTransitive(a: string, b: string, c: string)
    requires Below(a, b) && Below(b, c)
    ensures Below(a, c)
  {
    if |a| > 0 && a[0] == b[0] && b[0] == c[0] {
      BelowTransitive(a[1..], b[1..], c[1..]);
    }
  }

  lemma {:induction false} BelowAsymmetric(a: string, b: string)
    requires Below(a, b)
    ensures !Below(b, a)
  {
    if |a| > 0 && a[0] == b[0] {
      BelowAsymmetric(a[1..], b[1..]);
    }
  }

  /** Any two different strings are ordered one way or the other. */
  lemma {:induction false} BelowTotal(a: string, b: string)
    requires a != b
    ensures Below(a, b) || Below(b, a)
  {
    if |a| > 0 && |b| > 0 && a[0] == b[0] {
      assert a == [a[0]] + a[1..] && b == [b[0]] + b[1..];
      BelowTotal(a[1..], b[1..]);
    }
  }

  /** Strictly ascending sequences are determined by their elements: there is one sorted listing of a set. */
  lemma {:induction false} AscendingUnique(xs: seq<string>, ys: seq<string>)
    requires StrictlyAscending(xs) && StrictlyAscending(ys)
    requires forall s :: s in xs <==> s in ys
    ensures xs == ys
  {
    if xs != [] && ys != [] {
      assert xs[0] in ys && ys[0] in xs;
      var j :| 0 <= j < |ys| && ys[j] == xs[0];
      var i :| 0 <= i < |xs| && xs[i] == ys[0];
      if j > 0 {
        assert Below(ys[0], ys[j]);
        if i > 0 {
          assert Below(xs[0], xs[i]);
          BelowAsymmetric(xs[0], xs[i]);
          assert false;
        } else {
          BelowIrreflexive(ys[0]);
          assert false;
        }
      }
      assert xs == [xs[0]] + xs[1..] && ys == [ys[0]] + ys[1..];
      forall s
        ensures s in xs[1..] <==> s in ys[1..]
      {
        if s in xs[1..] {
          var k :| 0 <= k < |xs| - 1 && xs[1..][k] == s;
          assert Below(xs[0], xs[k + 1]);
          BelowIrreflexive(s);
          assert s in ys && s != ys[0];
        }
        if s in ys[1..] {
          var k :| 0 <= k < |ys| - 1 && ys[1..][k] == s;
          assert Below(ys[0], ys[k + 1]);
          BelowIrreflexive(s);
          assert s in xs && s != xs[0];
        }
      }
      AscendingUnique(xs[1..], ys[1..]);
    } else {
      SameElementsEmpty(xs, ys);
    }
  }

  lemma SameElementsEmpty(xs: seq<string>, ys: seq<string>)
    requires forall s :: s in xs <==> s in ys
    ensures xs == [] <==> ys == []
  {
    if xs != [] { assert xs[0] in ys; }
    if ys != [] { assert ys[0] in xs; }
  }

  /** Inserts `x` into its place in a strictly ascending sequence, unless it is already there. */
  function Insert(xs: seq<string>, x: string): (r: seq<string>)
    requires StrictlyAscending(xs)
    ensures StrictlyAscending(r)
    ensures forall s :: s in r <==> s in xs || s == x
  {
    if xs == [] then [x]
    else if x == xs[0] then xs
    else if Below(x, xs[0]) then
      InsertFront(xs, x)
    else
      BelowTotal(x, xs[0]);
      var rest := Insert(xs[1..], x);
      AscendingCons(xs[0], rest);
      [xs[0]] + rest
  }

  /** `x` before the first element keeps the sequence ascending. */
  function InsertFront(xs: seq<string>, x: string): (r: seq<string>)
    requires StrictlyAscending(xs) && xs != [] && Below(x, xs[0])
    ensures r == [x] + xs && StrictlyAscending(r)
  {
    forall j | 0 <= j < |xs|
      ensures Below(x, xs[j])
    {
      if j > 0 { BelowTransitive(x, xs[0], xs[j]); }
    }
    [x] + xs
  }

  /** A value below every element of an ascending list may be put in front of it. */
  lemma AscendingCons(x: string, rest: seq<string>)
    requires StrictlyAscending(rest)
    requires forall s :: s in rest ==> Below(x, s)
    ensures StrictlyAscending([x] + rest)
  {
  }
}
