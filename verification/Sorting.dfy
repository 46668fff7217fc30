/** The library sort (slices.Sorted, slices.Compact) and the facts that make a sorted,
    deduplicated list a canonical name for a set. */
module Sorting {
  import opened Common
  import opened Text

  ghost predicate StrictlySorted(xs: seq<string>) {
    forall i, j | 0 <= i < j < |xs| :: LexLt(xs[i], xs[j])
  }

  ghost predicate Sorted(xs: seq<string>) {
    forall i, j | 0 <= i < j < |xs| :: LexLe(xs[i], xs[j])
  }

  /** slices.Sorted */
  function Sort(xs: seq<string>): (r: seq<string>)
    ensures multiset(r) == multiset(xs)
  {
    if xs == [] then []
    else assert xs == [xs[0]] + xs[1..]; Insert(xs[0], Sort(xs[1..]))
  }

  function Insert(x: string, xs: seq<string>): (r: seq<string>)
    ensures multiset(r) == multiset([x] + xs)
  {
    if xs == [] || LexLe(x, xs[0]) then [x] + xs
    else assert xs == [xs[0]] + xs[1..]; [xs[0]] + Insert(x, xs[1..])
  }

  lemma {:induction false} InsertElems(x: string, xs: seq<string>)
    ensures Elems(Insert(x, xs)) == {x} + Elems(xs)
  {
    if xs == [] || LexLe(x, xs[0]) {
      ElemsConcat([x], xs);
    } else {
      InsertElems(x, xs[1..]);
      ElemsConcat([xs[0]], Insert(x, xs[1..]));
      ElemsConcat([xs[0]], xs[1..]);
      assert xs == [xs[0]] + xs[1..];
    }
  }

  lemma {:induction false} InsertSorted(x: string, xs: seq<string>)
    requires Sorted(xs)
    ensures Sorted(Insert(x, xs))
  {
    if xs == [] {
    } else if LexLe(x, xs[0]) {
      forall k | 0 <= k < |xs| ensures LexLe(x, xs[k]) {
        if k > 0 { LexTransitive(x, xs[0], xs[k]); }
      }
    } else {
      LexTotal(x, xs[0]);
      InsertSorted(x, xs[1..]);
      InsertElems(x, xs[1..]);
      var r := Insert(x, xs[1..]);
      forall k | 0 <= k < |r| ensures LexLe(xs[0], r[k]) {
        assert r[k] in Elems(r);
        if r[k] != x {
          var m :| 0 <= m < |xs[1..]| && xs[1..][m] == r[k];
          assert r[k] == xs[m + 1];
        }
      }
    }
  }

  lemma {:induction false} SortElems(xs: seq<string>)
    ensures Elems(Sort(xs)) == Elems(xs)
    ensures Sorted(Sort(xs))
  {
    if xs != [] {
      SortElems(xs[1..]);
      InsertElems(xs[0], Sort(xs[1..]));
      InsertSorted(xs[0], Sort(xs[1..]));
      assert xs == [xs[0]] + xs[1..];
    }
  }

  /** slices.Compact: runs of equal neighbours collapse to one. */
  function Compact(xs: seq<string>): (r: seq<string>) {
    if |xs| <= 1 then xs
    else if xs[0] == xs[1] then Compact(xs[1..])
    else [xs[0]] + Compact(xs[1..])
  }

  lemma {:induction false} CompactSorted(xs: seq<string>)
    requires Sorted(xs)
    ensures StrictlySorted(Compact(xs)) && Elems(Compact(xs)) == Elems(xs)
    ensures xs != [] ==> Compact(xs) != [] && Compact(xs)[0] == xs[0]
  {
    if |xs| > 1 {
      CompactSorted(xs[1..]);
      assert xs == [xs[0]] + xs[1..];
      ElemsConcat([xs[0]], xs[1..]);
      if xs[0] == xs[1] {
        assert xs[1..][0] in Elems(xs[1..]);
      } else {
        var r := Compact(xs[1..]);
        ElemsConcat([xs[0]], r);
        forall k | 0 <= k < |r| ensures LexLt(xs[0], r[k]) {
          assert r[k] == xs[1] || LexLt(r[0], r[k]);
          LexTotal(xs[1], xs[1]);
          assert LexLe(xs[0], xs[1]);
          LexTransitive(xs[0], xs[1], r[k]);
          if xs[0] == r[k] { LexAntisymmetric(xs[0], xs[1]); }
        }
      }
    }
  }

  /** slices.Compact(slices.Sorted(slices.Values(xs))) */
  function SortCompact(xs: seq<string>): seq<string> {
    Compact(Sort(xs))
  }

  lemma SortCompactCanonical(xs: seq<string>)
    ensures StrictlySorted(SortCompact(xs)) && Elems(SortCompact(xs)) == Elems(xs)
  {
    SortElems(xs);
    CompactSorted(Sort(xs));
  }

  /** A set of strings has one strictly sorted listing. */
  lemma {:induction false} StrictlySortedUnique(a: seq<string>, b: seq<string>)
    requires StrictlySorted(a) && StrictlySorted(b) && Elems(a) == Elems(b)
    ensures a == b
  {
    ElemsEmpty(a, b);
    if a != [] {
      HeadIsLeast(a, b);
      HeadIsLeast(b, a);
      LexAntisymmetric(a[0], b[0]);
      TailElems(a);
      TailElems(b);
      StrictlySortedUnique(a[1..], b[1..]);
      assert a == [a[0]] + a[1..] && b == [b[0]] + b[1..];
    }
  }

  lemma ElemsEmpty(a: seq<string>, b: seq<string>)
    requires Elems(a) == Elems(b)
    ensures a == [] <==> b == []
  {
    assert a == [] || a[0] in Elems(b);
    assert b == [] || b[0] in Elems(a);
  }

  lemma HeadIsLeast(a: seq<string>, b: seq<string>)
    requires StrictlySorted(a) && a != [] && b != [] && Elems(a) == Elems(b)
    ensures LexLe(a[0], b[0])
  {
    assert b[0] in Elems(b);
    var k :| 0 <= k < |a| && a[k] == b[0];
    LexTotal(a[0], a[0]);
  }

  lemma TailElems(a: seq<string>)
    requires StrictlySorted(a) && a != []
    ensures Elems(a[1..]) == Elems(a) - {a[0]}
  {
    assert a == [a[0]] + a[1..];
  }

  /** The sorted listing of a set, slices.Sorted(maps.Keys(m)). */
  ghost function SortedSet(s: set<string>): (r: seq<string>)
    ensures StrictlySorted(r) && Elems(r) == s
  {
    if s == {} then []
    else
      var x :| x in s;
      var rest := SortedSet(s - {x});
      InsertFresh(x, rest);
      Insert(x, rest)
  }

  lemma InsertFresh(x: string, xs: seq<string>)
    requires StrictlySorted(xs) && x !in Elems(xs)
    ensures StrictlySorted(Insert(x, xs)) && Elems(Insert(x, xs)) == {x} + Elems(xs)
  {
    InsertElems(x, xs);
    InsertSorted(x, xs);
    InsertDistinct(x, xs);
  }

  lemma {:induction false} InsertDistinct(x: string, xs: seq<string>)
    requires Distinct(xs) && x !in xs
    ensures Distinct(Insert(x, xs))
  {
    if xs != [] && !LexLe(x, xs[0]) {
      InsertDistinct(x, xs[1..]);
      InsertElems(x, xs[1..]);
      var r := Insert(x, xs[1..]);
      forall k | 0 <= k < |r| ensures r[k] != xs[0] {
        assert r[k] in Elems(r);
      }
    }
  }

  lemma KeyAppended(keys: seq<string>, k: string)
    requires Distinct(keys) && k !in Elems(keys)
    ensures Distinct(keys + [k]) && Elems(keys + [k]) == Elems(keys) + {k}
  {
    ElemsConcat(keys, [k]);
  }

  /** Sorting a duplicate-free list gives the canonical listing of its set. */
  lemma SortedOnce(keys: seq<string>)
    requires Distinct(keys)
    ensures Sort(keys) == SortedSet(Elems(keys))
  {
    SortElems(keys);
    var r := Sort(keys);
    assert Distinct(r) by { DistinctByCount(keys, r); }
    StrictlySortedUnique(r, SortedSet(Elems(keys)));
  }

  /** The elements of a set, each once, in the arbitrary order a map walk yields them. */
  method Listing(s: set<string>) returns (xs: seq<string>)
    ensures Distinct(xs) && Elems(xs) == s
  {
    xs := [];
    var todo := s;
    while todo != {}
      invariant todo <= s && Elems(xs) == s - todo && Distinct(xs)
      decreases todo
    {
      var x :| x in todo;
      KeyAppended(xs, x);
      xs, todo := xs + [x], todo - {x};
    }
  }
}
