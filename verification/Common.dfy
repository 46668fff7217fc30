/** Failure and optional values shared by every module: Go's (value, error) and (value, ok) pairs. */
module Common {
  datatype Option<+T> = None | Some(value: T)

  datatype Result<+T, +E> = Ok(value: T) | Err(error: E)

  /** How a write to a remote ends: as asked, refused without effect, or done with the answer lost. */
  datatype Ending = Fine | Rejected | Lost

  /** The elements of a list as a set. */
  function Elems<T>(xs: seq<T>): set<T> {
    set x | x in xs
  }

  lemma ElemsConcat<T>(a: seq<T>, b: seq<T>)
    ensures Elems(a + b) == Elems(a) + Elems(b)
  {
    forall x | x in Elems(a) + Elems(b) ensures x in a + b {
      if x in a {
        var i :| 0 <= i < |a| && a[i] == x;
        assert (a + b)[i] == x;
      } else {
        var i :| 0 <= i < |b| && b[i] == x;
        assert (a + b)[|a| + i] == x;
      }
    }
  }

  lemma ConsConcat<T>(a: seq<T>, b: seq<T>)
    requires a != []
    ensures a + b != [] && (a + b)[0] == a[0] && (a + b)[1..] == a[1..] + b
  {}

  /** No element occurs twice. */
  ghost predicate Distinct<T>(xs: seq<T>) {
    forall i, j | 0 <= i < j < |xs| :: xs[i] != xs[j]
  }

  /** A reordering of a duplicate-free list is duplicate-free. */
  lemma DistinctByCount<T>(a: seq<T>, b: seq<T>)
    requires multiset(a) == multiset(b) && Distinct(a)
    ensures Distinct(b)
  {
    forall i, j | 0 <= i < j < |b| ensures b[i] != b[j] {
      if b[i] == b[j] {
        assert b == b[..i] + [b[i]] + b[i + 1..j] + [b[j]] + b[j + 1..];
        assert multiset(b)[b[i]] >= 2;
        CountAtMostOnce(a, b[i]);
      }
    }
  }

  lemma {:induction false} CountAtMostOnce<T>(a: seq<T>, x: T)
    requires Distinct(a)
    ensures multiset(a)[x] <= 1
  {
    if a != [] {
      CountAtMostOnce(a[1..], x);
      assert a == [a[0]] + a[1..];
      if a[0] == x { assert x !in multiset(a[1..]); }
    }
  }

  lemma DistinctAppend<T>(xs: seq<T>, x: T)
    ensures Distinct(xs + [x]) <==> Distinct(xs) && x !in xs
    ensures Elems(xs + [x]) == Elems(xs) + {x}
  {
    ElemsConcat(xs, [x]);
    if Distinct(xs + [x]) {
      forall i, j | 0 <= i < j < |xs| ensures xs[i] != xs[j] { assert (xs + [x])[i] != (xs + [x])[j]; }
      forall i | 0 <= i < |xs| ensures xs[i] != x { assert (xs + [x])[i] != (xs + [x])[|xs|]; }
    }
  }

  lemma SubsetSize<T>(a: set<T>, b: set<T>)
    requires a <= b
    ensures |a| <= |b|
  {
    assert b == a + (b - a);
  }
}
