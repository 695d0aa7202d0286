/** Order-preserving operations on sequences: the row filters and de-duplications that the
    data frames and SQL queries of the pipeline perform. */
module Sequences {
  import opened Wrappers

  /** `a` is `b` with some elements deleted, order kept. Matched from the back. */
  predicate IsSubseq<T(==)>(a: seq<T>, b: seq<T>)
    decreases |b|
  {
    if a == [] then true
    else if b == [] then false
    else if a[|a| - 1] == b[|b| - 1] then IsSubseq(a[..|a| - 1], b[..|b| - 1])
    else IsSubseq(a, b[..|b| - 1])
  }

  lemma {:induction false} SubseqExtend<T>(a: seq<T>, b: seq<T>, x: T)
    requires IsSubseq(a, b)
    ensures IsSubseq(a, b + [x])
    decreases |b|, 1
  {
    assert (b + [x])[..|b|] == b;
    if a != [] && a[|a| - 1] == x {
      SubseqDropLast(a, b);
    }
  }

  lemma {:induction false} SubseqDropLast<T>(a: seq<T>, b: seq<T>)
    requires a != [] && IsSubseq(a, b)
    ensures IsSubseq(a[..|a| - 1], b)
    decreases |b|, 0
  {
    var b' := b[..|b| - 1];
    assert b == b' + [b[|b| - 1]];
    if a[|a| - 1] == b[|b| - 1] {
      SubseqExtend(a[..|a| - 1], b', b[|b| - 1]);
    } else {
      SubseqDropLast(a, b');
      SubseqExtend(a[..|a| - 1], b', b[|b| - 1]);
    }
  }

  lemma {:induction false} SubseqSnoc<T>(a: seq<T>, b: seq<T>, x: T)
    requires IsSubseq(a, b)
    ensures IsSubseq(a + [x], b + [x])
  {
    assert (a + [x])[..|a|] == a;
    assert (b + [x])[..|b|] == b;
  }

  lemma {:induction false} SubseqRefl<T>(a: seq<T>)
    ensures IsSubseq(a, a)
  {
    if a != [] {
      SubseqRefl(a[..|a| - 1]);
    }
  }

  /** Deleting from a deletion is a deletion. */
  lemma {:induction false} SubseqTrans<T>(a: seq<T>, b: seq<T>, c: seq<T>)
    requires IsSubseq(a, b) && IsSubseq(b, c)
    ensures IsSubseq(a, c)
    decreases |c|
  {
    if a != [] {
      assert b != [] && c != [];
      var c' := c[..|c| - 1];
      assert c == c' + [c[|c| - 1]];
      if b[|b| - 1] == c[|c| - 1] {
        if a[|a| - 1] == b[|b| - 1] {
          SubseqTrans(a[..|a| - 1], b[..|b| - 1], c');
        } else {
          SubseqTrans(a, b[..|b| - 1], c');
          SubseqExtend(a, c', c[|c| - 1]);
        }
      } else {
        SubseqTrans(a, b, c');
        SubseqExtend(a, c', c[|c| - 1]);
      }
    }
  }

  lemma {:induction false} SubseqMember<T>(a: seq<T>, b: seq<T>, x: T)
    requires IsSubseq(a, b) && x in a
    ensures x in b
    decreases |b|
  {
    var b' := b[..|b| - 1];
    assert b == b' + [b[|b| - 1]];
    if a[|a| - 1] == b[|b| - 1] {
      if x != a[|a| - 1] {
        assert a == a[..|a| - 1] + [a[|a| - 1]];
        SubseqMember(a[..|a| - 1], b', x);
      }
    } else {
      SubseqMember(a, b', x);
    }
  }

  /** The elements of `s` that satisfy `p`, in order (a boolean-mask selection). */
  function Filter<T(==,!new)>(s: seq<T>, p: T -> bool): (r: seq<T>)
    ensures IsSubseq(r, s)
    ensures forall x :: x in r <==> x in s && p(x)
  {
    if s == [] then []
    else
      var init := s[..|s| - 1];
      var x := s[|s| - 1];
      assert s == init + [x];
      var r := Filter(init, p);
      if p(x) then SubseqSnoc(r, init, x); r + [x]
      else SubseqExtend(r, init, x); r
  }

  /** A filter that keeps every element keeps the sequence. */
  lemma {:induction false} FilterAll<T(!new)>(s: seq<T>, p: T -> bool)
    requires forall x :: x in s ==> p(x)
    ensures Filter(s, p) == s
  {
    if s != [] {
      assert s == s[..|s| - 1] + [s[|s| - 1]];
      FilterAll(s[..|s| - 1], p);
    }
  }

  predicate Distinct<T(==)>(s: seq<T>) {
    forall i, j :: 0 <= i < j < |s| ==> s[i] != s[j]
  }

  /** The first occurrence of each value, in order of first occurrence (SQL `DISTINCT`,
      pandas `unique()` and `drop_duplicates()`). */
  function Dedup<T(==,!new)>(s: seq<T>): (r: seq<T>)
    ensures IsSubseq(r, s) && Distinct(r)
    ensures forall x :: x in r <==> x in s
  {
    if s == [] then []
    else
      var init := s[..|s| - 1];
      var x := s[|s| - 1];
      assert s == init + [x];
      var r := Dedup(init);
      if x in init then SubseqExtend(r, init, x); r
      else SubseqSnoc(r, init, x); r + [x]
  }

  lemma {:induction false} DedupDistinct<T(!new)>(s: seq<T>)
    requires Distinct(s)
    ensures Dedup(s) == s
  {
    if s != [] {
      var init := s[..|s| - 1];
      assert s == init + [s[|s| - 1]];
      assert s[|s| - 1] !in init;
      DedupDistinct(init);
    }
  }

  /** Number of positions of `s` that hold a value already seen earlier; pandas'
      `duplicated().sum()`. */
  function RepeatCount<T(==)>(s: seq<T>): nat
  {
    if s == [] then 0
    else RepeatCount(s[..|s| - 1]) + (if s[|s| - 1] in s[..|s| - 1] then 1 else 0)
  }

  /** Every row is either the first with its value or a repeat: the repeat count is the row
      count minus the number of distinct values. */
  lemma {:induction false} RepeatCountMeaning<T>(s: seq<T>)
    ensures RepeatCount(s) == |s| - |set x | x in s|
  {
    if s != [] {
      var init := s[..|s| - 1];
      var x := s[|s| - 1];
      assert s == init + [x];
      RepeatCountMeaning(init);
      assert (set y | y in s) == (set y | y in init) + {x};
      if x !in init {
        assert x !in (set y | y in init);
      }
    }
  }

  lemma {:induction false} DistinctCard<T>(s: seq<T>)
    requires Distinct(s)
    ensures |set x | x in s| == |s|
  {
    if s != [] {
      var init := s[..|s| - 1];
      var x := s[|s| - 1];
      assert s == init + [x];
      DistinctCard(init);
      assert (set y | y in s) == (set y | y in init) + {x};
      assert x !in (set y | y in init);
    }
  }

  /** A sequence without repetitions is no longer than any set holding its elements. */
  lemma DistinctBounded<T>(s: seq<T>, u: set<T>)
    requires Distinct(s) && forall x :: x in s ==> x in u
    ensures |s| <= |u|
  {
    DistinctCard(s);
    SubsetCard((set x | x in s), u);
  }

  lemma SubsetCard<T>(a: set<T>, b: set<T>)
    requires a <= b
    ensures |a| <= |b|
    decreases a
  {
    if a != {} {
      var x :| x in a;
      SubsetCard(a - {x}, b - {x});
    }
  }

  /** Number of occurrences of `x` in `s`. */
  function Occurrences<T(==)>(s: seq<T>, x: T): nat
  {
    if s == [] then 0
    else Occurrences(s[..|s| - 1], x) + (if s[|s| - 1] == x then 1 else 0)
  }

  /** A boolean-mask selection `df[mask]`, row by row. */
  method SelectWhere<T(==,!new)>(s: seq<T>, p: T -> bool) returns (r: seq<T>)
    ensures r == Filter(s, p)
  {
    r := [];
    var i := 0;
    while i < |s|
      invariant i <= |s|
      invariant r == Filter(s[..i], p)
    {
      assert s[..i + 1] == s[..i] + [s[i]];
      if p(s[i]) {
        r := r + [s[i]];
      }
      i := i + 1;
    }
    assert s[..i] == s;
  }

  /** `drop_duplicates()` over whole rows, remembering the rows seen so far. */
  method DropDuplicates<T(==,!new)>(s: seq<T>) returns (r: seq<T>)
    ensures r == Dedup(s)
  {
    r := [];
    var seen: set<T> := {};
    var i := 0;
    while i < |s|
      invariant i <= |s|
      invariant r == Dedup(s[..i])
      invariant forall x :: x in seen <==> x in s[..i]
    {
      assert s[..i + 1] == s[..i] + [s[i]];
      if s[i] !in seen {
        r := r + [s[i]];
      }
      seen := seen + {s[i]};
      i := i + 1;
    }
    assert s[..i] == s;
  }

  /** A selection is empty exactly when no element qualifies. */
  lemma FilterEmpty<T(!new)>(s: seq<T>, p: T -> bool)
    ensures Filter(s, p) == [] <==> forall x :: x in s ==> !p(x)
  {
    if Filter(s, p) != [] {
      assert Filter(s, p)[0] in Filter(s, p);
    }
  }

  /** No row repeats an earlier one exactly when all rows differ. */
  lemma {:induction false} RepeatCountZero<T>(s: seq<T>)
    ensures RepeatCount(s) == 0 <==> Distinct(s)
  {
    if s != [] {
      var init := s[..|s| - 1];
      var x := s[|s| - 1];
      assert s == init + [x];
      RepeatCountZero(init);
      if Distinct(s) {
        assert Distinct(init) by {
          forall i, j | 0 <= i < j < |init| ensures init[i] != init[j] {
            assert init[i] == s[i] && init[j] == s[j];
          }
        }
      }
    }
  }

  // ---------------------------------------------------------------- counting values

  /** pandas' `value_counts()`: each value that occurs, mapped to its number of occurrences. */
  function ValueCounts<T(==,!new)>(s: seq<T>): (m: map<T, nat>)
    ensures forall x :: x in m <==> x in s
    ensures forall x :: x in m ==> m[x] == Occurrences(s, x)
  {
    if s == [] then map[]
    else
      var init := s[..|s| - 1];
      var x := s[|s| - 1];
      assert s == init + [x];
      var m := ValueCounts(init);
      m[x := Occurrences(init, x) + 1]
  }

  /** The sum of `m[k]` over the keys listed in `ks`. */
  function SumOver<T(==)>(m: map<T, nat>, ks: seq<T>): nat
    requires forall k :: k in ks ==> k in m
  {
    if ks == [] then 0 else SumOver(m, ks[..|ks| - 1]) + m[ks[|ks| - 1]]
  }

  /** The sum of the occurrence counts of the values listed in `ks`. */
  function SumOccurrences<T(==)>(s: seq<T>, ks: seq<T>): nat
  {
    if ks == [] then 0 else SumOccurrences(s, ks[..|ks| - 1]) + Occurrences(s, ks[|ks| - 1])
  }

  lemma {:induction false} SumOccurrencesSnoc<T>(s: seq<T>, x: T, ks: seq<T>)
    requires Distinct(ks)
    ensures SumOccurrences(s + [x], ks) == SumOccurrences(s, ks) + (if x in ks then 1 else 0)
  {
    if ks != [] {
      var init := ks[..|ks| - 1];
      assert ks == init + [ks[|ks| - 1]];
      assert Distinct(init) by {
        forall i, j | 0 <= i < j < |init| ensures init[i] != init[j] {
          assert init[i] == ks[i] && init[j] == ks[j];
        }
      }
      SumOccurrencesSnoc(s, x, init);
      assert (s + [x])[..|s|] == s;
    }
  }

  lemma {:induction false} SumOccurrencesAbsent<T>(s: seq<T>, ks: seq<T>, x: T)
    requires x !in ks
    ensures SumOccurrences(s + [x], ks) == SumOccurrences(s, ks)
  {
    if ks != [] {
      var init := ks[..|ks| - 1];
      assert ks == init + [ks[|ks| - 1]];
      SumOccurrencesAbsent(s, init, x);
      assert (s + [x])[..|s|] == s;
    }
  }

  /** Every element is counted once under its own value: the counts of the distinct values
      add up to the length. */
  lemma {:induction false} SumOccurrencesDedup<T(!new)>(s: seq<T>)
    ensures SumOccurrences(s, Dedup(s)) == |s|
  {
    if s != [] {
      var init := s[..|s| - 1];
      var x := s[|s| - 1];
      assert s == init + [x];
      SumOccurrencesDedup(init);
      var d := Dedup(init);
      SumOccurrencesSnoc(init, x, d);
      if x !in init {
        var d' := d + [x];
        assert d'[..|d|] == d;
        SumOccurrencesAbsent(init, d, x);
        assert Occurrences(init, x) == 0 by { OccurrencesAbsent(init, x); }
      }
    }
  }

  lemma {:induction false} OccurrencesAbsent<T>(s: seq<T>, x: T)
    requires x !in s
    ensures Occurrences(s, x) == 0
  {
    if s != [] {
      assert s == s[..|s| - 1] + [s[|s| - 1]];
      OccurrencesAbsent(s[..|s| - 1], x);
    }
  }

  lemma {:induction false} SumOverCounts<T(!new)>(s: seq<T>, ks: seq<T>)
    requires forall k :: k in ks ==> k in s
    ensures forall k :: k in ks ==> k in ValueCounts(s)
    ensures SumOver(ValueCounts(s), ks) == SumOccurrences(s, ks)
  {
    if ks != [] {
      var init := ks[..|ks| - 1];
      assert forall k :: k in init ==> k in ks;
      SumOverCounts(s, init);
    }
  }

  /** The `value_counts()` of a column sum to its length, summing over the values in order of
      first appearance (each key exactly once). */
  lemma ValueCountsTotal<T(!new)>(s: seq<T>)
    ensures Distinct(Dedup(s)) && forall x :: x in Dedup(s) <==> x in ValueCounts(s)
    ensures SumOver(ValueCounts(s), Dedup(s)) == |s|
  {
    SumOverCounts(s, Dedup(s));
    SumOccurrencesDedup(s);
  }

  /** The first of `ks` with the most occurrences in `s`. */
  function FirstMostCommon<T(==,!new)>(s: seq<T>, ks: seq<T>): (r: T)
    requires ks != []
    ensures r in ks && forall k :: k in ks ==> Occurrences(s, k) <= Occurrences(s, r)
  {
    if |ks| == 1 then ks[0]
    else
      var best := FirstMostCommon(s, ks[..|ks| - 1]);
      assert forall k :: k in ks ==> k in ks[..|ks| - 1] || k == ks[|ks| - 1];
      if Occurrences(s, ks[|ks| - 1]) > Occurrences(s, best) then ks[|ks| - 1] else best
  }

  /** `value_counts().idxmax()` guarded by emptiness: a most frequent value, none for no values. */
  function MostCommon<T(==,!new)>(s: seq<T>): (r: Option<T>)
    ensures r.None? <==> s == []
    ensures r.Some? ==> r.value in s && forall x :: x in s ==> Occurrences(s, x) <= Occurrences(s, r.value)
  {
    if s == [] then None
    else
      assert s[0] in Dedup(s);
      Some(FirstMostCommon(s, Dedup(s)))
  }
  /** `f(x)` for each `x` of `s`, concatenated in order. */
  function FlatMap<T, U>(s: seq<T>, f: T -> seq<U>): seq<U> {
    if s == [] then [] else FlatMap(s[..|s| - 1], f) + f(s[|s| - 1])
  }

  /** A slice past the first part of a concatenation is a slice of the second part. */
  lemma SliceAfter<T>(p: seq<T>, r: seq<T>, a: nat, b: nat)
    requires a <= b <= |r|
    ensures (p + r)[|p| + a..|p| + b] == r[a..b]
    ensures (p + r)[|p| + a..] == r[a..]
  {
  }

  /** A slice of a suffix is a slice of the whole. */
  lemma SliceOfDrop<T>(t: seq<T>, d: nat, a: nat, b: nat)
    requires d <= |t| && a <= b <= |t| - d
    ensures t[d..][a..b] == t[d + a..d + b]
    ensures t[d..][a..] == t[d + a..]
  {
  }

  lemma FlatMapSnoc<T, U>(s: seq<T>, i: nat, f: T -> seq<U>)
    requires i < |s|
    ensures FlatMap(s[..i + 1], f) == FlatMap(s[..i], f) + f(s[i])
  {
    assert s[..i + 1][..i] == s[..i];
  }

  lemma {:induction false} FlatMapAppend<T, U>(a: seq<T>, b: seq<T>, f: T -> seq<U>)
    ensures FlatMap(a + b, f) == FlatMap(a, f) + FlatMap(b, f)
    decreases |b|
  {
    if b == [] {
      assert a + b == a;
    } else {
      var init := b[..|b| - 1];
      assert (a + b)[..|a + b| - 1] == a + init;
      FlatMapAppend(a, init, f);
    }
  }

  lemma {:induction false} FlatMapMember<T, U>(s: seq<T>, f: T -> seq<U>, y: U)
    ensures y in FlatMap(s, f) <==> exists x :: x in s && y in f(x)
  {
    if s != [] {
      var init := s[..|s| - 1];
      var last := s[|s| - 1];
      assert s == init + [last];
      FlatMapMember(init, f, y);
      if y in f(last) {
        assert last in s;
      }
      if exists x :: x in s && y in f(x) {
        var x :| x in s && y in f(x);
        if x != last {
          assert x in init;
        }
      }
    }
  }

  /** Removing one element from a sequence without repetitions. */
  lemma RemoveDistinct<T>(s: seq<T>, k: nat)
    requires Distinct(s) && k < |s|
    ensures Distinct(s[..k] + s[k + 1..])
    ensures forall x :: x in s[..k] + s[k + 1..] <==> x in s && x != s[k]
  {
    var r := s[..k] + s[k + 1..];
    forall i, j | 0 <= i < j < |r| ensures r[i] != r[j] {
      var i' := if i < k then i else i + 1;
      var j' := if j < k then j else j + 1;
      assert r[i] == s[i'] && r[j] == s[j'];
    }
    forall x | x in r ensures x in s && x != s[k] {
      var i :| 0 <= i < |r| && r[i] == x;
      var i' := if i < k then i else i + 1;
      assert r[i] == s[i'];
    }
    forall x | x in s && x != s[k] ensures x in r {
      var i :| 0 <= i < |s| && s[i] == x;
      if i < k {
        assert r[i] == x;
      } else {
        assert r[i - 1] == x;
      }
    }
  }

  lemma DropLastDistinct<T>(s: seq<T>)
    requires Distinct(s) && s != []
    ensures Distinct(s[..|s| - 1])
    ensures forall y :: y in s[..|s| - 1] <==> y in s && y != s[|s| - 1]
  {
    RemoveDistinct(s, |s| - 1);
    assert s[..|s| - 1] + s[|s|..] == s[..|s| - 1];
  }

  lemma NoMembersEmpty<T>(s: seq<T>)
    ensures (forall x :: x !in s) ==> s == []
  {
    if s != [] {
      assert s[0] in s;
    }
  }

  /** Taking one element out of the middle of a sequence takes its image out of the multiset. */
  lemma FlatMapRemove<T, U>(s: seq<T>, k: nat, f: T -> seq<U>)
    requires k < |s|
    ensures multiset(FlatMap(s, f)) == multiset(FlatMap(s[..k] + s[k + 1..], f)) + multiset(f(s[k]))
  {
    var a := s[..k];
    var b := s[k + 1..];
    assert s == a + [s[k]] + b;
    FlatMapAppend(a + [s[k]], b, f);
    FlatMapAppend(a, [s[k]], f);
    FlatMapAppend(a, b, f);
    assert FlatMap([s[k]], f) == f(s[k]) by {
      assert [s[k]][..0] == [];
    }
  }

  /** Iterating the same distinct elements in another order gives the same multiset. */
  lemma {:induction false} FlatMapReorder<T, U>(o1: seq<T>, o2: seq<T>, f: T -> seq<U>)
    requires Distinct(o1) && Distinct(o2) && forall x :: x in o1 <==> x in o2
    ensures multiset(FlatMap(o1, f)) == multiset(FlatMap(o2, f))
    decreases |o1|
  {
    if o1 == [] {
      NoMembersEmpty(o2);
    } else {
      var init := o1[..|o1| - 1];
      var x := o1[|o1| - 1];
      assert x in o2;
      var k :| 0 <= k < |o2| && o2[k] == x;
      var rest := o2[..k] + o2[k + 1..];
      RemoveDistinct(o2, k);
      DropLastDistinct(o1);
      forall y ensures y in init <==> y in rest {
        assert y in o1 <==> y in o2;
      }
      FlatMapReorder(init, rest, f);
      FlatMapRemove(o2, k, f);
      assert FlatMap(o1, f) == FlatMap(init, f) + f(x);
    }
  }
}
