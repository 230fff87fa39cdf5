/** Two pieces of Python's list vocabulary that both applications use: a list
    comprehension with an `if` (`[x for x in s if p(x)]`) and
    `sorted(s, key=f, reverse=True)`, which is a STABLE sort: elements with
    equal keys keep their input order even though the order is descending. */
module Seqs {

  /** `[x for x in s if p(x)]`. */
  function Filter<T>(s: seq<T>, p: T -> bool): (r: seq<T>)
    ensures |r| <= |s|
    ensures forall x :: x in r ==> x in s && p(x)
  {
    if s == [] then [] else (if p(s[0]) then [s[0]] else []) + Filter(s[1..], p)
  }

  /** Filtering commutes with concatenation: the comprehension keeps the
      input order. */
  lemma {:induction false} FilterAppend<T>(a: seq<T>, b: seq<T>, p: T -> bool)
    ensures Filter(a + b, p) == Filter(a, p) + Filter(b, p)
  {
    if a == [] {
      assert a + b == b;
    } else {
      assert (a + b)[1..] == a[1..] + b;
      FilterAppend(a[1..], b, p);
    }
  }

  /** Every element that satisfies `p` is kept. */
  lemma {:induction false} FilterKeeps<T>(s: seq<T>, p: T -> bool, x: T)
    requires x in s && p(x)
    ensures x in Filter(s, p)
  {
    if s[0] != x {
      FilterKeeps(s[1..], p, x);
    }
  }

  /** The comprehension is empty exactly when no element satisfies `p`. */
  lemma {:induction false} FilterEmpty<T>(s: seq<T>, p: T -> bool)
    ensures Filter(s, p) == [] <==> forall i :: 0 <= i < |s| ==> !p(s[i])
  {
    if s != [] {
      FilterEmpty(s[1..], p);
      assert forall i :: 1 <= i < |s| ==> s[i] == s[1..][i - 1];
    }
  }

  predicate NonIncreasing<T>(s: seq<T>, f: T -> int) {
    forall i, j :: 0 <= i < j < |s| ==> f(s[i]) >= f(s[j])
  }

  /** Where `x` is inserted: after the leading run of elements whose keys
      are strictly larger than `f(x)`. */
  function InsertPos<T>(x: T, s: seq<T>, f: T -> int): (p: nat)
    ensures p <= |s|
    ensures forall q :: 0 <= q < p ==> f(s[q]) > f(x)
    ensures p < |s| ==> f(s[p]) <= f(x)
  {
    if s == [] || f(s[0]) <= f(x) then
      0
    else
      var p' := InsertPos(x, s[1..], f);
      assert forall q :: 1 <= q <= p' ==> s[q] == s[1..][q - 1];
      1 + p'
  }

  /** Puts `x` in front of the first element whose key is at most `f(x)`,
      so it precedes every element of `s` with an equal key. Elements are
      inserted from the last input element back to the first, so the one
      inserted is always the earliest in the input: this placement is what
      makes the sort stable. */
  function InsertDesc<T>(x: T, s: seq<T>, f: T -> int): (r: seq<T>)
    requires NonIncreasing(s, f)
    ensures NonIncreasing(r, f)
    ensures multiset(r) == multiset(s) + multiset{x}
    ensures |r| == |s| + 1
  {
    var p := InsertPos(x, s, f);
    SpliceNonIncreasing(x, s, f, p);
    SpliceMultiset(x, s, p);
    Splice(s, p, x)
  }

  /** `s` with `x` inserted at position `p`. */
  function Splice<T>(s: seq<T>, p: nat, x: T): seq<T>
    requires p <= |s|
  {
    s[..p] + [x] + s[p..]
  }

  lemma SpliceMultiset<T>(x: T, s: seq<T>, p: nat)
    requires p <= |s|
    ensures multiset(Splice(s, p, x)) == multiset(s) + multiset{x}
  {
    assert s == s[..p] + s[p..];
  }

  /** Splicing `x` in at a position where everything in front has a larger
      key and the element behind has a key no larger keeps the order. */
  lemma SpliceNonIncreasing<T>(x: T, s: seq<T>, f: T -> int, p: nat)
    requires NonIncreasing(s, f) && p <= |s|
    requires forall q :: 0 <= q < p ==> f(s[q]) > f(x)
    requires p < |s| ==> f(s[p]) <= f(x)
    ensures NonIncreasing(Splice(s, p, x), f)
  {
    var r := Splice(s, p, x);
    forall i, j | 0 <= i < j < |r| ensures f(r[i]) >= f(r[j]) {
      var a := if i < p then s[i] else if i == p then x else s[i - 1];
      var b := if j < p then s[j] else if j == p then x else s[j - 1];
      assert r[i] == a && r[j] == b;
      if i > p {
        assert f(s[i - 1]) >= f(s[j - 1]);
      } else if i == p && j > p {
        assert f(s[p]) >= f(s[j - 1]);
      } else if i < p && j > p {
        assert f(s[i]) >= f(s[j - 1]) || i == j - 1;
      }
    }
  }

  /** `sorted(s, key=f, reverse=True)`, as an insertion sort. */
  function SortDesc<T>(s: seq<T>, f: T -> int): (r: seq<T>)
    ensures NonIncreasing(r, f)
    ensures multiset(r) == multiset(s)
    ensures |r| == |s|
  {
    if s == [] then
      []
    else
      assert s == [s[0]] + s[1..];
      InsertDesc(s[0], SortDesc(s[1..], f), f)
  }

  /** Where the elements of `s` end up after inserting `x`. */
  lemma InsertDescShape<T>(x: T, s: seq<T>, f: T -> int)
    requires NonIncreasing(s, f)
    ensures var p, r := InsertPos(x, s, f), InsertDesc(x, s, f);
            && r[p] == x
            && (forall q :: 0 <= q < p ==> r[q] == s[q])
            && (forall q :: p < q < |r| ==> r[q] == s[q - 1])
  {
  }

  /** A prefix of a non-increasing list is non-increasing. */
  lemma PrefixNonIncreasing<T>(s: seq<T>, f: T -> int, n: nat)
    requires NonIncreasing(s, f) && n <= |s|
    ensures NonIncreasing(s[..n], f)
  {
    assert forall i :: 0 <= i < n ==> s[..n][i] == s[i];
  }

  /** The sorted list holds the input's elements and nothing else. */
  lemma SortDescMembers<T>(s: seq<T>, f: T -> int)
    ensures forall x :: x in SortDesc(s, f) <==> x in s
  {
    var r := SortDesc(s, f);
    assert forall x :: x in r <==> x in multiset(r);
    assert forall x :: x in s <==> x in multiset(s);
  }

  /** Every element of the sorted list comes from the input. */
  lemma SortDescFrom<T>(s: seq<T>, f: T -> int, k: nat) returns (q: nat)
    requires k < |s|
    ensures q < |s| && s[q] == SortDesc(s, f)[k]
  {
    var r := SortDesc(s, f);
    assert r[k] in multiset(r);
    assert r[k] in s;
    q :| q < |s| && s[q] == r[k];
  }

  /** Stability: two output elements with equal keys appear in the input in
      the same relative order. */
  lemma {:induction false} SortDescStable<T>(s: seq<T>, f: T -> int, i: nat, j: nat) returns (i': nat, j': nat)
    requires i < j < |s|
    requires f(SortDesc(s, f)[i]) == f(SortDesc(s, f)[j])
    ensures i' < j' < |s| && s[i'] == SortDesc(s, f)[i] && s[j'] == SortDesc(s, f)[j]
    decreases |s|, 1
  {
    if i == InsertPos(s[0], SortDesc(s[1..], f), f) {
      i', j' := StableFromHead(s, f, i, j);
    } else {
      i', j' := StableInTail(s, f, i, j);
    }
  }

  /** The case where the first of the two is the input's head. */
  lemma StableFromHead<T>(s: seq<T>, f: T -> int, i: nat, j: nat) returns (i': nat, j': nat)
    requires i < j < |s|
    requires i == InsertPos(s[0], SortDesc(s[1..], f), f)
    ensures i' < j' < |s| && s[i'] == SortDesc(s, f)[i] && s[j'] == SortDesc(s, f)[j]
  {
    var tail := s[1..];
    var rs := SortDesc(tail, f);
    assert SortDesc(s, f) == InsertDesc(s[0], rs, f);
    InsertDescShape(s[0], rs, f);
    var q := SortDescFrom(tail, f, j - 1);
    assert s[q + 1] == tail[q];
    i', j' := 0, q + 1;
  }

  /** The case where neither is the input's head: both come from the sorted
      tail, in the same order. */
  lemma {:induction false} StableInTail<T>(s: seq<T>, f: T -> int, i: nat, j: nat) returns (i': nat, j': nat)
    requires i < j < |s|
    requires f(SortDesc(s, f)[i]) == f(SortDesc(s, f)[j])
    requires i != InsertPos(s[0], SortDesc(s[1..], f), f)
    ensures i' < j' < |s| && s[i'] == SortDesc(s, f)[i] && s[j'] == SortDesc(s, f)[j]
    decreases |s|, 0
  {
    var x, tail := s[0], s[1..];
    var rs := SortDesc(tail, f);
    assert SortDesc(s, f) == InsertDesc(x, rs, f);
    TieSkipsInserted(x, rs, f, i, j);
    var i0 := TailIndex(x, rs, f, i);
    var j0 := TailIndex(x, rs, f, j);
    var a, b := SortDescStable(tail, f, i0, j0);
    assert s[a + 1] == tail[a] && s[b + 1] == tail[b];
    i', j' := a + 1, b + 1;
  }

  /** A later element with the same key as an element other than `x` is
      not `x` either: everything in front of `x` has a larger key. */
  lemma TieSkipsInserted<T>(x: T, rs: seq<T>, f: T -> int, i: nat, j: nat)
    requires NonIncreasing(rs, f) && i < j <= |rs|
    requires i != InsertPos(x, rs, f)
    requires f(InsertDesc(x, rs, f)[i]) == f(InsertDesc(x, rs, f)[j])
    ensures j != InsertPos(x, rs, f)
  {
    InsertDescShape(x, rs, f);
  }

  /** Where an element of the insertion's result, other than `x`, sat in
      the list `x` was inserted into. */
  lemma TailIndex<T>(x: T, rs: seq<T>, f: T -> int, i: nat) returns (i0: nat)
    requires NonIncreasing(rs, f) && i <= |rs|
    requires i != InsertPos(x, rs, f)
    ensures i0 < |rs| && InsertDesc(x, rs, f)[i] == rs[i0]
    ensures i < InsertPos(x, rs, f) ==> i0 == i
    ensures i > InsertPos(x, rs, f) ==> i0 == i - 1
  {
    InsertDescShape(x, rs, f);
    i0 := if i < InsertPos(x, rs, f) then i else i - 1;
  }

  /** The elements whose key is `v`. */
  function KeyIs<T>(f: T -> int, v: int): T -> bool {
    x => f(x) == v
  }

  /** Filtering a splice is the splice of the filtered parts. */
  lemma FilterSplice<T>(a: seq<T>, x: T, b: seq<T>, p: T -> bool)
    ensures Filter(a + [x] + b, p) == Filter(a, p) + Filter([x], p) + Filter(b, p)
  {
    FilterAppend(a + [x], b, p);
    FilterAppend(a, [x], p);
  }

  /** Inserting `x` puts it in front of every element with its key and
      leaves the other keys' elements as they were. */
  lemma InsertDescByKey<T>(x: T, s: seq<T>, f: T -> int, v: int)
    requires NonIncreasing(s, f)
    ensures Filter(InsertDesc(x, s, f), KeyIs(f, v))
         == Filter([x], KeyIs(f, v)) + Filter(s, KeyIs(f, v))
  {
    SpliceByKey(s, InsertPos(x, s, f), x, f, v);
  }

  /** Splicing `x` in behind elements with larger keys only. */
  lemma SpliceByKey<T>(s: seq<T>, p: nat, x: T, f: T -> int, v: int)
    requires p <= |s|
    requires forall q :: 0 <= q < p ==> f(s[q]) > f(x)
    ensures Filter(Splice(s, p, x), KeyIs(f, v)) == Filter([x], KeyIs(f, v)) + Filter(s, KeyIs(f, v))
  {
    var k := KeyIs(f, v);
    var a, b := s[..p], s[p..];
    assert s == a + b;
    assert forall q :: 0 <= q < |a| ==> a[q] == s[q];
    FilterSplice(a, x, b, k);
    FilterAppend(a, b, k);
    LargerKeysFiltered(a, x, f, v);
    SpliceOfParts(Filter(a, k), Filter([x], k), Filter(b, k));
  }

  /** When every element of `a` has a larger key than `x`, either `x` or
      none of `a` has the key `v`. */
  lemma LargerKeysFiltered<T>(a: seq<T>, x: T, f: T -> int, v: int)
    requires forall q :: 0 <= q < |a| ==> f(a[q]) > f(x)
    ensures Filter(a, KeyIs(f, v)) == [] || Filter([x], KeyIs(f, v)) == []
  {
    var k := KeyIs(f, v);
    if f(x) == v {
      assert forall i :: 0 <= i < |a| ==> !k(a[i]);
      FilterEmpty(a, k);
    } else {
      assert Filter([x], k) == [];
    }
  }

  /** When one of the first two parts is empty, `a + x + b` is `x` in front
      of `a + b`. */
  lemma SpliceOfParts<T>(a: seq<T>, x: seq<T>, b: seq<T>)
    requires a == [] || x == []
    ensures a + x + b == x + (a + b)
  {
  }

  /** Stability of `sorted(s, key=f, reverse=True)`: for every key value,
      the elements with that key appear in the output exactly as, and in
      the same order as, in the input. */
  lemma {:induction false} SortDescKeepsTies<T>(s: seq<T>, f: T -> int, v: int)
    ensures Filter(SortDesc(s, f), KeyIs(f, v)) == Filter(s, KeyIs(f, v))
  {
    if s != [] {
      SortDescKeepsTies(s[1..], f, v);
      InsertDescByKey(s[0], SortDesc(s[1..], f), f, v);
    }
  }
}
