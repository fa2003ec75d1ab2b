/** The array primitives the scaler takes from numpy, on exact reals:
    argsort, fancy indexing, diff, cumulative sums, thresholding and
    division by the largest absolute value. */
module ArrayOps {

  /** Every entry of `p` indexes a sequence of length `n`. */
  predicate IndicesIn(p: seq<nat>, n: nat) {
    forall k :: 0 <= k < |p| ==> p[k] < n
  }

  /** No index occurs twice in `p`. */
  predicate Distinct(p: seq<nat>) {
    forall a, b :: 0 <= a < |p| && 0 <= b < |p| && a != b ==> p[a] != p[b]
  }

  /** `p` lists each of the indices 0 .. n-1 exactly once. */
  predicate IsPermutation(p: seq<nat>, n: nat) {
    |p| == n && IndicesIn(p, n) && Distinct(p)
  }

  /** Reading `x` in the index order `p` gives non-decreasing values. */
  predicate SortsBy(x: seq<real>, p: seq<nat>)
    requires IndicesIn(p, |x|)
  {
    forall a, b :: 0 <= a < b < |p| ==> x[p[a]] <= x[p[b]]
  }

  /** `p` is a permutation that sorts `x`; ties may come in any order. */
  predicate IsSortingPermutation(p: seq<nat>, x: seq<real>) {
    IsPermutation(p, |x|) && SortsBy(x, p)
  }

  predicate Sorted(s: seq<real>) {
    forall a, b :: 0 <= a < b < |s| ==> s[a] <= s[b]
  }

  /** A sequence whose entries follow the order of a sorted one is sorted. */
  lemma FollowsSorted(x: seq<real>, r: seq<real>)
    requires |r| == |x| && Sorted(x)
    requires forall i, j :: 0 <= i < |x| && 0 <= j < |x| && x[i] <= x[j] ==> r[i] <= r[j]
    ensures Sorted(r)
  {
  }

  predicate NonNegative(s: seq<real>) {
    forall k :: 0 <= k < |s| ==> 0.0 <= s[k]
  }

  /** numpy's fancy indexing `x[p]`: reading `x` in an order that sorts it
      gives a sorted sequence. */
  function Gather(x: seq<real>, p: seq<nat>): (r: seq<real>)
    requires IndicesIn(p, |x|)
    ensures |r| == |p|
    ensures SortsBy(x, p) ==> Sorted(r)
  {
    seq(|p|, k requires 0 <= k < |p| => x[p[k]])
  }

  /** An integer index array read as a real array, so that it can be argsorted. */
  function AsReals(p: seq<nat>): seq<real> {
    seq(|p|, k requires 0 <= k < |p| => p[k] as real)
  }

  lemma GatherCons(x: seq<real>, i: nat, p: seq<nat>)
    requires i < |x| && IndicesIn(p, |x|)
    ensures IndicesIn([i] + p, |x|)
    ensures Gather(x, [i] + p) == [x[i]] + Gather(x, p)
  {
  }

  /** Puts index `i` into the `x`-sorted index list `ord`, in front of the
      first entry whose value is not below `x[i]`. */
  function Insert(x: seq<real>, ord: seq<nat>, i: nat): (r: seq<nat>)
    requires i < |x| && IndicesIn(ord, |x|)
    ensures |r| == |ord| + 1 && IndicesIn(r, |x|)
    decreases |ord|
  {
    if ord == [] || x[i] <= x[ord[0]] then [i] + ord
    else [ord[0]] + Insert(x, ord[1..], i)
  }

  /** Insertion adds `i` and keeps every other entry. */
  lemma {:induction false} InsertMembers(x: seq<real>, ord: seq<nat>, i: nat)
    requires i < |x| && IndicesIn(ord, |x|)
    ensures forall v :: v in Insert(x, ord, i) <==> v in ord || v == i
    decreases |ord|
  {
    if ord != [] && x[i] > x[ord[0]] {
      InsertMembers(x, ord[1..], i);
      assert ord == [ord[0]] + ord[1..];
    }
  }

  /** Insertion keeps an `x`-sorted index list sorted. */
  lemma {:induction false} InsertSorts(x: seq<real>, ord: seq<nat>, i: nat)
    requires i < |x| && IndicesIn(ord, |x|) && SortsBy(x, ord)
    ensures SortsBy(x, Insert(x, ord, i))
    decreases |ord|
  {
    var r := Insert(x, ord, i);
    if ord == [] || x[i] <= x[ord[0]] {
      forall a, b | 0 <= a < b < |r| ensures x[r[a]] <= x[r[b]] {
        if a == 0 && b > 1 {
          assert x[ord[0]] <= x[ord[b - 1]];
        }
      }
    } else {
      var tail := ord[1..];
      var rest := Insert(x, tail, i);
      InsertSorts(x, tail, i);
      InsertMembers(x, tail, i);
      assert r == [ord[0]] + rest;
      forall k | 0 <= k < |rest| ensures x[ord[0]] <= x[rest[k]] {
        if rest[k] != i {
          assert rest[k] in tail;
          var t :| 0 <= t < |tail| && tail[t] == rest[k];
          assert ord[t + 1] == rest[k];
        }
      }
      forall a, b | 0 <= a < b < |r| ensures x[r[a]] <= x[r[b]] {
        if a > 0 {
          assert r[a] == rest[a - 1] && r[b] == rest[b - 1];
        }
      }
    }
  }

  /** Inserting an index not yet present keeps the list free of repeats. */
  lemma {:induction false} InsertDistinct(x: seq<real>, ord: seq<nat>, i: nat)
    requires i < |x| && IndicesIn(ord, |x|) && Distinct(ord) && i !in ord
    ensures Distinct(Insert(x, ord, i))
    decreases |ord|
  {
    var r := Insert(x, ord, i);
    if ord != [] && x[i] > x[ord[0]] {
      var tail := ord[1..];
      var rest := Insert(x, tail, i);
      InsertDistinct(x, tail, i);
      InsertMembers(x, tail, i);
      assert r == [ord[0]] + rest;
      assert ord[0] !in tail;
      assert ord[0] !in rest;
      forall a, b | 0 <= a < |r| && 0 <= b < |r| && a != b ensures r[a] != r[b] {
        if a > 0 && b > 0 {
          assert r[a] == rest[a - 1] && r[b] == rest[b - 1];
        } else if a == 0 {
          assert r[b] in rest;
        } else {
          assert r[a] in rest;
        }
      }
    }
  }

  /** Inserting `i` adds exactly `x[i]` to the values the list selects. */
  lemma {:induction false} InsertGathers(x: seq<real>, ord: seq<nat>, i: nat)
    requires i < |x| && IndicesIn(ord, |x|)
    ensures multiset(Gather(x, Insert(x, ord, i))) == multiset(Gather(x, ord)) + multiset{x[i]}
    decreases |ord|
  {
    if ord == [] || x[i] <= x[ord[0]] {
      GatherCons(x, i, ord);
    } else {
      var tail := ord[1..];
      var rest := Insert(x, tail, i);
      InsertGathers(x, tail, i);
      assert ord == [ord[0]] + tail;
      GatherCons(x, ord[0], rest);
      GatherCons(x, ord[0], tail);
    }
  }

  /** numpy's `argsort`: some permutation of the indices that sorts `x`,
      here by inserting the last index into the argsort of the rest. Its
      contract promises nothing about the order of equal values. */
  function ArgSort(x: seq<real>): (r: seq<nat>)
    ensures IsSortingPermutation(r, x)
    ensures forall v: nat :: v in r <==> v < |x|
    ensures multiset(Gather(x, r)) == multiset(x)
    decreases |x|
  {
    if |x| == 0 then []
    else
      var prev := ArgSort(x[..|x| - 1]);
      InsertLast(x, prev);
      Insert(x, prev, |x| - 1)
  }

  /** Inserting the last index into an argsort of all the other values
      gives an argsort of the whole sequence. */
  lemma InsertLast(x: seq<real>, prev: seq<nat>)
    requires |x| >= 1 && IsSortingPermutation(prev, x[..|x| - 1])
    requires forall v: nat :: v in prev <==> v < |x| - 1
    requires multiset(Gather(x[..|x| - 1], prev)) == multiset(x[..|x| - 1])
    ensures IndicesIn(prev, |x|)
    ensures var r := Insert(x, prev, |x| - 1);
      IsSortingPermutation(r, x) && (forall v: nat :: v in r <==> v < |x|) &&
      multiset(Gather(x, r)) == multiset(x)
  {
    var n := |x| - 1;
    assert x == x[..n] + [x[n]];
    assert Gather(x, prev) == Gather(x[..n], prev);
    InsertSorts(x, prev, n);
    InsertDistinct(x, prev, n);
    InsertGathers(x, prev, n);
    InsertMembers(x, prev, n);
  }

  /** What the scaler relies on from numpy's `argsort`: on every input it
      returns a permutation that sorts it. Which of several equal values
      comes first is left open. */
  ghost predicate IsArgSort(argsort: seq<real> -> seq<nat>) {
    forall y {:trigger IsSortingPermutation(argsort(y), y)} :: IsSortingPermutation(argsort(y), y)
  }

  /** The insertion argsort above is such a function. */
  lemma ArgSortIsArgSort()
    ensures IsArgSort(ArgSort)
  {
  }

  /** numpy's `sort`: the values of `x` in non-decreasing order. */
  function Sort(x: seq<real>): (r: seq<real>)
    ensures |r| == |x| && Sorted(r)
    ensures multiset(r) == multiset(x)
  {
    Gather(x, ArgSort(x))
  }

  /** In a strictly increasing sequence, entries two positions apart differ
      by at least the distance of the positions. */
  lemma {:induction false} IncreasingSpread(s: seq<nat>, a: nat, b: nat)
    requires forall i, j :: 0 <= i < j < |s| ==> s[i] < s[j]
    requires a <= b < |s|
    ensures s[b] - s[a] >= b - a
    decreases b - a
  {
    if a < b {
      IncreasingSpread(s, a, b - 1);
    }
  }

  /** A strictly increasing sequence of n indices below n is 0, 1, ..., n-1. */
  lemma IncreasingIsIdentity(s: seq<nat>)
    requires forall k :: 0 <= k < |s| ==> s[k] < |s|
    requires forall i, j :: 0 <= i < j < |s| ==> s[i] < s[j]
    ensures forall k :: 0 <= k < |s| ==> s[k] == k
  {
    forall k | 0 <= k < |s| ensures s[k] == k {
      IncreasingSpread(s, 0, k);
      IncreasingSpread(s, k, |s| - 1);
    }
  }

  /** Argsorting a permutation yields its inverse permutation: the values
      of `AsReals(p)` are distinct, so every sorting permutation `q` of them
      undoes `p`. */
  lemma SortingPermutationInverts(p: seq<nat>, q: seq<nat>)
    requires IsPermutation(p, |p|) && IsSortingPermutation(q, AsReals(p))
    ensures IsPermutation(q, |p|)
    ensures forall j :: 0 <= j < |p| ==> p[q[j]] == j
    ensures forall k :: 0 <= k < |p| ==> q[p[k]] == k
  {
    var s := seq(|p|, j requires 0 <= j < |p| => p[q[j]]);
    forall a, b | 0 <= a < b < |s| ensures s[a] < s[b] {
      assert AsReals(p)[q[a]] <= AsReals(p)[q[b]];
      assert q[a] != q[b];
    }
    IncreasingIsIdentity(s);
    forall j | 0 <= j < |p| ensures p[q[j]] == j {
      assert s[j] == j;
    }
    forall k | 0 <= k < |p| ensures q[p[k]] == k {
      var j := p[k];
      assert p[q[j]] == j;
    }
  }

  /** A sequence that never decreases along a sorting permutation of `x`
      never puts a larger value where `x` is strictly smaller. */
  lemma OrderedAlong(x: seq<real>, order: seq<nat>, s: seq<real>)
    requires IsSortingPermutation(order, x) && |s| == |x|
    requires forall a, b :: 0 <= a <= b < |x| ==> s[order[a]] <= s[order[b]]
    ensures forall i, j :: 0 <= i < |x| && 0 <= j < |x| && x[i] < x[j] ==> s[i] <= s[j]
  {
    forall i, j | 0 <= i < |x| && 0 <= j < |x| && x[i] < x[j] ensures s[i] <= s[j] {
      PermutationCovers(order, |x|, i);
      PermutationCovers(order, |x|, j);
      var a :| 0 <= a < |x| && order[a] == i;
      var b :| 0 <= b < |x| && order[b] == j;
      assert a <= b;
    }
  }

  /** Reading `x` through any permutation keeps its multiset of values. */
  lemma {:induction false} PermutationMultiset(x: seq<real>, p: seq<nat>)
    requires IsPermutation(p, |x|)
    ensures multiset(Gather(x, p)) == multiset(x)
    decreases |x|
  {
    if |x| > 0 {
      var n := |x| - 1;
      PermutationCovers(p, |x|, n);
      var m :| 0 <= m < |x| && p[m] == n;
      var q := DropAt(p, m);
      DropAtPermutation(p, m);
      GatherDropAt(x, p, m);
      GatherPrefix(x, n, q);
      PermutationMultiset(x[..n], q);
      assert x == x[..n] + [x[n]];
    }
  }

  /** `p` without its entry at position m. */
  function DropAt(p: seq<nat>, m: nat): (q: seq<nat>)
    requires m < |p|
    ensures |q| == |p| - 1
    ensures forall k :: 0 <= k < |q| ==> q[k] == p[if k < m then k else k + 1]
  {
    p[..m] + p[m + 1..]
  }

  /** Dropping the entry at position m loses exactly the value it reads. */
  lemma GatherDropAt(x: seq<real>, p: seq<nat>, m: nat)
    requires IndicesIn(p, |x|) && m < |p|
    ensures IndicesIn(DropAt(p, m), |x|)
    ensures multiset(Gather(x, p)) == multiset(Gather(x, DropAt(p, m))) + multiset{x[p[m]]}
  {
    var left, right := p[..m], p[m + 1..];
    assert p == left + [p[m]] + right;
    GatherConcat(x, left + [p[m]], right);
    GatherConcat(x, left, [p[m]]);
    GatherConcat(x, left, right);
    var gl, gr := Gather(x, left), Gather(x, right);
    assert Gather(x, p) == gl + [x[p[m]]] + gr;
    assert multiset(Gather(x, p)) == multiset(gl) + multiset{x[p[m]]} + multiset(gr);
  }

  /** Dropping the largest index n from a permutation of 0 .. n leaves a
      permutation of 0 .. n-1. */
  lemma DropAtPermutation(p: seq<nat>, m: nat)
    requires |p| >= 1 && IsPermutation(p, |p|) && m < |p| && p[m] == |p| - 1
    ensures IsPermutation(DropAt(p, m), |p| - 1)
  {
    var q := DropAt(p, m);
    forall k | 0 <= k < |q| ensures q[k] < |p| - 1 {
      assert q[k] != p[m];
    }
    forall a, b | 0 <= a < |q| && 0 <= b < |q| && a != b ensures q[a] != q[b] {
      assert q[a] == p[if a < m then a else a + 1];
      assert q[b] == p[if b < m then b else b + 1];
    }
  }

  /** Indices below n read the same values from `x` and from its first n entries. */
  lemma GatherPrefix(x: seq<real>, n: nat, q: seq<nat>)
    requires n <= |x| && IndicesIn(q, n)
    ensures IndicesIn(q, |x|) && Gather(x, q) == Gather(x[..n], q)
  {
  }

  lemma GatherConcat(x: seq<real>, a: seq<nat>, b: seq<nat>)
    requires IndicesIn(a, |x|) && IndicesIn(b, |x|)
    ensures IndicesIn(a + b, |x|) && Gather(x, a + b) == Gather(x, a) + Gather(x, b)
  {
  }

  /** Two sorted sequences with the same values are equal. */
  lemma {:induction false} SortedUnique(s: seq<real>, t: seq<real>)
    requires Sorted(s) && Sorted(t) && multiset(s) == multiset(t)
    ensures s == t
    decreases |s|
  {
    assert |s| == |multiset(s)| == |multiset(t)| == |t|;
    if |s| > 0 {
      SameHeadSameTail(s, t);
      SortedUnique(s[1..], t[1..]);
    }
  }

  /** Two non-empty sorted sequences with the same values start alike, and
      their tails are sorted with the same values. */
  lemma SameHeadSameTail(s: seq<real>, t: seq<real>)
    requires Sorted(s) && Sorted(t) && multiset(s) == multiset(t) && |s| >= 1 && |t| >= 1
    ensures s[0] == t[0] && Sorted(s[1..]) && Sorted(t[1..]) && multiset(s[1..]) == multiset(t[1..])
  {
    assert t[0] in multiset(s) && s[0] in multiset(t);
    SmallestFirst(s, t[0]);
    SmallestFirst(t, s[0]);
    assert s == [s[0]] + s[1..] && t == [t[0]] + t[1..];
    assert multiset(s) == multiset{s[0]} + multiset(s[1..]);
    assert multiset(t) == multiset{s[0]} + multiset(t[1..]);
    assert multiset(s[1..]) == multiset(s) - multiset{s[0]};
    assert multiset(t[1..]) == multiset(t) - multiset{s[0]};
  }

  /** A value of a sorted sequence is not below its first entry. */
  lemma SmallestFirst(s: seq<real>, v: real)
    requires Sorted(s) && v in multiset(s)
    ensures s[0] <= v
  {
    var i :| 0 <= i < |s| && s[i] == v;
    if i > 0 {
      assert s[0] <= s[i];
    }
  }

  /** All sorting permutations of `x` read the same sorted sequence: they
      differ only in the order of equal values. */
  lemma SortingPermutationsAgree(x: seq<real>, p: seq<nat>, q: seq<nat>)
    requires IsSortingPermutation(p, x) && IsSortingPermutation(q, x)
    ensures Gather(x, p) == Gather(x, q)
  {
    PermutationMultiset(x, p);
    PermutationMultiset(x, q);
    SortedUnique(Gather(x, p), Gather(x, q));
  }

  /** Every index below n occurs in a permutation of 0 .. n-1. */
  lemma PermutationCovers(p: seq<nat>, n: nat, j: nat)
    requires IsPermutation(p, n) && j < n
    ensures exists k :: 0 <= k < n && p[k] == j
  {
    var q := ArgSort(AsReals(p));
    SortingPermutationInverts(p, q);
    assert p[q[j]] == j;
  }

  /** numpy's `diff`: consecutive differences. */
  function Diff(s: seq<real>): (r: seq<real>)
    ensures |r| == if |s| == 0 then 0 else |s| - 1
  {
    if |s| == 0 then [] else seq(|s| - 1, k requires 0 <= k < |s| - 1 => s[k + 1] - s[k])
  }

  function Sum(s: seq<real>): real {
    if s == [] then 0.0 else Sum(s[..|s| - 1]) + s[|s| - 1]
  }

  /** `x0 + append(0, cumsum(steps))`: entry k is x0 plus the first k steps.
      It starts at x0 and climbs by exactly one step per position. */
  function Integrated(x0: real, steps: seq<real>): (r: seq<real>)
    ensures |r| == |steps| + 1 && r[0] == x0
    ensures forall k {:trigger steps[k]} :: 0 <= k < |steps| ==> r[k + 1] == r[k] + steps[k]
  {
    var r := seq(|steps| + 1, k requires 0 <= k <= |steps| => x0 + Sum(steps[..k]));
    assert forall k :: 0 <= k < |steps| ==> steps[..k + 1][..k] == steps[..k];
    assert steps[..0] == [];
    r
  }

  /** Two sequences that start alike and move by the same steps are equal. */
  lemma {:induction false} SameStartSameSteps(a: seq<real>, b: seq<real>)
    requires |a| == |b| >= 1 && a[0] == b[0]
    requires forall k :: 0 <= k < |a| - 1 ==> a[k + 1] - a[k] == b[k + 1] - b[k]
    ensures a == b
    decreases |a|
  {
    if |a| > 1 {
      var a', b' := a[..|a| - 1], b[..|b| - 1];
      SameStartSameSteps(a', b');
      var n := |a| - 1;
      assert a[n - 1] == a'[n - 1] == b'[n - 1] == b[n - 1];
      assert a[n] == b[n];
      assert a == a' + [a[n]] && b == b' + [b[n]];
    }
  }

  /** Cumulative summation from the first value undoes diff. */
  lemma IntegratedDiff(s: seq<real>)
    requires |s| >= 1
    ensures Integrated(s[0], Diff(s)) == s
  {
    SameStartSameSteps(Integrated(s[0], Diff(s)), s);
  }

  /** Diff undoes cumulative summation. */
  lemma DiffIntegrated(x0: real, steps: seq<real>)
    ensures Diff(Integrated(x0, steps)) == steps
  {
  }

  /** With non-negative steps the integrated sequence never decreases. */
  lemma {:induction false} IntegratedMonotone(x0: real, steps: seq<real>, a: nat, b: nat)
    requires NonNegative(steps) && a <= b <= |steps|
    ensures Integrated(x0, steps)[a] <= Integrated(x0, steps)[b]
    decreases b - a
  {
    if a < b {
      IntegratedMonotone(x0, steps, a, b - 1);
    }
  }

  /** After step k the integrated sequence lies at least that step above x0. */
  lemma IntegratedRises(x0: real, steps: seq<real>, k: nat)
    requires NonNegative(steps) && k < |steps|
    ensures Integrated(x0, steps)[k + 1] >= x0 + steps[k]
  {
    IntegratedMonotone(x0, steps, 0, k);
  }

  /** Where every step of a stretch is zero the integrated sequence is flat. */
  lemma {:induction false} IntegratedFlat(x0: real, steps: seq<real>, a: nat, b: nat)
    requires a <= b <= |steps|
    requires forall k :: a <= k < b ==> steps[k] == 0.0
    ensures Integrated(x0, steps)[a] == Integrated(x0, steps)[b]
    decreases b - a
  {
    if a < b {
      IntegratedFlat(x0, steps, a, b - 1);
    }
  }

  /** `(delta > eps).astype(int)`: 1 for a step above eps, else 0. */
  function Threshold(delta: seq<real>, eps: real): (r: seq<real>)
    ensures |r| == |delta|
  {
    seq(|delta|, k requires 0 <= k < |delta| => if delta[k] > eps then 1.0 else 0.0)
  }

  /** The number of entries of `s` above `eps`. */
  function CountAbove(s: seq<real>, eps: real): nat {
    if s == [] then 0
    else CountAbove(s[..|s| - 1], eps) + (if s[|s| - 1] > eps then 1 else 0)
  }

  /** Summing thresholded steps counts the steps above the threshold. */
  lemma {:induction false} SumThreshold(s: seq<real>, eps: real)
    ensures Sum(Threshold(s, eps)) == CountAbove(s, eps) as real
    decreases |s|
  {
    if s != [] {
      var t := Threshold(s, eps);
      assert t[..|t| - 1] == Threshold(s[..|s| - 1], eps);
      SumThreshold(s[..|s| - 1], eps);
    }
  }

  /** Entry k of the integrated thresholded steps is x0 plus the number of
      the first k steps that lie above eps. */
  lemma IntegratedThreshold(x0: real, delta: seq<real>, eps: real, k: nat)
    requires k <= |delta|
    ensures Integrated(x0, Threshold(delta, eps))[k] == x0 + CountAbove(delta[..k], eps) as real
  {
    var t := Threshold(delta, eps);
    assert t[..k] == Threshold(delta[..k], eps);
    SumThreshold(delta[..k], eps);
  }

  function Abs(v: real): real {
    if v < 0.0 then -v else v
  }

  /** numpy's `max(abs(s))`. */
  function MaxAbs(s: seq<real>): (m: real)
    requires |s| >= 1
    ensures forall k :: 0 <= k < |s| ==> Abs(s[k]) <= m
    ensures exists k :: 0 <= k < |s| && Abs(s[k]) == m
  {
    if |s| == 1 then Abs(s[0])
    else
      var m := MaxAbs(s[..|s| - 1]);
      if Abs(s[|s| - 1]) > m then Abs(s[|s| - 1]) else m
  }

  /** `s / max(abs(s))`: the largest absolute value becomes 1. */
  function DivideByMaxAbs(s: seq<real>): (r: seq<real>)
    requires |s| >= 1 && MaxAbs(s) != 0.0
    ensures |r| == |s| && MaxAbs(r) == 1.0
  {
    var m := MaxAbs(s);
    var r := seq(|s|, k requires 0 <= k < |s| => s[k] / m);
    forall k | 0 <= k < |s| ensures Abs(r[k]) <= 1.0 {
      DivisionBound(s[k], m);
    }
    var w :| 0 <= w < |s| && Abs(s[w]) == m;
    DivisionUnit(s[w], m);
    MaxAbsOne(r, w);
    r
  }

  /** Dividing by the (positive) max-abs keeps the order of any two entries. */
  lemma DivideByMaxAbsKeepsOrder(s: seq<real>)
    requires |s| >= 1 && MaxAbs(s) != 0.0
    ensures var r := DivideByMaxAbs(s);
      forall i, j :: 0 <= i < |s| && 0 <= j < |s| ==> (s[i] <= s[j] <==> r[i] <= r[j])
  {
    var r := DivideByMaxAbs(s);
    forall i, j | 0 <= i < |s| && 0 <= j < |s| ensures s[i] <= s[j] <==> r[i] <= r[j] {
      DivisionOrder(s[i], s[j], MaxAbs(s));
    }
  }

  /** `y` takes one value on every run of equal values of `x`. */
  predicate SameOnTies(x: seq<real>, y: seq<real>)
    requires |x| == |y|
  {
    forall a, b :: 0 <= a < |x| && 0 <= b < |x| && x[a] == x[b] ==> y[a] == y[b]
  }

  /** The division keeps a sequence equal on the ties of `x`. */
  lemma DivideByMaxAbsKeepsTies(x: seq<real>, s: seq<real>)
    requires |s| == |x| >= 1 && MaxAbs(s) != 0.0 && SameOnTies(x, s)
    ensures SameOnTies(x, DivideByMaxAbs(s))
  {
  }

  /** Dividing by the (positive) max-abs keeps signs and zeros. */
  lemma DivideByMaxAbsKeepsSign(s: seq<real>)
    requires |s| >= 1 && MaxAbs(s) != 0.0
    ensures var r := DivideByMaxAbs(s);
      forall i :: 0 <= i < |s| ==> (0.0 <= s[i] <==> 0.0 <= r[i]) && (s[i] == 0.0 <==> r[i] == 0.0)
  {
    var r := DivideByMaxAbs(s);
    forall i | 0 <= i < |s| ensures (0.0 <= s[i] <==> 0.0 <= r[i]) && (s[i] == 0.0 <==> r[i] == 0.0) {
      DivisionSign(s[i], MaxAbs(s));
    }
  }

  /** A sequence bounded by 1 in absolute value that reaches 1 has max-abs 1. */
  lemma MaxAbsOne(r: seq<real>, w: nat)
    requires w < |r| && Abs(r[w]) == 1.0
    requires forall k :: 0 <= k < |r| ==> Abs(r[k]) <= 1.0
    ensures MaxAbs(r) == 1.0
  {
  }

  lemma DivisionSign(v: real, m: real)
    requires m > 0.0
    ensures (0.0 <= v <==> 0.0 <= v / m) && (v == 0.0 <==> v / m == 0.0)
  {
    assert (v / m) * m == v;
  }

  lemma DivisionBound(v: real, m: real)
    requires m > 0.0 && Abs(v) <= m
    ensures Abs(v / m) <= 1.0
  {
    var t := v / m;
    assert t * m == v;
    assert (t - 1.0) * m == v - m;
    assert (t + 1.0) * m == v + m;
  }

  lemma DivisionUnit(v: real, m: real)
    requires m > 0.0 && Abs(v) == m
    ensures Abs(v / m) == 1.0
  {
    if v < 0.0 { assert v == -m; assert v / m == -1.0; } else { assert v / m == 1.0; }
  }

  lemma DivisionOrder(u: real, v: real, m: real)
    requires m > 0.0
    ensures u <= v <==> u / m <= v / m
  {
    var a, b := u / m, v / m;
    assert a * m == u && b * m == v;
    if a <= b { assert (b - a) * m >= 0.0; }
    if u <= v { assert (b - a) * m == v - u; }
  }
}
