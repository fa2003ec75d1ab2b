/** The recursive derivative-rank procedure of the scaler: take the step
    sizes of the sorted values, transform them recursively `d` levels deep,
    integrate them back from the smallest value, undo the sort and scale the
    result to a largest absolute value of 1. */
module DerivativeRank {
  import opened ArrayOps

  /** What `_get_steps` returns: the step sizes of the sorted values, the
      sorting order and the smallest value. */
  datatype Steps = Steps(delta: seq<real>, order: seq<nat>, x0: real)

  /** `_get_steps`: argsort, consecutive differences of the sorted values,
      and the smallest value. */
  function GetSteps(x: seq<real>, argsort: seq<real> -> seq<nat>): (st: Steps)
    requires |x| >= 1 && IsArgSort(argsort)
    ensures IsSortingPermutation(st.order, x)
    ensures |st.delta| == |x| - 1 && NonNegative(st.delta)
    ensures forall k {:trigger st.delta[k]} :: 0 <= k < |st.delta| ==> st.delta[k] == x[st.order[k + 1]] - x[st.order[k]]
    ensures st.x0 == x[st.order[0]]
    ensures forall i :: 0 <= i < |x| ==> st.x0 <= x[i]
  {
    var order := argsort(x);
    assert IsSortingPermutation(order, x);
    var sorted := Gather(x, order);
    assert forall i :: 0 <= i < |x| ==> sorted[0] <= x[i] by {
      forall i | 0 <= i < |x| ensures sorted[0] <= x[i] {
        PermutationCovers(order, |x|, i);
        var k :| 0 <= k < |order| && order[k] == i;
        if k > 0 {
          assert x[order[0]] <= x[order[k]];
        }
      }
    }
    Steps(Diff(sorted), order, sorted[0])
  }

  /** The steps that `_integrate` accumulates: at the base depth each step
      becomes 1 or 0 against eps, otherwise the steps are taken as given. */
  function EffectiveSteps(delta: seq<real>, constant: bool, eps: real): (s: seq<real>)
    ensures |s| == |delta|
    ensures NonNegative(delta) ==> NonNegative(s)
  {
    if constant then Threshold(delta, eps) else delta
  }

  /** `_integrate`: accumulate the (non-negative) steps from x0 and put the
      k-th value of that sorted sequence back at position order[k]. The
      non-negativity the source asserts is this function's precondition. */
  function Integrate(delta: seq<real>, order: seq<nat>, x0: real, constant: bool, eps: real,
                     argsort: seq<real> -> seq<nat>): (r: seq<real>)
    requires IsArgSort(argsort) && IsPermutation(order, |delta| + 1)
    requires NonNegative(delta)
    ensures |r| == |delta| + 1
    ensures forall k {:trigger r[order[k]]} :: 0 <= k < |r| ==> r[order[k]] == Integrated(x0, EffectiveSteps(delta, constant, eps))[k]
  {
    var xSorted := Integrated(x0, EffectiveSteps(delta, constant, eps));
    var inverse := argsort(AsReals(order));
    assert IsSortingPermutation(inverse, AsReals(order));
    SortingPermutationInverts(order, inverse);
    Gather(xSorted, inverse)
  }

  /** The integrated sequence, read in the given order, starts at x0 and never
      decreases; so x0 is its minimum. */
  lemma IntegrateOrdered(delta: seq<real>, order: seq<nat>, x0: real, constant: bool, eps: real,
                         argsort: seq<real> -> seq<nat>)
    requires IsArgSort(argsort) && IsPermutation(order, |delta| + 1) && NonNegative(delta)
    ensures var r := Integrate(delta, order, x0, constant, eps, argsort);
      r[order[0]] == x0 &&
      (forall a, b :: 0 <= a <= b < |r| ==> r[order[a]] <= r[order[b]]) &&
      (forall j :: 0 <= j < |r| ==> x0 <= r[j])
  {
    var r := Integrate(delta, order, x0, constant, eps, argsort);
    var steps := EffectiveSteps(delta, constant, eps);
    forall a, b | 0 <= a <= b < |r| ensures r[order[a]] <= r[order[b]] {
      IntegratedMonotone(x0, steps, a, b);
    }
    forall j | 0 <= j < |r| ensures x0 <= r[j] {
      PermutationCovers(order, |r|, j);
      var k :| 0 <= k < |r| && order[k] == j;
      IntegratedMonotone(x0, steps, 0, k);
    }
  }

  /** Integrating the sorted differences from the smallest value and undoing
      any sorting permutation gives back the input. */
  lemma RoundTrip(x: seq<real>, order: seq<nat>, eps: real, argsort: seq<real> -> seq<nat>)
    requires IsArgSort(argsort) && |x| >= 1 && IsSortingPermutation(order, x)
    ensures var s := Gather(x, order);
      NonNegative(Diff(s)) && Integrate(Diff(s), order, s[0], false, eps, argsort) == x
  {
    var s := Gather(x, order);
    assert NonNegative(Diff(s)) by {
      forall k | 0 <= k < |Diff(s)| ensures 0.0 <= Diff(s)[k] {
        assert x[order[k]] <= x[order[k + 1]];
      }
    }
    IntegratedDiff(s);
    var r := Integrate(Diff(s), order, s[0], false, eps, argsort);
    forall j | 0 <= j < |x| ensures r[j] == x[j] {
      PermutationCovers(order, |x|, j);
      var k :| 0 <= k < |x| && order[k] == j;
    }
  }

  /** `_integrate(*_get_steps(x))` with constant=False reconstructs x. */
  lemma GetStepsRoundTrip(x: seq<real>, eps: real, argsort: seq<real> -> seq<nat>)
    requires IsArgSort(argsort) && |x| >= 1
    ensures var st := GetSteps(x, argsort); Integrate(st.delta, st.order, st.x0, false, eps, argsort) == x
  {
    RoundTrip(x, GetSteps(x, argsort).order, eps, argsort);
  }

  /** With constant=True the value put at order[k] is x0 plus the number of
      the first k steps that exceed eps. */
  lemma IntegrateConstantCounts(delta: seq<real>, order: seq<nat>, x0: real, eps: real,
                                argsort: seq<real> -> seq<nat>)
    requires IsArgSort(argsort) && IsPermutation(order, |delta| + 1) && NonNegative(delta)
    ensures forall k :: 0 <= k <= |delta| ==>
      Integrate(delta, order, x0, true, eps, argsort)[order[k]] == x0 + CountAbove(delta[..k], eps) as real
  {
    forall k | 0 <= k <= |delta|
      ensures Integrate(delta, order, x0, true, eps, argsort)[order[k]] == x0 + CountAbove(delta[..k], eps) as real
    {
      IntegratedThreshold(x0, delta, eps, k);
    }
  }

  /** The inputs on which `_derivate_rank(x, d)` is defined: at every level
      the sequence is non-empty (so its smallest value exists), and at depth
      0 the re-integrated sequence is not all zero (so the final division
      has a non-zero divisor). At the levels above, the divisor is never
      zero; DivisorNonZero proves it. */
  predicate Defined(x: seq<real>, d: nat, eps: real, argsort: seq<real> -> seq<nat>)
    requires IsArgSort(argsort)
    decreases d
  {
    |x| >= 1 &&
    var st := GetSteps(x, argsort);
    if d == 0 then st.x0 != 0.0 || exists k :: 0 <= k < |st.delta| && st.delta[k] > eps
    else Defined(st.delta, d - 1, eps, argsort)
  }

  /** The recursion needs at least d+1 values. */
  lemma {:induction false} DefinedLength(x: seq<real>, d: nat, eps: real, argsort: seq<real> -> seq<nat>)
    requires IsArgSort(argsort) && Defined(x, d, eps, argsort)
    ensures |x| >= d + 1
    decreases d
  {
    if d > 0 {
      DefinedLength(GetSteps(x, argsort).delta, d - 1, eps, argsort);
    }
  }

  /** A re-integrated sequence is not all zero when it starts from a
      non-zero x0 or climbs by some positive step. */
  lemma IntegrateNotAllZero(delta: seq<real>, order: seq<nat>, x0: real, constant: bool, eps: real,
                            argsort: seq<real> -> seq<nat>)
    requires IsArgSort(argsort) && IsPermutation(order, |delta| + 1) && NonNegative(delta)
    requires x0 != 0.0 || exists k :: 0 <= k < |delta| && EffectiveSteps(delta, constant, eps)[k] > 0.0
    ensures MaxAbs(Integrate(delta, order, x0, constant, eps, argsort)) != 0.0
  {
    var r := Integrate(delta, order, x0, constant, eps, argsort);
    var steps := EffectiveSteps(delta, constant, eps);
    if x0 != 0.0 {
      assert Abs(r[order[0]]) <= MaxAbs(r);
    } else {
      var k :| 0 <= k < |delta| && steps[k] > 0.0;
      IntegratedRises(x0, steps, k);
      assert Abs(r[order[k + 1]]) <= MaxAbs(r);
    }
  }

  /** At one level of the recursion, the re-integrated sequence has a
      non-zero element, so the division by its max-abs is defined. Above
      depth 0 the recursive result has max-abs 1 and therefore a step of 1. */
  lemma DivisorNonZero(x: seq<real>, d: nat, eps: real, argsort: seq<real> -> seq<nat>, delta: seq<real>)
    requires IsArgSort(argsort) && Defined(x, d, eps, argsort)
    requires |delta| == |x| - 1 && NonNegative(delta)
    requires d == 0 ==> delta == GetSteps(x, argsort).delta
    requires d > 0 ==> |delta| >= 1 && MaxAbs(delta) == 1.0
    ensures var st := GetSteps(x, argsort); MaxAbs(Integrate(delta, st.order, st.x0, d == 0, eps, argsort)) != 0.0
  {
    var st := GetSteps(x, argsort);
    var steps := EffectiveSteps(delta, d == 0, eps);
    if st.x0 == 0.0 {
      var k: nat;
      if d == 0 {
        k :| k < |delta| && delta[k] > eps;
        assert steps[k] == Threshold(delta, eps)[k] == 1.0;
      } else {
        k :| k < |delta| && Abs(delta[k]) == 1.0;
        assert steps[k] == delta[k] == 1.0;
      }
    }
    IntegrateNotAllZero(delta, st.order, st.x0, d == 0, eps, argsort);
  }

  /** At depth 0 the predicate above is exactly the condition that the
      divisor of the final division is non-zero. */
  lemma DefinedBase(x: seq<real>, eps: real, argsort: seq<real> -> seq<nat>)
    requires IsArgSort(argsort) && |x| >= 1
    ensures var st := GetSteps(x, argsort);
      Defined(x, 0, eps, argsort) <==> MaxAbs(Integrate(st.delta, st.order, st.x0, true, eps, argsort)) != 0.0
  {
    var st := GetSteps(x, argsort);
    if Defined(x, 0, eps, argsort) {
      DivisorNonZero(x, 0, eps, argsort, st.delta);
    } else {
      var r := Integrate(st.delta, st.order, st.x0, true, eps, argsort);
      var steps := Threshold(st.delta, eps);
      forall j | 0 <= j < |r| ensures r[j] == 0.0 {
        PermutationCovers(st.order, |r|, j);
        var k :| 0 <= k < |r| && st.order[k] == j;
        IntegratedFlat(st.x0, steps, 0, k);
      }
      var w :| 0 <= w < |r| && Abs(r[w]) == MaxAbs(r);
    }
  }

  /** `_derivate_rank(x, d)`: the re-integrated sequence divided by its
      largest absolute value. The result has the input's length and largest
      absolute value 1, and it is non-negative for a non-negative input. */
  function DerivateRank(x: seq<real>, d: nat, eps: real, argsort: seq<real> -> seq<nat>): (r: seq<real>)
    requires IsArgSort(argsort) && Defined(x, d, eps, argsort)
    ensures |r| == |x|
    ensures MaxAbs(r) == 1.0
    ensures NonNegative(x) ==> NonNegative(r)
    decreases d, 2
  {
    var s := ReIntegrated(x, d, eps, argsort);
    DivideByMaxAbsKeepsSign(s);
    DivideByMaxAbs(s)
  }

  /** The re-integrated sequence of `_derivate_rank(x, d)`: the level's
      steps integrated back from the smallest value of x in the order of x.
      The steps are non-negative, so the assertion in `_integrate` holds at
      every level, and the sequence is never all zero. */
  function ReIntegrated(x: seq<real>, d: nat, eps: real, argsort: seq<real> -> seq<nat>): (s: seq<real>)
    requires IsArgSort(argsort) && Defined(x, d, eps, argsort)
    ensures |s| == |x| >= 1 && MaxAbs(s) != 0.0
    ensures NonNegative(x) ==> NonNegative(s)
    decreases d, 1
  {
    var st := GetSteps(x, argsort);
    var delta := LevelSteps(st.delta, d, eps, argsort);
    DivisorNonZero(x, d, eps, argsort, delta);
    IntegrateOrdered(delta, st.order, st.x0, d == 0, eps, argsort);
    Integrate(delta, st.order, st.x0, d == 0, eps, argsort)
  }

  /** The steps handed to `_integrate` at depth d: the raw steps themselves
      at depth 0, and their own derivative rank one level down otherwise. */
  function LevelSteps(raw: seq<real>, d: nat, eps: real, argsort: seq<real> -> seq<nat>): (delta: seq<real>)
    requires IsArgSort(argsort) && NonNegative(raw)
    requires d > 0 ==> Defined(raw, d - 1, eps, argsort)
    ensures |delta| == |raw| && NonNegative(delta)
    ensures d > 0 ==> |delta| >= 1 && MaxAbs(delta) == 1.0
    decreases d, 0
  {
    if d == 0 then raw else DerivateRank(raw, d - 1, eps, argsort)
  }

  /** A value of x occurs at some place of the sorting order. */
  lemma PositionOf(x: seq<real>, argsort: seq<real> -> seq<nat>, i: nat) returns (a: nat)
    requires IsArgSort(argsort) && i < |x|
    ensures a < |x| && GetSteps(x, argsort).order[a] == i
  {
    var order := GetSteps(x, argsort).order;
    PermutationCovers(order, |x|, i);
    a :| a < |x| && order[a] == i;
  }

  /** Read in the sorting order of x, the re-integrated sequence starts at
      the smallest value of x and never decreases. */
  lemma ReIntegratedOrdered(x: seq<real>, d: nat, eps: real, argsort: seq<real> -> seq<nat>)
    requires IsArgSort(argsort) && Defined(x, d, eps, argsort)
    ensures var st := GetSteps(x, argsort); var s := ReIntegrated(x, d, eps, argsort);
      s[st.order[0]] == st.x0 &&
      forall a, b :: 0 <= a <= b < |x| ==> s[st.order[a]] <= s[st.order[b]]
  {
    var st := GetSteps(x, argsort);
    IntegrateOrdered(LevelSteps(st.delta, d, eps, argsort), st.order, st.x0, d == 0, eps, argsort);
  }

  /** The result follows the order of the input: read in the sorting order
      it never decreases, so a strictly smaller input value never gets a
      larger result. */
  lemma DerivateRankOrdered(x: seq<real>, d: nat, eps: real, argsort: seq<real> -> seq<nat>)
    requires IsArgSort(argsort) && Defined(x, d, eps, argsort)
    ensures var order := GetSteps(x, argsort).order; var r := DerivateRank(x, d, eps, argsort);
      forall a, b :: 0 <= a <= b < |x| ==> r[order[a]] <= r[order[b]]
    ensures var r := DerivateRank(x, d, eps, argsort);
      forall i, j :: 0 <= i < |x| && 0 <= j < |x| && x[i] < x[j] ==> r[i] <= r[j]
  {
    var order := GetSteps(x, argsort).order;
    var s := ReIntegrated(x, d, eps, argsort);
    ReIntegratedOrdered(x, d, eps, argsort);
    DivideByMaxAbsKeepsOrder(s);
    OrderedAlong(x, order, DerivateRank(x, d, eps, argsort));
  }

  /** Between two equal values of the sorted input every step is zero. */
  lemma SortedRunSteps(x: seq<real>, argsort: seq<real> -> seq<nat>, a: nat, b: nat)
    requires IsArgSort(argsort) && a <= b < |x|
    requires var order := GetSteps(x, argsort).order; x[order[a]] == x[order[b]]
    ensures forall k :: a <= k < b ==> GetSteps(x, argsort).delta[k] == 0.0
  {
    var st := GetSteps(x, argsort);
    forall k | a <= k < b ensures st.delta[k] == 0.0 {
      assert x[st.order[a]] <= x[st.order[k]];
      assert x[st.order[k + 1]] <= x[st.order[b]];
    }
  }

  /** With eps >= 0, the steps _integrate accumulates vanish where the raw
      steps do, provided the deeper level keeps zeros. */
  lemma EffectiveStepsVanish(raw: seq<real>, delta: seq<real>, constant: bool, eps: real, a: nat, b: nat)
    requires |delta| == |raw| && a <= b <= |raw| && eps >= 0.0
    requires forall k :: a <= k < b ==> raw[k] == 0.0
    requires constant ==> delta == raw
    requires forall k :: 0 <= k < |raw| && raw[k] == 0.0 ==> delta[k] == 0.0
    ensures forall k :: a <= k < b ==> EffectiveSteps(delta, constant, eps)[k] == 0.0
  {
  }

  /** With eps >= 0 a stretch of zero steps stays flat through the whole
      recursion: the re-integrated sequence takes one value along it. */
  lemma {:induction false} FlatStretch(x: seq<real>, d: nat, eps: real, argsort: seq<real> -> seq<nat>, a: nat, b: nat)
    requires IsArgSort(argsort) && Defined(x, d, eps, argsort) && eps >= 0.0 && a <= b < |x|
    requires forall k :: a <= k < b ==> GetSteps(x, argsort).delta[k] == 0.0
    ensures var order := GetSteps(x, argsort).order; var s := ReIntegrated(x, d, eps, argsort);
      s[order[a]] == s[order[b]]
    decreases d, 1
  {
    var st := GetSteps(x, argsort);
    var delta := LevelSteps(st.delta, d, eps, argsort);
    LevelStepsKeepZero(st.delta, d, eps, argsort);
    EffectiveStepsVanish(st.delta, delta, d == 0, eps, a, b);
    IntegratedFlat(st.x0, EffectiveSteps(delta, d == 0, eps), a, b);
  }

  /** With eps >= 0 the steps of a level are zero where the raw steps are. */
  lemma {:induction false} LevelStepsKeepZero(raw: seq<real>, d: nat, eps: real, argsort: seq<real> -> seq<nat>)
    requires IsArgSort(argsort) && NonNegative(raw) && eps >= 0.0
    requires d > 0 ==> Defined(raw, d - 1, eps, argsort)
    ensures var delta := LevelSteps(raw, d, eps, argsort);
      forall k :: 0 <= k < |raw| && raw[k] == 0.0 ==> delta[k] == 0.0
    decreases d, 0
  {
    if d > 0 {
      DerivateRankKeepsZero(raw, d - 1, eps, argsort);
    }
  }

  /** With eps >= 0 and a non-negative input, zeros of the input stay zero:
      a zero is the smallest value, so only zero steps lead up to it. */
  lemma {:induction false} DerivateRankKeepsZero(x: seq<real>, d: nat, eps: real, argsort: seq<real> -> seq<nat>)
    requires IsArgSort(argsort) && Defined(x, d, eps, argsort) && eps >= 0.0 && NonNegative(x)
    ensures var r := DerivateRank(x, d, eps, argsort);
      forall i :: 0 <= i < |x| && x[i] == 0.0 ==> r[i] == 0.0
    decreases d, 2
  {
    var st := GetSteps(x, argsort);
    var s := ReIntegrated(x, d, eps, argsort);
    ReIntegratedOrdered(x, d, eps, argsort);
    DivideByMaxAbsKeepsSign(s);
    forall i | 0 <= i < |x| && x[i] == 0.0 ensures s[i] == 0.0 {
      var b := PositionOf(x, argsort, i);
      SortedRunSteps(x, argsort, 0, b);
      FlatStretch(x, d, eps, argsort, 0, b);
    }
  }

  /** With eps >= 0 equal inputs get equal results, whatever order argsort
      puts them in. */
  lemma DerivateRankTies(x: seq<real>, d: nat, eps: real, argsort: seq<real> -> seq<nat>)
    requires IsArgSort(argsort) && Defined(x, d, eps, argsort) && eps >= 0.0
    ensures var r := DerivateRank(x, d, eps, argsort);
      forall i, j :: 0 <= i < |x| && 0 <= j < |x| && x[i] == x[j] ==> r[i] == r[j]
  {
    ReIntegratedTies(x, d, eps, argsort);
    DivideByMaxAbsKeepsTies(x, ReIntegrated(x, d, eps, argsort));
  }

  /** Any two argsorts give the same steps and the same smallest value:
      they read the same sorted sequence. */
  lemma GetStepsSameValues(x: seq<real>, a1: seq<real> -> seq<nat>, a2: seq<real> -> seq<nat>)
    requires IsArgSort(a1) && IsArgSort(a2) && |x| >= 1
    ensures GetSteps(x, a1).delta == GetSteps(x, a2).delta && GetSteps(x, a1).x0 == GetSteps(x, a2).x0
  {
    SortingPermutationsAgree(x, GetSteps(x, a1).order, GetSteps(x, a2).order);
  }

  /** Whether the recursion is defined does not depend on the argsort. */
  lemma {:induction false} DefinedAnyArgSort(x: seq<real>, d: nat, eps: real,
                                             a1: seq<real> -> seq<nat>, a2: seq<real> -> seq<nat>)
    requires IsArgSort(a1) && IsArgSort(a2) && Defined(x, d, eps, a1)
    ensures Defined(x, d, eps, a2)
    decreases d
  {
    GetStepsSameValues(x, a1, a2);
    if d > 0 {
      DefinedAnyArgSort(GetSteps(x, a1).delta, d - 1, eps, a1, a2);
    }
    DefinedSameSteps(x, d, eps, a1, a2);
  }

  /** One level of the lemma above: equal steps and smallest values carry
      `Defined` over from one argsort to the other. */
  lemma DefinedSameSteps(x: seq<real>, d: nat, eps: real,
                         a1: seq<real> -> seq<nat>, a2: seq<real> -> seq<nat>)
    requires IsArgSort(a1) && IsArgSort(a2) && Defined(x, d, eps, a1)
    requires GetSteps(x, a1).delta == GetSteps(x, a2).delta && GetSteps(x, a1).x0 == GetSteps(x, a2).x0
    requires d > 0 ==> Defined(GetSteps(x, a1).delta, d - 1, eps, a2)
    ensures Defined(x, d, eps, a2)
  {
    var st1, st2 := GetSteps(x, a1), GetSteps(x, a2);
    if d == 0 && st1.x0 == 0.0 {
      var k :| 0 <= k < |st1.delta| && st1.delta[k] > eps;
      assert st2.delta[k] > eps;
    }
  }

  /** With eps >= 0 the result does not depend on the order in which
      argsort puts equal values: every argsort gives the same result. */
  lemma {:induction false} DerivateRankAnyArgSort(x: seq<real>, d: nat, eps: real,
                                                  a1: seq<real> -> seq<nat>, a2: seq<real> -> seq<nat>)
    requires IsArgSort(a1) && IsArgSort(a2) && Defined(x, d, eps, a1) && eps >= 0.0
    ensures Defined(x, d, eps, a2) && DerivateRank(x, d, eps, a1) == DerivateRank(x, d, eps, a2)
    decreases d, 2
  {
    ReIntegratedAnyArgSort(x, d, eps, a1, a2);
  }

  /** The re-integrated sequence of the lemma above is the same for both
      argsorts: where their orders differ, they differ inside a run of
      equal values, along which the re-integrated sequence is flat. */
  lemma {:induction false} ReIntegratedAnyArgSort(x: seq<real>, d: nat, eps: real,
                                                  a1: seq<real> -> seq<nat>, a2: seq<real> -> seq<nat>)
    requires IsArgSort(a1) && IsArgSort(a2) && Defined(x, d, eps, a1) && eps >= 0.0
    ensures Defined(x, d, eps, a2) && ReIntegrated(x, d, eps, a1) == ReIntegrated(x, d, eps, a2)
    decreases d, 1
  {
    DefinedAnyArgSort(x, d, eps, a1, a2);
    GetStepsSameValues(x, a1, a2);
    LevelStepsAnyArgSort(GetSteps(x, a1).delta, d, eps, a1, a2);
    SameStepsSameReIntegrated(x, d, eps, a1, a2);
  }

  /** The steps of a level are the same for any two argsorts. */
  lemma {:induction false} LevelStepsAnyArgSort(raw: seq<real>, d: nat, eps: real,
                                                a1: seq<real> -> seq<nat>, a2: seq<real> -> seq<nat>)
    requires IsArgSort(a1) && IsArgSort(a2) && NonNegative(raw) && eps >= 0.0
    requires d > 0 ==> Defined(raw, d - 1, eps, a1)
    ensures d > 0 ==> Defined(raw, d - 1, eps, a2)
    ensures LevelSteps(raw, d, eps, a1) == LevelSteps(raw, d, eps, a2)
    decreases d, 0
  {
    if d > 0 {
      DerivateRankAnyArgSort(raw, d - 1, eps, a1, a2);
    }
  }

  /** Two argsorts that lead to the same steps at a level give the same
      re-integrated sequence. */
  lemma SameStepsSameReIntegrated(x: seq<real>, d: nat, eps: real,
                                  a1: seq<real> -> seq<nat>, a2: seq<real> -> seq<nat>)
    requires IsArgSort(a1) && IsArgSort(a2) && eps >= 0.0
    requires Defined(x, d, eps, a1) && Defined(x, d, eps, a2)
    requires GetSteps(x, a1).x0 == GetSteps(x, a2).x0
    requires LevelSteps(GetSteps(x, a1).delta, d, eps, a1) == LevelSteps(GetSteps(x, a2).delta, d, eps, a2)
    ensures ReIntegrated(x, d, eps, a1) == ReIntegrated(x, d, eps, a2)
  {
    var st1, st2 := GetSteps(x, a1), GetSteps(x, a2);
    var s1, s2 := ReIntegrated(x, d, eps, a1), ReIntegrated(x, d, eps, a2);
    ReIntegratedTies(x, d, eps, a1);
    SortingPermutationsAgree(x, st1.order, st2.order);
    forall i | 0 <= i < |x| ensures s1[i] == s2[i] {
      var c := PositionOf(x, a2, i);
      assert x[st1.order[c]] == Gather(x, st1.order)[c] == Gather(x, st2.order)[c] == x[i];
      ReIntegratedAt(x, d, eps, a1, c);
      ReIntegratedAt(x, d, eps, a2, c);
    }
  }

  /** The re-integrated sequence puts the k-th integrated value at order[k]. */
  lemma ReIntegratedAt(x: seq<real>, d: nat, eps: real, argsort: seq<real> -> seq<nat>, k: nat)
    requires IsArgSort(argsort) && Defined(x, d, eps, argsort) && k < |x|
    ensures var st := GetSteps(x, argsort);
      ReIntegrated(x, d, eps, argsort)[st.order[k]] ==
      Integrated(st.x0, EffectiveSteps(LevelSteps(st.delta, d, eps, argsort), d == 0, eps))[k]
  {
  }

  /** With eps >= 0 the re-integrated sequence takes one value on every run
      of equal input values. */
  lemma ReIntegratedTies(x: seq<real>, d: nat, eps: real, argsort: seq<real> -> seq<nat>)
    requires IsArgSort(argsort) && Defined(x, d, eps, argsort) && eps >= 0.0
    ensures SameOnTies(x, ReIntegrated(x, d, eps, argsort))
  {
    var s := ReIntegrated(x, d, eps, argsort);
    forall i, j | 0 <= i < |x| && 0 <= j < |x| && x[i] == x[j] ensures s[i] == s[j] {
      var a := PositionOf(x, argsort, i);
      var b := PositionOf(x, argsort, j);
      if a <= b {
        SortedRunSteps(x, argsort, a, b);
        FlatStretch(x, d, eps, argsort, a, b);
      } else {
        SortedRunSteps(x, argsort, b, a);
        FlatStretch(x, d, eps, argsort, b, a);
      }
    }
  }

  /** With eps >= 0 the scaling is monotone: x[i] <= x[j] gives r[i] <= r[j]. */
  lemma DerivateRankMonotone(x: seq<real>, d: nat, eps: real, argsort: seq<real> -> seq<nat>)
    requires IsArgSort(argsort) && Defined(x, d, eps, argsort) && eps >= 0.0
    ensures var r := DerivateRank(x, d, eps, argsort);
      forall i, j :: 0 <= i < |x| && 0 <= j < |x| && x[i] <= x[j] ==> r[i] <= r[j]
    ensures Sorted(x) ==> Sorted(DerivateRank(x, d, eps, argsort))
  {
    DerivateRankOrdered(x, d, eps, argsort);
    DerivateRankTies(x, d, eps, argsort);
    if Sorted(x) {
      FollowsSorted(x, DerivateRank(x, d, eps, argsort));
    }
  }
}
