/**
 Largest-first sharding of the evaluation workflows (eval/shard_run.py), which is
 Graham's LPT scheduler. The main result is his guarantee: the fullest shard is within
 a factor 4/3 - 1/(3n) of the best possible split, for every table of case counts.
 */
module LptSharding {

  /** The pair of lists that `balanced_shards` builds. */
  datatype Plan = Plan(shards: seq<seq<string>>, loads: seq<nat>)

  /** `min([])` raises in Python; everything else returns a plan. */
  datatype Outcome = Planned(plan: Plan) | ValueError

  /** A dictionary with its insertion order: distinct names, one count each. */
  ghost predicate IsDict(order: seq<string>, counts: map<string, nat>) {
    && (forall i, j :: 0 <= i < j < |order| ==> order[i] != order[j])
    && (forall w :: w in order <==> w in counts)
  }

  // ---------------------------------------------------------------------------
  // Loads of an arbitrary assignment
  // ---------------------------------------------------------------------------

  function Sum(p: seq<nat>): nat {
    if p == [] then 0 else Sum(p[..|p| - 1]) + p[|p| - 1]
  }

  /** Total size of the jobs that assignment `a` sends to machine `k`. */
  function Load(p: seq<nat>, a: seq<nat>, k: nat): nat
    requires |a| == |p|
  {
    if p == [] then 0
    else Load(p[..|p| - 1], a[..|p| - 1], k) + if a[|p| - 1] == k then p[|p| - 1] else 0
  }

  ghost predicate Below(a: seq<nat>, n: nat) {
    forall i :: 0 <= i < |a| ==> a[i] < n
  }

  ghost predicate Descending(p: seq<nat>) {
    forall i, j :: 0 <= i < j < |p| ==> p[i] >= p[j]
  }

  /** Sum of the loads of machines `0 .. n - 1`. */
  function TotalLoad(p: seq<nat>, a: seq<nat>, n: nat): nat
    requires |a| == |p|
  {
    if n == 0 then 0 else TotalLoad(p, a, n - 1) + Load(p, a, n - 1)
  }

  lemma {:induction false} TotalLoadOfNothing(n: nat)
    ensures TotalLoad([], [], n) == 0
  {
    if n > 0 { TotalLoadOfNothing(n - 1); }
  }

  lemma {:induction false} TotalLoadStep(p: seq<nat>, a: seq<nat>, n: nat)
    requires |a| == |p| > 0
    ensures TotalLoad(p, a, n)
         == TotalLoad(p[..|p| - 1], a[..|p| - 1], n) + if a[|p| - 1] < n then p[|p| - 1] else 0
  {
    if n > 0 { TotalLoadStep(p, a, n - 1); }
  }

  /** No work is lost: the loads add up to the work, whatever the assignment. */
  lemma {:induction false} LoadsAddUp(p: seq<nat>, a: seq<nat>, n: nat)
    requires |a| == |p| && Below(a, n)
    ensures TotalLoad(p, a, n) == Sum(p)
  {
    if p == [] {
      TotalLoadOfNothing(n);
    } else {
      TotalLoadStep(p, a, n);
      LoadsAddUp(p[..|p| - 1], a[..|p| - 1], n);
    }
  }

  lemma {:induction false} TotalAtLeast(p: seq<nat>, a: seq<nat>, n: nat, low: nat)
    requires |a| == |p|
    requires forall k: nat :: k < n ==> Load(p, a, k) >= low
    ensures TotalLoad(p, a, n) >= n * low
  {
    if n > 0 { TotalAtLeast(p, a, n - 1, low); }
  }

  lemma {:induction false} TotalAtMost(p: seq<nat>, a: seq<nat>, n: nat, high: nat)
    requires |a| == |p|
    requires forall k: nat :: k < n ==> Load(p, a, k) <= high
    ensures TotalLoad(p, a, n) <= n * high
  {
    if n > 0 { TotalAtMost(p, a, n - 1, high); }
  }

  lemma {:induction false} PrefixLoad(p: seq<nat>, a: seq<nat>, m: nat, k: nat)
    requires |a| == |p| && m <= |p|
    ensures Load(p[..m], a[..m], k) <= Load(p, a, k)
  {
    if m < |p| {
      PrefixLoad(p[..|p| - 1], a[..|p| - 1], m, k);
      assert p[..|p| - 1][..m] == p[..m] && a[..|p| - 1][..m] == a[..m];
    } else {
      assert p[..m] == p && a[..m] == a;
    }
  }

  lemma {:induction false} JobFitsItsLoad(p: seq<nat>, a: seq<nat>, i: nat)
    requires |a| == |p| && i < |p|
    ensures p[i] <= Load(p, a, a[i])
  {
    if i < |p| - 1 { JobFitsItsLoad(p[..|p| - 1], a[..|p| - 1], i); }
  }

  // ---------------------------------------------------------------------------
  // Large jobs: when every job exceeds a third of the target, greedy is optimal
  // ---------------------------------------------------------------------------

  /** Weight 2 for a job that cannot share a machine with the last job, else 1. */
  function Weights(p: seq<nat>, last: nat, target: nat): (w: seq<nat>)
    ensures |w| == |p|
    ensures forall i :: 0 <= i < |p| ==> w[i] == if p[i] + last > target then 2 else 1
  {
    seq(|p|, i requires 0 <= i < |p| => if p[i] + last > target then 2 else 1)
  }

  /** A machine the last job does not fit on carries weight at least 2. */
  lemma {:induction false} FullMachineWeighsTwo(p: seq<nat>, a: seq<nat>, k: nat, last: nat, target: nat)
    requires |a| == |p|
    ensures var w := Load(Weights(p, last, target), a, k);
            && (w == 0 ==> Load(p, a, k) == 0)
            && (w == 1 ==> Load(p, a, k) + last <= target)
  {
    if p != [] {
      var m := |p| - 1;
      assert Weights(p, last, target)[..m] == Weights(p[..m], last, target);
      FullMachineWeighsTwo(p[..m], a[..m], k, last, target);
    }
  }

  /** A machine of weight 3 or more overshoots the target when all jobs exceed a third of it. */
  lemma {:induction false} HeavyMachineOvershoots(p: seq<nat>, a: seq<nat>, k: nat, last: nat, target: nat)
    requires |a| == |p| && 3 * last > target
    requires forall i :: 0 <= i < |p| ==> p[i] >= last
    ensures var w, load := Load(Weights(p, last, target), a, k), Load(p, a, k);
            && (w >= 1 ==> load >= last)
            && (w >= 2 ==> load + last > target)
            && (w >= 3 ==> load > target)
  {
    if p != [] {
      var m := |p| - 1;
      assert Weights(p, last, target)[..m] == Weights(p[..m], last, target);
      HeavyMachineOvershoots(p[..m], a[..m], k, last, target);
    }
  }

  /** If some schedule of all the jobs meets the target, the greedy one has room for the last job. */
  lemma LargeJobsFit(p: seq<nat>, last: nat, greedy: seq<nat>, other: seq<nat>, n: nat, target: nat)
    requires |greedy| == |p| && |other| == |p| + 1
    requires Descending(p + [last]) && Below(greedy, n) && Below(other, n)
    requires forall k: nat :: k < n ==> Load(p + [last], other, k) <= target
    requires 3 * last > target
    ensures exists k: nat :: k < n && Load(p, greedy, k) <= target - last
  {
    if forall k: nat :: k < n ==> Load(p, greedy, k) > target - last {
      var all := p + [last];
      var w, w' := Weights(p, last, target), Weights(all, last, target);
      assert w' == w + [w'[|p|]] && w'[..|p|] == w && |w'| == |p| + 1;
      forall k: nat | k < n
        ensures Load(w, greedy, k) >= 2 && Load(w', other, k) <= 2
      {
        FullMachineWeighsTwo(p, greedy, k, last, target);
        assert all[|p|] == last;
        JobFitsItsLoad(all, other, |p|);
        HeavyMachineOvershoots(all, other, k, last, target);
      }
      TotalAtLeast(w, greedy, n, 2);
      LoadsAddUp(w, greedy, n);
      TotalAtMost(w', other, n, 2);
      LoadsAddUp(w', other, n);
    }
  }

  /** One greedy placement keeps Graham's bound against any schedule of the same jobs. */
  lemma PlacementBound(p: seq<nat>, last: nat, greedy: seq<nat>, other: seq<nat>, n: nat, least: nat, target: nat)
    requires |greedy| == |p| && |other| == |p| + 1 && n >= 1
    requires Descending(p + [last]) && Below(greedy, n) && Below(other, n)
    requires forall k: nat :: k < n ==> Load(p + [last], other, k) <= target
    requires forall k: nat :: k < n ==> least <= Load(p, greedy, k)
    ensures WithinGraham(n, least + last, target)
  {
    if 3 * last > target {
      LargeJobsFit(p, last, greedy, other, n, target);
      GrahamLarge(n, least + last, target);
    } else {
      TotalAtLeast(p, greedy, n, least);
      LoadsAddUp(p, greedy, n);
      TotalAtMost(p + [last], other, n, target);
      LoadsAddUp(p + [last], other, n);
      assert (p + [last])[..|p|] == p;
      GrahamSmall(n, least, last, target);
    }
  }

  lemma GrahamLarge(n: nat, load: nat, target: nat)
    requires n >= 1 && load <= target
    ensures WithinGraham(n, load, target)
  {
    assert n * load <= n * target;
    assert (4 * n - 1) * target == 3 * (n * target) + (n * target - target);
    assert n * target >= target;
  }

  lemma GrahamSmall(n: nat, least: nat, last: nat, target: nat)
    requires n >= 1 && 3 * last <= target && n * least + last <= n * target
    ensures WithinGraham(n, least + last, target)
  {
    var a, b, c := n * least, n * last, n * target;
    assert 3 * n * (least + last) == 3 * a + 3 * b;
    assert (4 * n - 1) * target == 4 * c - target;
    assert (n - 1) * (3 * last) <= (n - 1) * target;
    assert (n - 1) * (3 * last) == 3 * b - 3 * last;
    assert (n - 1) * target == c - target;
  }

  // ---------------------------------------------------------------------------
  // The greedy plan
  // ---------------------------------------------------------------------------

  /** `loads.index(min(loads))`: the first position of the smallest load. */
  function FirstMin(loads: seq<nat>): (i: nat)
    requires loads != []
    ensures i < |loads|
    ensures forall j :: 0 <= j < |loads| ==> loads[i] <= loads[j]
    ensures forall j :: 0 <= j < i ==> loads[i] < loads[j]
  {
    var m := |loads| - 1;
    if m == 0 then 0
    else
      var i := FirstMin(loads[..m]);
      if loads[m] < loads[i] then m else i
  }

  /** The case count of a workflow. */
  function Size(counts: map<string, nat>, w: string): nat {
    if w in counts then counts[w] else 0
  }

  function Place(plan: Plan, w: string, size: nat): Plan
    requires |plan.shards| == |plan.loads| > 0
  {
    var i := FirstMin(plan.loads);
    Plan(plan.shards[i := plan.shards[i] + [w]], plan.loads[i := plan.loads[i] + size])
  }

  /** The plan after placing the workflows `ws` in that order on `n` shards. */
  function Greedy(ws: seq<string>, counts: map<string, nat>, n: nat): (plan: Plan)
    requires n >= 1
    ensures |plan.shards| == |plan.loads| == n
  {
    if ws == [] then Plan(seq(n, _ => []), seq(n, _ => 0))
    else Place(Greedy(ws[..|ws| - 1], counts, n), ws[|ws| - 1], Size(counts, ws[|ws| - 1]))
  }

  function Sizes(ws: seq<string>, counts: map<string, nat>): (p: seq<nat>)
    ensures |p| == |ws|
    ensures forall i :: 0 <= i < |ws| ==> p[i] == Size(counts, ws[i])
  {
    seq(|ws|, i requires 0 <= i < |ws| => Size(counts, ws[i]))
  }

  /** Which shard each workflow went to. */
  ghost function Choices(ws: seq<string>, counts: map<string, nat>, n: nat): (a: seq<nat>)
    requires n >= 1
    ensures |a| == |ws| && Below(a, n)
  {
    if ws == [] then []
    else
      var front := ws[..|ws| - 1];
      Choices(front, counts, n) + [FirstMin(Greedy(front, counts, n).loads)]
  }

  lemma GreedyStep(ws: seq<string>, w: string, counts: map<string, nat>, n: nat)
    requires n >= 1
    ensures Greedy(ws + [w], counts, n) == Place(Greedy(ws, counts, n), w, Size(counts, w))
  {
    assert (ws + [w])[..|ws|] == ws;
  }

  lemma {:induction false} LoadsFollowChoices(ws: seq<string>, counts: map<string, nat>, n: nat, k: nat)
    requires n >= 1 && k < n
    ensures Greedy(ws, counts, n).loads[k] == Load(Sizes(ws, counts), Choices(ws, counts, n), k)
  {
    if ws != [] {
      var front := ws[..|ws| - 1];
      LoadsFollowChoices(front, counts, n, k);
      assert Sizes(ws, counts)[..|front|] == Sizes(front, counts);
      assert Choices(ws, counts, n)[..|front|] == Choices(front, counts, n);
    }
  }

  /** Prefixes of an assignment stay below its makespan, and greedy loads are loads of its choices. */
  lemma PrefixSetting(ws: seq<string>, w: string, counts: map<string, nat>, n: nat, other: seq<nat>, target: nat)
    requires n >= 1
    requires |other| == |ws| + 1
    requires forall m: nat :: m < n ==> Load(Sizes(ws + [w], counts), other, m) <= target
    ensures Sizes(ws + [w], counts) == Sizes(ws, counts) + [Size(counts, w)]
    ensures forall m: nat :: m < n ==> Load(Sizes(ws, counts), other[..|ws|], m) <= target
    ensures forall m: nat :: m < n ==>
      Greedy(ws, counts, n).loads[m] == Load(Sizes(ws, counts), Choices(ws, counts, n), m)
  {
    var p := Sizes(ws + [w], counts);
    assert p[..|ws|] == Sizes(ws, counts);
    forall m: nat | m < n
      ensures Load(Sizes(ws, counts), other[..|ws|], m) <= target
      ensures Greedy(ws, counts, n).loads[m] == Load(Sizes(ws, counts), Choices(ws, counts, n), m)
    {
      PrefixLoad(p, other, |ws|, m);
      LoadsFollowChoices(ws, counts, n, m);
    }
  }

  /** Graham's ratio between a load and the makespan of another assignment. */
  predicate WithinGraham(n: nat, load: nat, target: nat) {
    3 * n * load <= (4 * n - 1) * target
  }

  /**
   The induction behind Graham's theorem: placing workflows largest first, no shard exceeds
   the largest load `cap` that the ratio allows against another assignment's makespan `target`.
   */
  lemma {:induction false} GreedyBelowCap(
    ws: seq<string>, counts: map<string, nat>, n: nat, other: seq<nat>, target: nat, cap: nat, k: nat)
    requires n >= 1 && Descending(Sizes(ws, counts))
    requires |other| == |ws| && Below(other, n) && k < n
    requires forall m: nat :: m < n ==> Load(Sizes(ws, counts), other, m) <= target
    requires forall x: nat :: WithinGraham(n, x, target) ==> x <= cap
    ensures Greedy(ws, counts, n).loads[k] <= cap
  {
    if ws != [] {
      var h := |ws| - 1;
      var front, w := ws[..h], ws[h];
      assert ws == front + [w];
      PrefixSetting(front, w, counts, n, other, target);
      GreedyBelowCap(front, counts, n, other[..h], target, cap, k);
      GreedyStep(front, w, counts, n);
      var loads := Greedy(front, counts, n).loads;
      PlacementBound(Sizes(front, counts), Size(counts, w), Choices(front, counts, n), other, n,
                     loads[FirstMin(loads)], target);
    }
  }

  lemma QuotientIsCap(a: nat, b: nat, x: nat)
    requires a > 0
    ensures a * x <= b <==> x <= b / a
  {
    assert b == a * (b / a) + b % a;
    if x <= b / a {
      assert a * x <= a * (b / a);
    } else {
      assert a * x >= a * (b / a + 1) == a * (b / a) + a;
    }
  }

  lemma RatioAsCap(n: nat, target: nat) returns (cap: nat)
    requires n >= 1
    ensures forall x: nat :: WithinGraham(n, x, target) <==> x <= cap
  {
    cap := ((4 * n - 1) * target) / (3 * n);
    forall x: nat ensures WithinGraham(n, x, target) <==> x <= cap {
      QuotientIsCap(3 * n, (4 * n - 1) * target, x);
    }
  }

  // ---------------------------------------------------------------------------
  // Partition and balance
  // ---------------------------------------------------------------------------

  function Flatten(shards: seq<seq<string>>): seq<string> {
    if shards == [] then [] else Flatten(shards[..|shards| - 1]) + shards[|shards| - 1]
  }

  lemma {:induction false} FlattenGrows(shards: seq<seq<string>>, i: nat, w: string)
    requires i < |shards|
    ensures multiset(Flatten(shards[i := shards[i] + [w]])) == multiset(Flatten(shards)) + multiset{w}
  {
    var m := |shards| - 1;
    var shards' := shards[i := shards[i] + [w]];
    if i < m {
      FlattenGrows(shards[..m], i, w);
      assert shards'[..m] == shards[..m][i := shards[i] + [w]];
    } else {
      assert shards'[..m] == shards[..m];
    }
  }

  lemma {:induction false} FlattenEmpty(n: nat)
    ensures Flatten(seq(n, _ => [])) == []
  {
    if n > 0 {
      var empty: seq<seq<string>> := seq(n, _ => []);
      assert empty[..n - 1] == seq(n - 1, _ => []);
      FlattenEmpty(n - 1);
    }
  }

  lemma {:induction false} ShardsHoldEverything(ws: seq<string>, counts: map<string, nat>, n: nat)
    requires n >= 1
    ensures multiset(Flatten(Greedy(ws, counts, n).shards)) == multiset(ws)
  {
    if ws == [] {
      FlattenEmpty(n);
    } else {
      var front, w := ws[..|ws| - 1], ws[|ws| - 1];
      assert ws == front + [w];
      ShardsHoldEverything(front, counts, n);
      GreedyStep(front, w, counts, n);
      var prev := Greedy(front, counts, n);
      FlattenGrows(prev.shards, FirstMin(prev.loads), w);
    }
  }

  ghost predicate LoadIsShardTotal(plan: Plan, counts: map<string, nat>, k: nat)
    requires k < |plan.shards| == |plan.loads|
  {
    plan.loads[k] == Sum(Sizes(plan.shards[k], counts))
  }

  lemma {:induction false} LoadsAreShardTotals(ws: seq<string>, counts: map<string, nat>, n: nat, k: nat)
    requires n >= 1 && k < n
    ensures LoadIsShardTotal(Greedy(ws, counts, n), counts, k)
  {
    if ws != [] {
      var front, w := ws[..|ws| - 1], ws[|ws| - 1];
      assert ws == front + [w];
      LoadsAreShardTotals(front, counts, n, k);
      GreedyStep(front, w, counts, n);
      var shard := Greedy(front, counts, n).shards[k];
      assert Sizes(shard + [w], counts)[..|shard|] == Sizes(shard, counts);
    }
  }

  /** No two shards differ by more than the largest workflow. */
  lemma {:induction false} GreedyBalanced(ws: seq<string>, counts: map<string, nat>, n: nat, largest: nat, k: nat, l: nat)
    requires n >= 1 && k < n && l < n
    requires forall i :: 0 <= i < |ws| ==> Size(counts, ws[i]) <= largest
    ensures Greedy(ws, counts, n).loads[k] <= Greedy(ws, counts, n).loads[l] + largest
  {
    if ws != [] {
      var front, w := ws[..|ws| - 1], ws[|ws| - 1];
      assert ws == front + [w];
      GreedyBalanced(front, counts, n, largest, k, l);
      GreedyStep(front, w, counts, n);
    }
  }

  // ---------------------------------------------------------------------------
  // The sort
  // ---------------------------------------------------------------------------

  function InsertDescending(sorted: seq<string>, w: string, counts: map<string, nat>): seq<string> {
    var m := |sorted| - 1;
    if sorted == [] || Size(counts, sorted[m]) >= Size(counts, w) then sorted + [w]
    else InsertDescending(sorted[..m], w, counts) + [sorted[m]]
  }

  /** `sorted(counts.items(), key=lambda kv: -kv[1])`, a stable sort. */
  function SortDescending(ws: seq<string>, counts: map<string, nat>): (s: seq<string>)
    ensures multiset(s) == multiset(ws)
  {
    if ws == [] then []
    else
      var m := |ws| - 1;
      var s := SortDescending(ws[..m], counts);
      InsertKeepsContents(s, ws[m], counts);
      assert ws == ws[..m] + [ws[m]];
      InsertDescending(s, ws[m], counts)
  }

  lemma {:induction false} InsertKeepsContents(s: seq<string>, w: string, counts: map<string, nat>)
    ensures var t := InsertDescending(s, w, counts);
            multiset(t) == multiset(s) + multiset{w}
  {
    var m := |s| - 1;
    if s != [] && Size(counts, s[m]) < Size(counts, w) {
      InsertKeepsContents(s[..m], w, counts);
      assert s == s[..m] + [s[m]];
    }
  }

  lemma {:induction false} InsertSorts(s: seq<string>, w: string, counts: map<string, nat>)
    requires Descending(Sizes(s, counts))
    ensures var t := InsertDescending(s, w, counts);
            Descending(Sizes(t, counts))
  {
    hide Sizes;
    InsertKeepsContents(s, w, counts);
    var m := |s| - 1;
    var t := InsertDescending(s, w, counts);
    if s != [] && Size(counts, s[m]) < Size(counts, w) {
      assert Sizes(s, counts)[..m] == Sizes(s[..m], counts);
      InsertSorts(s[..m], w, counts);
      InsertKeepsContents(s[..m], w, counts);
      var t' := InsertDescending(s[..m], w, counts);
      assert Sizes(t, counts)[..|t'|] == Sizes(t', counts);
      forall i | 0 <= i < |t'| ensures Size(counts, t'[i]) >= Size(counts, s[m]) {
        assert t'[i] in multiset(t');
        if t'[i] != w {
          assert t'[i] in s[..m];
          var j :| 0 <= j < m && s[j] == t'[i];
          assert Sizes(s, counts)[j] >= Sizes(s, counts)[m];
        }
      }
      forall i, j | 0 <= i < j < |t| ensures Sizes(t, counts)[i] >= Sizes(t, counts)[j] {
        if j < |t'| { assert Sizes(t', counts)[i] >= Sizes(t', counts)[j]; }
      }
    }
  }

  /** Workflows with exactly `c` cases, in order. */
  function WithCount(ws: seq<string>, counts: map<string, nat>, c: nat): seq<string> {
    if ws == [] then []
    else
      var w := ws[|ws| - 1];
      WithCount(ws[..|ws| - 1], counts, c) + if Size(counts, w) == c then [w] else []
  }

  lemma WithCountStep(ws: seq<string>, w: string, counts: map<string, nat>, c: nat)
    ensures WithCount(ws + [w], counts, c) == WithCount(ws, counts, c) + if Size(counts, w) == c then [w] else []
  {
    assert (ws + [w])[..|ws|] == ws;
  }

  lemma {:induction false} InsertIsStable(s: seq<string>, w: string, counts: map<string, nat>, c: nat)
    ensures WithCount(InsertDescending(s, w, counts), counts, c)
         == WithCount(s, counts, c) + if Size(counts, w) == c then [w] else []
  {
    var m := |s| - 1;
    if s != [] && Size(counts, s[m]) < Size(counts, w) {
      InsertIsStable(s[..m], w, counts, c);
      WithCountStep(InsertDescending(s[..m], w, counts), s[m], counts, c);
      WithCountStep(s[..m], s[m], counts, c);
      assert s == s[..m] + [s[m]];
    } else {
      WithCountStep(s, w, counts, c);
    }
  }

  /** The order the greedy loop sees: largest first, ties in dictionary order. */
  lemma {:induction false} SortIsStable(ws: seq<string>, counts: map<string, nat>, c: nat)
    ensures Descending(Sizes(SortDescending(ws, counts), counts))
    ensures WithCount(SortDescending(ws, counts), counts, c) == WithCount(ws, counts, c)
  {
    if ws != [] {
      var m := |ws| - 1;
      SortIsStable(ws[..m], counts, c);
      InsertSorts(SortDescending(ws[..m], counts), ws[m], counts);
      InsertIsStable(SortDescending(ws[..m], counts), ws[m], counts, c);
    }
  }

  // ---------------------------------------------------------------------------
  // Splits of the dictionary, independent of any order
  // ---------------------------------------------------------------------------

  /** An arbitrary way to split the workflows over `n` shards. */
  ghost predicate IsSplit(split: map<string, nat>, counts: map<string, nat>, n: nat) {
    forall w :: w in counts ==> w in split && split[w] < n
  }

  ghost function Along(ws: seq<string>, split: map<string, nat>): (a: seq<nat>)
    ensures |a| == |ws|
    ensures forall i :: 0 <= i < |ws| ==> a[i] == Size(split, ws[i])
  {
    Sizes(ws, split)
  }

  ghost function Share(w: string, counts: map<string, nat>, split: map<string, nat>, k: nat): nat {
    if Size(split, w) == k then Size(counts, w) else 0
  }

  ghost function SplitLoad(ws: seq<string>, counts: map<string, nat>, split: map<string, nat>, k: nat): nat {
    if ws == [] then 0
    else SplitLoad(ws[..|ws| - 1], counts, split, k) + Share(ws[|ws| - 1], counts, split, k)
  }

  lemma {:induction false} SplitLoadIsLoad(ws: seq<string>, counts: map<string, nat>, split: map<string, nat>, k: nat)
    ensures SplitLoad(ws, counts, split, k) == Load(Sizes(ws, counts), Along(ws, split), k)
  {
    if ws != [] {
      var m := |ws| - 1;
      SplitLoadIsLoad(ws[..m], counts, split, k);
      assert Sizes(ws, counts)[..m] == Sizes(ws[..m], counts);
      assert Along(ws, split)[..m] == Along(ws[..m], split);
    }
  }

  ghost function FullestShard(ws: seq<string>, counts: map<string, nat>, split: map<string, nat>, n: nat): (b: nat)
    requires n >= 1
    ensures b < n
    ensures forall k: nat :: k < n ==> SplitLoad(ws, counts, split, k) <= SplitLoad(ws, counts, split, b)
  {
    if n == 1 then 0
    else
      var b := FullestShard(ws, counts, split, n - 1);
      if SplitLoad(ws, counts, split, n - 1) > SplitLoad(ws, counts, split, b) then n - 1 else b
  }

  /** The largest load of a split. */
  ghost function Makespan(ws: seq<string>, counts: map<string, nat>, split: map<string, nat>, n: nat): nat
    requires n >= 1
  {
    SplitLoad(ws, counts, split, FullestShard(ws, counts, split, n))
  }

  lemma {:induction false} SplitLoadWithout(
    ws: seq<string>, j: nat, counts: map<string, nat>, split: map<string, nat>, k: nat)
    requires j < |ws|
    ensures SplitLoad(ws, counts, split, k)
         == SplitLoad(ws[..j] + ws[j + 1..], counts, split, k) + Share(ws[j], counts, split, k)
  {
    var m, rest := |ws| - 1, ws[..j] + ws[j + 1..];
    if j == m {
      assert rest == ws[..m];
    } else {
      SplitLoadWithout(ws[..m], j, counts, split, k);
      var inner := ws[..j] + ws[j + 1..m];
      assert ws[..m][..j] == ws[..j] && ws[..m][j + 1..] == ws[j + 1..m];
      assert rest == inner + [ws[m]] && rest[..m - 1] == inner;
    }
  }

  lemma RemoveOne(xs: seq<string>, j: nat)
    requires j < |xs|
    ensures multiset(xs[..j] + xs[j + 1..]) == multiset(xs) - multiset{xs[j]}
  {
    assert xs == xs[..j] + [xs[j]] + xs[j + 1..];
  }

  /** A split's loads do not depend on the order in which workflows are listed. */
  lemma {:induction false} SplitLoadOfPermutation(
    xs: seq<string>, ys: seq<string>, counts: map<string, nat>, split: map<string, nat>, k: nat)
    requires multiset(xs) == multiset(ys)
    ensures SplitLoad(xs, counts, split, k) == SplitLoad(ys, counts, split, k)
    decreases |xs|
  {
    if xs == [] {
      assert |multiset(ys)| == 0;
      assert ys == [];
    } else {
      var m := |xs| - 1;
      assert xs[m] in multiset(xs);
      var j :| 0 <= j < |ys| && ys[j] == xs[m];
      SplitLoadWithout(xs, m, counts, split, k);
      SplitLoadWithout(ys, j, counts, split, k);
      var front, rest := xs[..m] + xs[m + 1..], ys[..j] + ys[j + 1..];
      RemoveOne(xs, m);
      RemoveOne(ys, j);
      SplitLoadOfPermutation(front, rest, counts, split, k);
    }
  }

  /** The plan `balanced_shards` returns for a non-empty pool of shards. */
  function Balanced(order: seq<string>, counts: map<string, nat>, n: nat): Plan
    requires n >= 1
  {
    Greedy(SortDescending(order, counts), counts, n)
  }

  /** The headline guarantee: 3n * L <= (4n - 1) * OPT, since OPT is the makespan of some split. */
  lemma BalancedWithinGraham(order: seq<string>, counts: map<string, nat>, n: nat, split: map<string, nat>, k: nat)
    requires n >= 1 && IsDict(order, counts) && IsSplit(split, counts, n) && k < n
    ensures WithinGraham(n, Balanced(order, counts, n).loads[k], Makespan(order, counts, split, n))
  {
    var ws, target := SortDescending(order, counts), Makespan(order, counts, split, n);
    SortIsStable(order, counts, 0);
    SplitOfSorted(order, ws, counts, n, split);
    SortedSplitIsBelow(order, ws, counts, n, split);
    var cap := RatioAsCap(n, target);
    GreedyBelowCap(ws, counts, n, Along(ws, split), target, cap, k);
  }

  lemma SplitOfSorted(order: seq<string>, ws: seq<string>, counts: map<string, nat>, n: nat, split: map<string, nat>)
    requires n >= 1 && multiset(ws) == multiset(order)
    ensures forall m: nat :: m < n ==>
      Load(Sizes(ws, counts), Along(ws, split), m) <= Makespan(order, counts, split, n)
  {
    forall m: nat | m < n
      ensures Load(Sizes(ws, counts), Along(ws, split), m) <= Makespan(order, counts, split, n)
    {
      SplitLoadOfPermutation(ws, order, counts, split, m);
      SplitLoadIsLoad(ws, counts, split, m);
    }
  }

  lemma SortedSplitIsBelow(order: seq<string>, ws: seq<string>, counts: map<string, nat>, n: nat, split: map<string, nat>)
    requires IsDict(order, counts) && IsSplit(split, counts, n) && multiset(ws) == multiset(order)
    ensures Below(Along(ws, split), n)
  {
    forall i | 0 <= i < |ws| ensures Size(split, ws[i]) < n {
      assert ws[i] in multiset(ws);
      assert ws[i] in order;
    }
  }

  lemma GreedyPrefix(ws: seq<string>, j: nat, counts: map<string, nat>, n: nat)
    requires n >= 1 && j < |ws|
    ensures Greedy(ws[..j + 1], counts, n) == Place(Greedy(ws[..j], counts, n), ws[j], Size(counts, ws[j]))
  {
    GreedyStep(ws[..j], ws[j], counts, n);
    assert ws[..j + 1] == ws[..j] + [ws[j]];
  }

  /** The greedy loop of `balanced_shards`, with the two lists it updates as it goes. */
  method PlaceAll(items: seq<string>, counts: map<string, nat>, n: nat) returns (plan: Plan)
    requires n >= 1
    ensures plan == Greedy(items, counts, n)
  {
    var shards: seq<seq<string>>, loads: seq<nat> := seq(n, _ => []), seq(n, _ => 0);
    for j := 0 to |items|
      invariant |shards| == |loads| == n && Plan(shards, loads) == Greedy(items[..j], counts, n)
    {
      GreedyPrefix(items, j, counts, n);
      var i := FirstMin(loads);
      shards, loads := shards[i := shards[i] + [items[j]]], loads[i := loads[i] + Size(counts, items[j])];
    }
    assert items[..|items|] == items;
    plan := Plan(shards, loads);
  }

  /** `balanced_shards`: `range(n)` is empty for n <= 0, and then `min(loads)` raises on the first item. */
  method BalancedShards(order: seq<string>, counts: map<string, nat>, n: int) returns (out: Outcome)
    requires IsDict(order, counts)
    ensures out.ValueError? <==> n <= 0 && order != []
    ensures n <= 0 && order == [] ==> out == Planned(Plan([], []))
    ensures n >= 1 ==> out == Planned(Balanced(order, counts, n))
  {
    if n <= 0 {
      return if order == [] then Planned(Plan([], [])) else ValueError;
    }
    var plan := PlaceAll(SortDescending(order, counts), counts, n);
    out := Planned(plan);
  }

  // ---------------------------------------------------------------------------
  // The bound is tight for every number of shards
  // ---------------------------------------------------------------------------

  /** Sizes 2n-1, 2n-1, 2n-2, 2n-2, .., n+1, n+1, n, n, n. */
  function TightSize(n: nat, i: nat): nat
    requires n >= 1
  {
    if i < 2 * n then 2 * n - 1 - i / 2 else n
  }

  /** Once each shard holds one job, the shards that still do. */
  predicate HoldsOne(n: nat, m: nat, i: nat) {
    var q := n - 1 - m / 2;
    m == n || i < 2 * q || i == 2 * q + 1 || (m % 2 == 0 && i == 2 * q)
  }

  /** The greedy loads after `m` of the first 2n jobs: one job each, then pairs of total 3n - 1. */
  function TightLoads(n: nat, m: nat): (loads: seq<nat>)
    requires n >= 1 && m <= 2 * n
    ensures |loads| == n
  {
    seq(n, i requires 0 <= i < n =>
      if m <= n then (if i < m then TightSize(n, i) else 0)
      else if HoldsOne(n, m, i) then TightSize(n, i) else 3 * n - 1)
  }

  /** Where job `m` goes. */
  function TightTarget(n: nat, m: nat): (k: nat)
    requires n >= 1 && m < 2 * n
    ensures k < n
  {
    var k := 2 * (n - 1 - m / 2) + m % 2;
    if m < n then m else if k < n then k else n - 1
  }

  lemma FirstMinIs(loads: seq<nat>, k: nat)
    requires k < |loads|
    requires forall j :: 0 <= j < |loads| ==> loads[k] <= loads[j]
    requires forall j :: 0 <= j < k ==> loads[k] < loads[j]
    ensures FirstMin(loads) == k
  {
    hide FirstMin;
    var i := FirstMin(loads);
    assert loads[i] <= loads[k] <= loads[i];
  }

  lemma TightFirstMin(n: nat, m: nat)
    requires n >= 1 && m < 2 * n
    ensures FirstMin(TightLoads(n, m)) == TightTarget(n, m)
  {
    hide FirstMin;
    FirstMinIs(TightLoads(n, m), TightTarget(n, m));
  }

  lemma TightPlace(n: nat, m: nat)
    requires n >= 1 && m < 2 * n
    ensures var k := TightTarget(n, m);
            TightLoads(n, m)[k := TightLoads(n, m)[k] + TightSize(n, m)] == TightLoads(n, m + 1)
  {
  }

  lemma {:induction false} GreedyTight(ws: seq<string>, counts: map<string, nat>, n: nat, m: nat)
    requires n >= 1 && m <= 2 * n == |ws| - 1
    requires forall i :: 0 <= i < |ws| ==> Size(counts, ws[i]) == TightSize(n, i)
    ensures Greedy(ws[..m], counts, n).loads == TightLoads(n, m)
  {
    hide TightLoads, TightTarget, TightSize, FirstMin, Greedy, Size;
    if m == 0 {
      TightStart(ws, counts, n);
    } else {
      GreedyTight(ws, counts, n, m - 1);
      GreedyPrefix(ws, m - 1, counts, n);
      TightFirstMin(n, m - 1);
      TightPlace(n, m - 1);
      assert ws[m - 1] == ws[..m][m - 1];
    }
  }

  lemma TightStart(ws: seq<string>, counts: map<string, nat>, n: nat)
    requires n >= 1
    ensures Greedy(ws[..0], counts, n).loads == TightLoads(n, 0)
  {
    hide FirstMin, Place;
    assert ws[..0] == [];
    assert forall i :: 0 <= i < n ==> TightLoads(n, 0)[i] == 0;
  }

  /** The greedy plan of the family: 3n - 1 everywhere, and the last job on top of it. */
  lemma GreedyTightEnd(ws: seq<string>, counts: map<string, nat>, n: nat)
    requires n >= 1 && 2 * n == |ws| - 1
    requires forall i :: 0 <= i < |ws| ==> Size(counts, ws[i]) == TightSize(n, i)
    ensures Greedy(ws, counts, n).loads[0] == 4 * n - 1
  {
    hide FirstMin;
    GreedyTight(ws, counts, n, 2 * n);
    GreedyPrefix(ws, 2 * n, counts, n);
    assert ws[..2 * n + 1] == ws;
    FirstMinIs(TightLoads(n, 2 * n), 0);
  }

  lemma InsertLast(s: seq<string>, w: string, counts: map<string, nat>)
    requires s == [] || Size(counts, s[|s| - 1]) >= Size(counts, w)
    ensures InsertDescending(s, w, counts) == s + [w]
  {
  }

  lemma {:induction false} DescendingStays(ws: seq<string>, counts: map<string, nat>)
    requires forall i, j :: 0 <= i < j < |ws| ==> Size(counts, ws[i]) >= Size(counts, ws[j])
    ensures SortDescending(ws, counts) == ws
  {
    hide InsertDescending, Size;
    if ws != [] {
      var m := |ws| - 1;
      DescendingStays(ws[..m], counts);
      InsertLast(ws[..m], ws[m], counts);
      assert ws == ws[..m] + [ws[m]];
    }
  }

  /** The best split pairs a job with the one that completes it to 3n, and puts the three smallest together. */
  function TightShard(n: nat, i: nat): nat
    requires n >= 1
  {
    if i >= 2 * n - 2 then n - 1 else if i < n - 1 then i else 2 * n - 3 - i
  }

  /** The load of shard `k` in that split, after the first `m` jobs. */
  ghost function TightSplitLoad(n: nat, m: nat, k: nat): nat
    requires n >= 1 && k < n && m <= 2 * n + 1
  {
    if k == n - 1 then (if m <= 2 * n - 2 then 0 else if m == 2 * n - 1 then n else if m == 2 * n then 2 * n else 3 * n)
    else (if m > k then TightSize(n, k) else 0) + if m > 2 * n - 3 - k then TightSize(n, 2 * n - 3 - k) else 0
  }

  lemma {:induction false} SplitIsTight(
    ws: seq<string>, counts: map<string, nat>, split: map<string, nat>, n: nat, m: nat, k: nat)
    requires n >= 1 && k < n && m <= 2 * n + 1 == |ws|
    requires forall i :: 0 <= i < |ws| ==>
      Size(counts, ws[i]) == TightSize(n, i) && Size(split, ws[i]) == TightShard(n, i)
    ensures SplitLoad(ws[..m], counts, split, k) == TightSplitLoad(n, m, k)
  {
    if m > 0 {
      SplitIsTight(ws, counts, split, n, m - 1, k);
      assert ws[..m][..m - 1] == ws[..m - 1];
    }
  }

  /** A name per job. */
  function TightName(i: nat): (w: string)
    ensures |w| == i
  {
    seq(i, _ => 'w')
  }

  function TightOrder(n: nat): (order: seq<string>)
    ensures |order| == 2 * n + 1 && forall i :: 0 <= i < |order| ==> order[i] == TightName(i)
  {
    seq(2 * n + 1, i requires 0 <= i => TightName(i))
  }

  /**
   The factor cannot be lowered for any number of shards: for every n there is a table of counts
   whose fullest greedy shard meets Graham's ratio exactly, 4n - 1 against a split of 3n.
   */
  lemma GrahamIsTight(n: nat) returns (order: seq<string>, counts: map<string, nat>, split: map<string, nat>)
    requires n >= 1
    ensures IsDict(order, counts) && IsSplit(split, counts, n)
    ensures Balanced(order, counts, n).loads[0] == 4 * n - 1 && Makespan(order, counts, split, n) == 3 * n
    ensures !WithinGraham(n, Balanced(order, counts, n).loads[0] + 1, Makespan(order, counts, split, n))
  {
    order := TightOrder(n);
    counts := map w | w in order :: TightSize(n, |w|);
    split := map w | w in order :: TightShard(n, |w|);
    TightTables(n, order, counts, split);
    hide *;
    TightBalanced(order, counts, n);
    TightMakespan(order, counts, split, n);
    TightRatio(n);
  }

  lemma TightBalanced(order: seq<string>, counts: map<string, nat>, n: nat)
    requires n >= 1 && |order| == 2 * n + 1
    requires forall i :: 0 <= i < |order| ==> Size(counts, order[i]) == TightSize(n, i)
    requires forall i, j :: 0 <= i < j < |order| ==> Size(counts, order[i]) >= Size(counts, order[j])
    ensures |Balanced(order, counts, n).loads| == n && Balanced(order, counts, n).loads[0] == 4 * n - 1
  {
    hide TightSize, Size, Greedy, SortDescending;
    DescendingStays(order, counts);
    GreedyTightEnd(order, counts, n);
  }

  lemma TightMakespan(order: seq<string>, counts: map<string, nat>, split: map<string, nat>, n: nat)
    requires n >= 1 && |order| == 2 * n + 1
    requires forall i :: 0 <= i < |order| ==>
      Size(counts, order[i]) == TightSize(n, i) && Size(split, order[i]) == TightShard(n, i)
    ensures Makespan(order, counts, split, n) == 3 * n
  {
    hide TightSize, TightShard, Size, SplitLoad;
    assert order[..2 * n + 1] == order;
    var b := FullestShard(order, counts, split, n);
    SplitIsTight(order, counts, split, n, 2 * n + 1, b);
    TightTotal(n, b);
  }

  lemma TightRatio(n: nat)
    requires n >= 1
    ensures WithinGraham(n, 4 * n - 1, 3 * n) && !WithinGraham(n, 4 * n, 3 * n)
  {
    assert 3 * n * (4 * n - 1) == (4 * n - 1) * (3 * n);
    assert 3 * n * (4 * n) == (4 * n - 1) * (3 * n) + 3 * n;
  }

  lemma TightTables(n: nat, order: seq<string>, counts: map<string, nat>, split: map<string, nat>)
    requires n >= 1 && order == TightOrder(n)
    requires counts == map w | w in order :: TightSize(n, |w|)
    requires split == map w | w in order :: TightShard(n, |w|)
    ensures IsDict(order, counts) && IsSplit(split, counts, n)
    ensures forall i :: 0 <= i < |order| ==>
      Size(counts, order[i]) == TightSize(n, i) && Size(split, order[i]) == TightShard(n, i)
    ensures forall i, j :: 0 <= i < j < |order| ==> Size(counts, order[i]) >= Size(counts, order[j])
  {
    forall i | 0 <= i < |order|
      ensures Size(counts, order[i]) == TightSize(n, i) && Size(split, order[i]) == TightShard(n, i)
    {
      assert order[i] in order;
    }
    TightDescends(n);
    hide TightSize, TightShard, TightOrder;
  }

  lemma TightDescends(n: nat)
    requires n >= 1
    ensures forall i: nat, j: nat :: i < j <= 2 * n ==> TightSize(n, i) >= TightSize(n, j)
    ensures forall i: nat :: i <= 2 * n ==> TightShard(n, i) < n
  {
  }

  lemma TightTotal(n: nat, k: nat)
    requires n >= 1 && k < n
    ensures TightSplitLoad(n, 2 * n + 1, k) == 3 * n
  {
  }
}
