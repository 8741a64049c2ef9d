/** The two-dimensional candidate block of `ncpi0_sss_precalc` (hive/src/bdt_precalc.cxx):
    showers seen on single planes are paired across planes, extended to a third plane,
    completed by the unused ones and freed of permutations. */
module Candidates {
  import opened Sorting

  /** One candidate: its wire plane and its time interval. */
  datatype Hit = Hit(plane: int, meanTick: real, minTick: real, maxTick: real)

  type Cluster = seq<nat>

  ghost predicate ValidPlanes(h: seq<Hit>) {
    forall i :: 0 <= i < |h| ==> 0 <= h[i].plane <= 2
  }

  /** The mean of b lies in the interval of a. */
  predicate Contains(a: Hit, b: Hit) {
    b.meanTick <= a.maxTick && b.meanTick >= a.minTick
  }

  ghost predicate Members(h: seq<Hit>, c: Cluster) {
    forall x :: 0 <= x < |c| ==> c[x] < |h|
  }

  predicate Paired(h: seq<Hit>, i: nat, j: nat): (paired: bool)
    ensures paired ==> i < j < |h|
  {
    i < j < |h| && h[j].plane != h[i].plane && Contains(h[i], h[j]) && Contains(h[j], h[i])
  }

  /** The third-plane test as written: the flags for the second member are assigned to the
      flags of the first, so one direction may come from either member. */
  predicate Joins(i: Hit, j: Hit, k: Hit) {
    (Contains(i, k) || Contains(j, k)) && (Contains(k, i) || Contains(k, j))
  }

  predicate Third(h: seq<Hit>, i: nat, j: nat, k: nat)
    requires i < |h| && j < |h|
  {
    k < |h| && h[k].plane != h[i].plane && h[k].plane != h[j].plane && Joins(h[i], h[j], h[k])
  }

  /** The first third-plane partner at or after k; |h| when there is none. */
  function FirstThird(h: seq<Hit>, i: nat, j: nat, k: nat): (f: nat)
    requires i < |h| && j < |h| && k <= |h|
    ensures k <= f <= |h|
    ensures f < |h| ==> Third(h, i, j, f)
    ensures forall l :: k <= l < f ==> !Third(h, i, j, l)
    decreases |h| - k
  {
    if k == |h| || Third(h, i, j, k) then k else FirstThird(h, i, j, k + 1)
  }

  /** The cluster a pair grows into. */
  function Grown(h: seq<Hit>, i: nat, j: nat): Cluster
    requires i < |h| && j < |h|
  {
    var k := FirstThird(h, i, j, 0);
    if k < |h| then [i, j, k] else [i, j]
  }

  predicate Uses(h: seq<Hit>, i: nat, j: nat, m: nat) {
    Paired(h, i, j) && m in Grown(h, i, j)
  }

  ghost predicate Unused(h: seq<Hit>, m: nat) {
    m < |h| && forall i: nat, j: nat :: !Uses(h, i, j, m)
  }

  /** The clusters that are built, as bags: grown pairs and unused candidates. */
  ghost predicate IsBuilt(h: seq<Hit>, bag: multiset<nat>) {
    || (exists i: nat, j: nat :: Paired(h, i, j) && bag == multiset(Grown(h, i, j)))
    || (exists m: nat :: Unused(h, m) && bag == multiset{m})
  }

  // ----- Pairs -----

  method PairUp(h: seq<Hit>) returns (pairs: seq<Cluster>)
    requires ValidPlanes(h)
    ensures CompletePairs(h, pairs)
  {
    pairs := [];
    for i := 0 to |h|
      invariant forall p :: p in pairs <==> |p| == 2 && Paired(h, p[0], p[1]) && p[0] < i
    {
      for j := i to |h|
        invariant forall p :: p in pairs <==> |p| == 2 && Paired(h, p[0], p[1]) && (p[0] < i || (p[0] == i && p[1] < j))
      {
        if h[j].plane != h[i].plane {
          var containIJ, containJI := Contains(h[i], h[j]), Contains(h[j], h[i]);
          if containIJ && containJI {
            assert forall p: Cluster :: |p| == 2 && p[0] == i && p[1] == j ==> p == [i, j];
            pairs := pairs + [[i, j]];
          }
        }
      }
    }
  }

  // ----- Third plane -----

  /** The new-plane test against the members the cluster has so far. */
  method OnNewPlane(h: seq<Hit>, c: Cluster, k: nat) returns (newPlane: bool)
    requires k < |h| && Members(h, c)
    ensures newPlane <==> forall x :: 0 <= x < |c| ==> h[k].plane != h[c[x]].plane
  {
    newPlane := true;
    for x := 0 to |c|
      invariant newPlane <==> forall y :: 0 <= y < x ==> h[k].plane != h[c[y]].plane
    {
      if h[k].plane == h[c[x]].plane {
        newPlane := false;
      }
    }
  }

  method GrowPair(h: seq<Hit>, pair: Cluster) returns (c: Cluster)
    requires ValidPlanes(h) && |pair| == 2 && Paired(h, pair[0], pair[1])
    ensures c == Grown(h, pair[0], pair[1])
  {
    var i, j := pair[0], pair[1];
    ghost var f := FirstThird(h, i, j, 0);
    c := pair;
    for k := 0 to |h|
      invariant c == if f < k then [i, j, f] else [i, j]
    {
      var newPlane := OnNewPlane(h, c, k);
      assert c[0] == i && c[1] == j;
      if f < k {
        assert c[2] == f && Third(h, i, j, f);
        assert !newPlane;
      } else {
        assert newPlane <==> h[k].plane != h[i].plane && h[k].plane != h[j].plane;
        assert Third(h, i, j, k) <==> f == k;
      }
      if newPlane {
        if Joins(h[c[0]], h[c[1]], h[k]) {
          c := c + [k];
        }
      }
    }
  }

  ghost predicate AllPairs(h: seq<Hit>, pairs: seq<Cluster>) {
    forall x :: 0 <= x < |pairs| ==> |pairs[x]| == 2 && Paired(h, pairs[x][0], pairs[x][1])
  }

  method GrowAll(h: seq<Hit>, pairs: seq<Cluster>) returns (clusters: seq<Cluster>)
    requires ValidPlanes(h) && AllPairs(h, pairs)
    ensures |clusters| == |pairs|
    ensures forall x :: 0 <= x < |pairs| ==> clusters[x] == Grown(h, pairs[x][0], pairs[x][1])
  {
    clusters := pairs;
    for x := 0 to |pairs|
      invariant |clusters| == |pairs|
      invariant forall y :: x <= y < |pairs| ==> clusters[y] == pairs[y]
      invariant forall y :: 0 <= y < x ==> clusters[y] == Grown(h, pairs[y][0], pairs[y][1])
    {
      var c := GrowPair(h, clusters[x]);
      clusters := clusters[x := c];
    }
  }

  // ----- Unused candidates -----

  /** Counts the uses of every candidate, then adds each unused one as its own cluster. */
  method AddSingletons(n: nat, clusters: seq<Cluster>) returns (all: seq<Cluster>)
    requires forall x, y :: 0 <= x < |clusters| && 0 <= y < |clusters[x]| ==> clusters[x][y] < n
    ensures |all| >= |clusters| && all[..|clusters|] == clusters
    ensures forall s :: s in all[|clusters|..] <==> |s| == 1 && s[0] < n && forall c :: c in clusters ==> s[0] !in c
  {
    var used := new nat[n](_ => 0);
    for x := 0 to |clusters|
      invariant forall m :: 0 <= m < n ==> (used[m] == 0 <==> forall y :: 0 <= y < x ==> m !in clusters[y])
    {
      var c := clusters[x];
      for y := 0 to |c|
        invariant forall m :: 0 <= m < n ==>
          (used[m] == 0 <==> m !in c[..y] && forall z :: 0 <= z < x ==> m !in clusters[z])
      {
        used[c[y]] := used[c[y]] + 1;
        assert c[..y + 1] == c[..y] + [c[y]];
      }
      assert c[..|c|] == c;
    }
    var singles: seq<Cluster> := [];
    for i := 0 to n
      invariant forall s :: s in singles <==> |s| == 1 && s[0] < i && used[s[0]] == 0
    {
      if used[i] == 0 {
        assert forall s: Cluster :: |s| == 1 && s[0] == i ==> s == [i];
        singles := singles + [[i]];
      }
    }
    all := clusters + singles;
    assert all[|clusters|..] == singles;
    forall s | s in singles
      ensures forall c :: c in clusters ==> s[0] !in c
    {}
  }

  // ----- Permutations -----

  const INDEX_ORDER: Order<nat> := (x, y) => x <= y

  /** `marks_compare_vec_nonsense`: both arguments come back sorted. */
  method CompareSorting(v1: Cluster, v2: Cluster) returns (same: bool, w1: Cluster, w2: Cluster)
    ensures multiset(w1) == multiset(v1) && multiset(w2) == multiset(v2)
    ensures same <==> multiset(v1) == multiset(v2)
  {
    w1, w2 := Sorted(INDEX_ORDER, v1), Sorted(INDEX_ORDER, v2);
    SortedIsSorted(INDEX_ORDER, v1);
    SortedIsSorted(INDEX_ORDER, v2);
    SortedEqualIff(INDEX_ORDER, v1, v2);
    same := w1 == w2;
  }

  type Bag = multiset<nat>

  ghost function Bags(cs: seq<Cluster>): (b: seq<Bag>)
    ensures |b| == |cs|
  {
    seq(|cs|, x requires 0 <= x < |cs| => multiset(cs[x]))
  }

  /** The bags in order, each kept where it first occurs. */
  ghost function Distinct(bags: seq<Bag>): seq<Bag> {
    if bags == [] then []
    else
      var front, last := Distinct(bags[..|bags| - 1]), bags[|bags| - 1];
      if last in front then front else front + [last]
  }

  lemma DistinctOne(b: Bag)
    ensures Distinct([b]) == [b]
  {
    assert Distinct([b][..0]) == [];
  }

  lemma BagsAppend(cs: seq<Cluster>, c: Cluster)
    ensures Bags(cs + [c]) == Bags(cs) + [multiset(c)]
  {}

  lemma DistinctStep(bags: seq<Bag>, i: nat)
    requires i < |bags|
    ensures var front := Distinct(bags[..i]);
      Distinct(bags[..i + 1]) == if bags[i] in front then front else front + [bags[i]]
  {
    assert bags[..i + 1][..i] == bags[..i];
  }

  lemma {:induction false} DistinctMeaning(bags: seq<Bag>)
    ensures forall b :: b in Distinct(bags) <==> b in bags
    ensures forall x, y :: 0 <= x < y < |Distinct(bags)| ==> Distinct(bags)[x] != Distinct(bags)[y]
  {
    if bags != [] {
      DistinctMeaning(bags[..|bags| - 1]);
      assert bags == bags[..|bags| - 1] + [bags[|bags| - 1]];
    }
  }

  /** They stand in the order in which they first occur. */
  lemma {:induction false} DistinctOrder(bags: seq<Bag>, x: nat, y: nat)
    requires x < y < |Distinct(bags)|
    ensures exists i :: 0 <= i < |bags| && bags[i] == Distinct(bags)[x] && Distinct(bags)[y] !in bags[..i + 1]
  {
    var n := |bags| - 1;
    var front := Distinct(bags[..n]);
    if y < |front| {
      DistinctOrder(bags[..n], x, y);
      var i :| 0 <= i < n && bags[..n][i] == front[x] && front[y] !in bags[..n][..i + 1];
      assert bags[..n][..i + 1] == bags[..i + 1];
      assert bags[i] == Distinct(bags)[x];
    } else {
      DistinctMeaning(bags[..n]);
      assert front[x] in front;
      var i :| 0 <= i < n && bags[..n][i] == front[x];
      assert bags[n] !in bags[..n];
      assert forall k :: 0 <= k < i + 1 ==> bags[..i + 1][k] == bags[..n][k];
      assert bags[i] == Distinct(bags)[x];
    }
  }

  /** Reordering one cluster in place changes no bag. */
  lemma Rearranged(cs: seq<Cluster>, i: nat, c: Cluster)
    requires i < |cs| && multiset(c) == multiset(cs[i])
    ensures Bags(cs[i := c]) == Bags(cs) && Bags(cs)[i] == multiset(c)
  {}

  /** The inner loop: is c a permutation of a kept cluster? Both sides get sorted on the way. */
  method FindPermutation(c: Cluster, kept: seq<Cluster>) returns (perm: bool, c': Cluster, kept': seq<Cluster>)
    ensures multiset(c') == multiset(c) && Bags(kept') == Bags(kept)
    ensures perm <==> multiset(c) in Bags(kept)
  {
    perm, c', kept' := false, c, kept;
    for j := 0 to |kept|
      invariant multiset(c') == multiset(c) && Bags(kept') == Bags(kept) && |kept'| == |kept|
      invariant !perm && multiset(c) !in Bags(kept)[..j]
    {
      var same, v, w := CompareSorting(c', kept'[j]);
      Rearranged(kept', j, w);
      c', kept' := v, kept'[j := w];
      perm := same;
      if perm {
        assert Bags(kept)[j] == multiset(c);
        break;
      }
      assert Bags(kept)[..j + 1] == Bags(kept)[..j] + [Bags(kept)[j]];
    }
    assert Bags(kept)[..|kept|] == Bags(kept);
  }

  method RemovePermutations(clusters: seq<Cluster>) returns (kept: seq<Cluster>)
    requires clusters != []
    ensures Bags(kept) == Distinct(Bags(clusters))
  {
    var cs := clusters;
    ghost var bags := Bags(clusters);
    kept := [cs[0]];
    assert bags[..1] == [bags[0]] == Bags(kept);
    DistinctOne(bags[0]);
    for i := 1 to |cs|
      invariant |cs| == |clusters| && Bags(cs) == bags
      invariant Bags(kept) == Distinct(bags[..i])
    {
      DistinctStep(bags, i);
      hide Distinct, Bags;
      Rearranged(cs, i, cs[i]);
      var perm, c, k := FindPermutation(cs[i], kept);
      Rearranged(cs, i, c);
      cs, kept := cs[i := c], k;
      if !perm {
        BagsAppend(kept, cs[i]);
        kept := kept + [cs[i]];
      }
    }
    assert bags[..|cs|] == bags;
  }

  // ----- The whole block -----

  ghost predicate NoRepeats(bags: seq<Bag>) {
    forall x, y :: 0 <= x < y < |bags| ==> bags[x] != bags[y]
  }

  lemma BagsOfList(h: seq<Hit>, out: seq<Cluster>)
    requires (forall bag :: bag in Bags(out) <==> IsBuilt(h, bag)) && NoRepeats(Bags(out))
    ensures forall c :: c in out ==> IsBuilt(h, multiset(c))
    ensures forall bag :: IsBuilt(h, bag) ==> exists x :: 0 <= x < |out| && multiset(out[x]) == bag
    ensures forall x, y :: 0 <= x < y < |out| ==> multiset(out[x]) != multiset(out[y])
  {
    hide IsBuilt;
    forall c | c in out
      ensures IsBuilt(h, multiset(c))
    {
      BagOf(out, c);
    }
    forall bag | IsBuilt(h, bag)
      ensures exists x :: 0 <= x < |out| && multiset(out[x]) == bag
    {
      var x :| 0 <= x < |out| && Bags(out)[x] == bag;
      assert multiset(out[x]) == bag;
    }
    forall x, y | 0 <= x < y < |out|
      ensures multiset(out[x]) != multiset(out[y])
    {
      assert Bags(out)[x] != Bags(out)[y];
    }
  }

  /** The candidate list: as bags it is exactly the set of built clusters, each once. */
  method BuildCandidates(h: seq<Hit>) returns (out: seq<Cluster>)
    requires h != [] && ValidPlanes(h)
    ensures forall c :: c in out ==> IsBuilt(h, multiset(c))
    ensures forall bag :: IsBuilt(h, bag) ==> exists x :: 0 <= x < |out| && multiset(out[x]) == bag
    ensures forall x, y :: 0 <= x < y < |out| ==> multiset(out[x]) != multiset(out[y])
  {
    hide Paired, FirstThird, Grown, IsBuilt, Distinct;
    var pairs := PairUp(h);
    PairsAreListed(h, pairs);
    var clusters := GrowAll(h, pairs);
    GrownMembers(h, pairs, clusters);
    var all := AddSingletons(|h|, clusters);
    AllAreBuilt(h, pairs, clusters, all);
    SomeClusterHolds(h, 0);
    assert all != [];
    out := RemovePermutations(all);
    DistinctMeaning(Bags(all));
    BagsOfList(h, out);
  }

  lemma PairsAreListed(h: seq<Hit>, pairs: seq<Cluster>)
    requires CompletePairs(h, pairs)
    ensures AllPairs(h, pairs)
  {
    forall x | 0 <= x < |pairs|
      ensures |pairs[x]| == 2 && Paired(h, pairs[x][0], pairs[x][1])
    {
      assert pairs[x] in pairs;
    }
  }

  lemma GrownMembers(h: seq<Hit>, pairs: seq<Cluster>, clusters: seq<Cluster>)
    requires AllPairs(h, pairs) && |clusters| == |pairs|
    requires forall x :: 0 <= x < |pairs| ==> clusters[x] == Grown(h, pairs[x][0], pairs[x][1])
    ensures forall x, y :: 0 <= x < |clusters| && 0 <= y < |clusters[x]| ==> clusters[x][y] < |h|
  {}

  ghost predicate Singletons(h: seq<Hit>, clusters: seq<Cluster>, singles: seq<Cluster>) {
    forall s :: s in singles <==> |s| == 1 && s[0] < |h| && forall c :: c in clusters ==> s[0] !in c
  }

  ghost predicate CompletePairs(h: seq<Hit>, pairs: seq<Cluster>) {
    forall p :: p in pairs <==> |p| == 2 && Paired(h, p[0], p[1])
  }

  lemma UnusedIff(h: seq<Hit>, pairs: seq<Cluster>, clusters: seq<Cluster>, m: nat)
    requires CompletePairs(h, pairs) && AllPairs(h, pairs) && |clusters| == |pairs| && m < |h|
    requires forall x :: 0 <= x < |pairs| ==> clusters[x] == Grown(h, pairs[x][0], pairs[x][1])
    ensures Unused(h, m) <==> forall c :: c in clusters ==> m !in c
  {
    if Unused(h, m) {
      forall c | c in clusters
        ensures m !in c
      {
        var x :| 0 <= x < |clusters| && clusters[x] == c;
        assert !Uses(h, pairs[x][0], pairs[x][1], m);
      }
    } else {
      var i: nat, j: nat :| Uses(h, i, j, m);
      assert [i, j] in pairs;
      var x :| 0 <= x < |pairs| && pairs[x] == [i, j];
      assert clusters[x] in clusters && m in clusters[x];
    }
  }

  lemma AllAreBuilt(h: seq<Hit>, pairs: seq<Cluster>, clusters: seq<Cluster>, all: seq<Cluster>)
    requires CompletePairs(h, pairs) && AllPairs(h, pairs) && |clusters| == |pairs|
    requires forall x :: 0 <= x < |pairs| ==> clusters[x] == Grown(h, pairs[x][0], pairs[x][1])
    requires |clusters| <= |all| && all[..|clusters|] == clusters && Singletons(h, clusters, all[|clusters|..])
    ensures forall bag :: bag in Bags(all) <==> IsBuilt(h, bag)
  {
    forall x | 0 <= x < |all|
      ensures IsBuilt(h, Bags(all)[x])
    {
      ListedIsBuilt(h, pairs, clusters, all, x);
    }
    forall bag | IsBuilt(h, bag)
      ensures bag in Bags(all)
    {
      BuiltIsListed(h, pairs, clusters, all, bag);
    }
  }

  lemma ListedIsBuilt(h: seq<Hit>, pairs: seq<Cluster>, clusters: seq<Cluster>, all: seq<Cluster>, x: nat)
    requires CompletePairs(h, pairs) && AllPairs(h, pairs) && |clusters| == |pairs|
    requires forall x :: 0 <= x < |pairs| ==> clusters[x] == Grown(h, pairs[x][0], pairs[x][1])
    requires |clusters| <= |all| && all[..|clusters|] == clusters && Singletons(h, clusters, all[|clusters|..])
    requires x < |all|
    ensures IsBuilt(h, multiset(all[x]))
  {
    hide Paired, FirstThird, Grown;
    if x < |clusters| {
      assert all[x] == clusters[x];
      var i, j := pairs[x][0], pairs[x][1];
      assert Paired(h, i, j) && multiset(all[x]) == multiset(Grown(h, i, j));
    } else {
      var s := all[x];
      assert s == all[|clusters|..][x - |clusters|];
      assert s in all[|clusters|..];
      UnusedIff(h, pairs, clusters, s[0]);
      assert s == [s[0]];
      assert multiset(s) == multiset{s[0]};
    }
  }

  lemma BuiltIsListed(h: seq<Hit>, pairs: seq<Cluster>, clusters: seq<Cluster>, all: seq<Cluster>, bag: Bag)
    requires CompletePairs(h, pairs) && AllPairs(h, pairs) && |clusters| == |pairs|
    requires forall x :: 0 <= x < |pairs| ==> clusters[x] == Grown(h, pairs[x][0], pairs[x][1])
    requires |clusters| <= |all| && all[..|clusters|] == clusters && Singletons(h, clusters, all[|clusters|..])
    requires IsBuilt(h, bag)
    ensures bag in Bags(all)
  {
    hide Paired, FirstThird, Grown;
    if i: nat, j: nat :| Paired(h, i, j) && bag == multiset(Grown(h, i, j)) {
      GrownIsListed(h, pairs, clusters, i, j);
      assert Grown(h, i, j) in all[..|clusters|];
      BagOf(all, Grown(h, i, j));
    } else {
      var m: nat :| Unused(h, m) && bag == multiset{m};
      UnusedIff(h, pairs, clusters, m);
      assert |[m]| == 1 && [m][0] == m;
      assert [m] in all[|clusters|..];
      BagOf(all, [m]);
    }
  }

  lemma GrownIsListed(h: seq<Hit>, pairs: seq<Cluster>, clusters: seq<Cluster>, i: nat, j: nat)
    requires CompletePairs(h, pairs) && AllPairs(h, pairs) && |clusters| == |pairs|
    requires forall x :: 0 <= x < |pairs| ==> clusters[x] == Grown(h, pairs[x][0], pairs[x][1])
    requires Paired(h, i, j)
    ensures Grown(h, i, j) in clusters
  {
    hide Paired, Grown;
    assert |[i, j]| == 2 && [i, j][0] == i && [i, j][1] == j;
    assert [i, j] in pairs;
    var x :| 0 <= x < |pairs| && pairs[x] == [i, j];
    assert clusters[x] in clusters;
  }

  lemma BagOf(cs: seq<Cluster>, c: Cluster)
    requires c in cs
    ensures multiset(c) in Bags(cs)
  {
    var x :| 0 <= x < |cs| && cs[x] == c;
    assert Bags(cs)[x] == multiset(c);
  }

  // ----- What a reader of the list may rely on -----

  /** Coverage: every candidate is in some built cluster. */
  lemma SomeClusterHolds(h: seq<Hit>, m: nat)
    requires m < |h|
    ensures exists bag :: IsBuilt(h, bag) && m in bag
  {
    hide Paired, Grown;
    if Unused(h, m) {
      assert IsBuilt(h, multiset{m});
    } else {
      var i: nat, j: nat :| Uses(h, i, j, m);
      assert IsBuilt(h, multiset(Grown(h, i, j)));
    }
  }

  /** Members of a cluster are on pairwise different planes, so there are at most three and
      bags of clusters are equal exactly when their sets are. */
  lemma PlanesAreDistinct(h: seq<Hit>, bag: Bag)
    requires IsBuilt(h, bag)
    ensures 1 <= |bag| <= 3
    ensures forall a :: a in bag ==> a < |h| && bag[a] == 1
    ensures forall a, b :: a in bag && b in bag && a != b ==> h[a].plane != h[b].plane
  {
    hide Paired, FirstThird, Grown;
    if i: nat, j: nat :| Paired(h, i, j) && bag == multiset(Grown(h, i, j)) {
      GrownPlanes(h, i, j);
      BagOfDistinct(Grown(h, i, j));
    } else {
      var m: nat :| Unused(h, m) && bag == multiset{m};
      assert bag[m] == 1 && |bag| == 1;
    }
  }

  lemma GrownPlanes(h: seq<Hit>, i: nat, j: nat)
    requires Paired(h, i, j)
    ensures var c := Grown(h, i, j);
      2 <= |c| <= 3 && Members(h, c) && forall x, y :: 0 <= x < y < |c| ==> h[c[x]].plane != h[c[y]].plane
  {}

  lemma {:induction false} BagOfDistinct(c: Cluster)
    requires forall x, y :: 0 <= x < y < |c| ==> c[x] != c[y]
    ensures |multiset(c)| == |c|
    ensures forall a :: a in multiset(c) ==> multiset(c)[a] == 1 && exists x :: 0 <= x < |c| && c[x] == a
  {
    if c != [] {
      BagOfDistinct(c[1..]);
      assert c == [c[0]] + c[1..];
      forall a | a in multiset(c)
        ensures multiset(c)[a] == 1 && exists x :: 0 <= x < |c| && c[x] == a
      {
        if a in multiset(c[1..]) {
          var x :| 0 <= x < |c[1..]| && c[1..][x] == a;
          assert c[x + 1] == a;
        }
      }
    }
  }

  /** Every pair of mutually overlapping candidates on different planes stays together. */
  lemma PairsStayTogether(h: seq<Hit>, i: nat, j: nat)
    requires Paired(h, i, j)
    ensures exists bag :: IsBuilt(h, bag) && i in bag && j in bag
  {
    assert IsBuilt(h, multiset(Grown(h, i, j)));
  }

  /** In ticks: a cluster of two or three has two members on different planes, each with its
      mean in the interval of the other ... */
  lemma LargeClustersHoldAMatch(h: seq<Hit>, bag: Bag)
    requires IsBuilt(h, bag) && |bag| >= 2
    ensures exists i: nat, j: nat ::
              && i < |h| && j < |h| && i in bag && j in bag && h[i].plane != h[j].plane
              && h[i].minTick <= h[j].meanTick <= h[i].maxTick && h[j].minTick <= h[i].meanTick <= h[j].maxTick
  {
    forall m: nat | bag == multiset{m}
      ensures |bag| == 1
    {}
    var i: nat, j: nat :| Paired(h, i, j) && bag == multiset(Grown(h, i, j));
    assert i in Grown(h, i, j) && j in Grown(h, i, j);
  }

  /** ... and any two such candidates share a cluster, in whichever order they are listed. */
  lemma MatchesShareACluster(h: seq<Hit>, i: nat, j: nat)
    requires i < |h| && j < |h| && h[i].plane != h[j].plane
    requires h[i].minTick <= h[j].meanTick <= h[i].maxTick && h[j].minTick <= h[i].meanTick <= h[j].maxTick
    ensures exists bag :: IsBuilt(h, bag) && i in bag && j in bag
  {
    if i < j {
      PairsStayTogether(h, i, j);
    } else {
      PairsStayTogether(h, j, i);
    }
  }

  /** The third member, in ticks: the first candidate on the third plane that has its mean in
      the interval of a member and the mean of a member, not always the same, in its own. */
  lemma ThirdMemberInTicks(h: seq<Hit>, i: nat, j: nat, k: nat)
    requires i < |h| && j < |h| && k < |h|
    ensures Grown(h, i, j)[..2] == [i, j] && |Grown(h, i, j)| <= 3
    ensures |Grown(h, i, j)| == 3 && Grown(h, i, j)[2] == k
       <==> (Third(h, i, j, k) && forall l :: 0 <= l < k ==> !Third(h, i, j, l))
    ensures Third(h, i, j, k)
       <==> (h[k].plane != h[i].plane && h[k].plane != h[j].plane
             && (h[i].minTick <= h[k].meanTick <= h[i].maxTick || h[j].minTick <= h[k].meanTick <= h[j].maxTick)
             && (h[k].minTick <= h[i].meanTick <= h[k].maxTick || h[k].minTick <= h[j].meanTick <= h[k].maxTick))
  {
    var f := FirstThird(h, i, j, 0);
    hide Third;
    if Third(h, i, j, k) {
      assert f <= k;
    }
    if f < |h| {
      assert Grown(h, i, j)[2] == f;
    }
  }

  /** A candidate is listed on its own exactly when no cluster of two or three uses it. */
  lemma AloneIffUnused(h: seq<Hit>, m: nat)
    requires m < |h|
    ensures IsBuilt(h, multiset{m}) <==> forall bag :: IsBuilt(h, bag) && m in bag ==> |bag| == 1
  {
    hide Paired, FirstThird, Grown;
    if IsBuilt(h, multiset{m}) {
      AloneIsUnused(h, m);
      forall bag | IsBuilt(h, bag) && m in bag
        ensures |bag| == 1
      {
        UnusedOnlyAlone(h, m, bag);
      }
    }
    if forall bag :: IsBuilt(h, bag) && m in bag ==> |bag| == 1 {
      SomeClusterHolds(h, m);
      var bag :| IsBuilt(h, bag) && m in bag;
      OnlyMember(bag, m);
    }
  }

  lemma OnlyMember(bag: Bag, m: nat)
    requires |bag| == 1 && m in bag
    ensures bag == multiset{m}
  {
    var rest := bag - multiset{m};
    assert bag == multiset{m} + rest;
    assert |rest| == 0;
  }

  lemma GrownIsLarge(h: seq<Hit>, i: nat, j: nat)
    requires Paired(h, i, j)
    ensures |multiset(Grown(h, i, j))| >= 2
  {}

  lemma AloneIsUnused(h: seq<Hit>, m: nat)
    requires IsBuilt(h, multiset{m})
    ensures Unused(h, m)
  {
    hide Paired, FirstThird, Grown;
    var alone := multiset{m};
    assert |alone| == 1;
    if i: nat, j: nat :| Paired(h, i, j) && alone == multiset(Grown(h, i, j)) {
      GrownIsLarge(h, i, j);
    } else {
      var k: nat :| Unused(h, k) && alone == multiset{k};
      assert k in alone;
    }
  }

  lemma UnusedOnlyAlone(h: seq<Hit>, m: nat, bag: Bag)
    requires Unused(h, m) && IsBuilt(h, bag) && m in bag
    ensures |bag| == 1
  {
    hide Paired, FirstThird, Grown;
    forall i: nat, j: nat | Paired(h, i, j)
      ensures bag != multiset(Grown(h, i, j))
    {
      assert !Uses(h, i, j, m);
    }
  }

  // ----- The third-plane test -----

  predicate MatchesEither(i: Hit, j: Hit, k: Hit) {
    (Contains(i, k) && Contains(k, i)) || (Contains(j, k) && Contains(k, j))
  }

  predicate OnThirdPlane(h: seq<Hit>, i: nat, j: nat, k: nat)
    requires i < |h| && j < |h|
  {
    k < |h| && h[k].plane != h[i].plane && h[k].plane != h[j].plane
  }

  /** The first candidate on the third plane that matches a member both ways; |h| if none. */
  function FirstMatch(h: seq<Hit>, i: nat, j: nat, k: nat): (f: nat)
    requires i < |h| && j < |h| && k <= |h|
    ensures k <= f <= |h|
    ensures f < |h| ==> OnThirdPlane(h, i, j, f) && MatchesEither(h[i], h[j], h[f])
    ensures forall l :: k <= l < f ==> !(OnThirdPlane(h, i, j, l) && MatchesEither(h[i], h[j], h[l]))
    decreases |h| - k
  {
    if k == |h| || (OnThirdPlane(h, i, j, k) && MatchesEither(h[i], h[j], h[k])) then k
    else FirstMatch(h, i, j, k + 1)
  }

  /** The cluster the pair would grow into by the comment. */
  function GrownAsCommented(h: seq<Hit>, i: nat, j: nat): Cluster
    requires i < |h| && j < |h|
  {
    var k := FirstMatch(h, i, j, 0);
    if k < |h| then [i, j, k] else [i, j]
  }

  /** The candidate contains one member, unanswered, and is contained in the other, unanswered. */
  predicate Crossed(i: Hit, j: Hit, k: Hit) {
    || (Contains(i, k) && !Contains(k, i) && Contains(k, j) && !Contains(j, k))
    || (Contains(j, k) && !Contains(k, j) && Contains(k, i) && !Contains(i, k))
  }

  lemma JoinsIff(i: Hit, j: Hit, k: Hit)
    ensures Joins(i, j, k) <==> MatchesEither(i, j, k) || Crossed(i, j, k)
    ensures !(MatchesEither(i, j, k) && Crossed(i, j, k))
  {}

  /** A crossed candidate on the third plane before any that matches. */
  ghost predicate CrossedFirst(h: seq<Hit>, i: nat, j: nat)
    requires i < |h| && j < |h|
  {
    exists k: nat :: OnThirdPlane(h, i, j, k) && Crossed(h[i], h[j], h[k]) && NoMatchBefore(h, i, j, k)
  }

  ghost predicate NoMatchBefore(h: seq<Hit>, i: nat, j: nat, k: nat)
    requires i < |h| && j < |h| && k <= |h|
  {
    forall m :: 0 <= m < k && OnThirdPlane(h, i, j, m) ==> !MatchesEither(h[i], h[j], h[m])
  }

  /** A pair grows as the comment says exactly when no crossed candidate on the third plane
      comes before the first that matches a member both ways. */
  lemma GrownAsCommentedIff(h: seq<Hit>, i: nat, j: nat)
    requires i < |h| && j < |h|
    ensures Grown(h, i, j) == GrownAsCommented(h, i, j) <==> !CrossedFirst(h, i, j)
  {
    hide Contains, Joins, MatchesEither, Crossed;
    var f, g := FirstThird(h, i, j, 0), FirstMatch(h, i, j, 0);
    forall k | 0 <= k < |h|
      ensures Joins(h[i], h[j], h[k]) <==> MatchesEither(h[i], h[j], h[k]) || Crossed(h[i], h[j], h[k])
      ensures !(MatchesEither(h[i], h[j], h[k]) && Crossed(h[i], h[j], h[k]))
    {
      JoinsIff(h[i], h[j], h[k]);
    }
    if g < |h| {
      assert Third(h, i, j, g);
    }
    assert f <= g;
    if f < g {
      assert OnThirdPlane(h, i, j, f) && NoMatchBefore(h, i, j, f);
      assert Grown(h, i, j)[2..] == [f];
      assert GrownAsCommented(h, i, j)[2..] == if g < |h| then [g] else [];
    } else if k: nat :| OnThirdPlane(h, i, j, k) && Crossed(h[i], h[j], h[k]) && NoMatchBefore(h, i, j, k) {
      assert Third(h, i, j, k);
    }
  }

  /** Three candidates on three planes: the third is contained in the first and contains the
      second, and joins a pair it matches neither member of. */
  lemma JoinsWithoutMatch() returns (h: seq<Hit>)
    ensures ValidPlanes(h) && |h| == 3 && Paired(h, 0, 1)
    ensures Grown(h, 0, 1) == [0, 1, 2] && GrownAsCommented(h, 0, 1) == [0, 1]
  {
    h := [Hit(0, 0.0, -1.0, 20.0), Hit(1, 5.0, -1.0, 6.0), Hit(2, 10.0, 4.0, 11.0)];
    assert !Third(h, 0, 1, 0) && !Third(h, 0, 1, 1) && Third(h, 0, 1, 2);
    assert FirstThird(h, 0, 1, 0) == FirstThird(h, 0, 1, 1) == FirstThird(h, 0, 1, 2) == 2;
    assert FirstMatch(h, 0, 1, 0) == 3;
  }
}
