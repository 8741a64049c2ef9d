/** `RSE` and `runlist` of hive/inc/duplicate_suite_2022.h: lists of (run, subrun, event) with
    a lookup set that also holds a marker (run, subrun, -1) for every listed pair. */
module RunList {

  datatype Rse = Rse(run: int, subrun: int, event: int) {
    function Pair(): (int, int) { (run, subrun) }
    function Marker(): Rse { Rse(run, subrun, -1) }
  }

  /** `operator<`, test by test. */
  predicate Less(a: Rse, b: Rse) {
    if a.run > b.run then false
    else if a.run == b.run && a.subrun > b.subrun then false
    else if a.run == b.run && a.subrun == b.subrun && a.event >= b.event then false
    else true
  }

  /** `operator<` is a strict total order whose ties are exactly the equal triples, so that
      `std::set<RSE>` holds each triple once. */
  lemma LessIsTotalOrder(a: Rse, b: Rse, c: Rse)
    ensures !Less(a, b) && !Less(b, a) <==> a == b
    ensures !(Less(a, b) && Less(b, a))
    ensures Less(a, b) && Less(b, c) ==> Less(a, c)
    ensures Less(a, b)
       <==> (a.run < b.run
             || (a.run == b.run && (a.subrun < b.subrun || (a.subrun == b.subrun && a.event < b.event))))
  {}

  // ----- The constructor -----

  function Entries(rses: seq<Rse>): set<Rse> {
    set r | r in rses
  }

  function Markers(rses: seq<Rse>): set<Rse> {
    set r | r in rses :: r.Marker()
  }

  /** What the constructor counts: entries not yet in the lookup set. */
  function Counted(rses: seq<Rse>): nat {
    if rses == [] then 0
    else
      var front, r := rses[..|rses| - 1], rses[|rses| - 1];
      Counted(front) + if r in Entries(front) + Markers(front) then 0 else 1
  }

  lemma SetsGrow(rses: seq<Rse>, r: Rse)
    ensures Entries(rses + [r]) == Entries(rses) + {r}
    ensures Markers(rses + [r]) == Markers(rses) + {r.Marker()}
  {
    assert forall x :: x in rses + [r] <==> x in rses || x == r;
    forall m | m in Markers(rses) + {r.Marker()}
      ensures m in Markers(rses + [r])
    {
      if m in Markers(rses) {
        var x :| x in rses && x.Marker() == m;
        assert x in rses + [r];
      } else {
        assert r in rses + [r];
      }
    }
  }

  /** The loop of the constructor. */
  method BuildLookup(list: seq<Rse>) returns (m: set<Rse>, unique: nat)
    ensures m == Entries(list) + Markers(list) && unique == Counted(list)
  {
    m, unique := {}, 0;
    for i := 0 to |list|
      invariant m == Entries(list[..i]) + Markers(list[..i]) && unique == Counted(list[..i])
    {
      var rse := list[i];
      LookupStep(list, i);
      hide Entries, Markers, Counted;
      if rse !in m {
        unique := unique + 1;
        m := m + {rse};
        m := m + {Rse(rse.run, rse.subrun, -1)};
      }
    }
    assert list[..|list|] == list;
  }

  lemma LookupStep(list: seq<Rse>, i: nat)
    requires i < |list|
    ensures var r, front, next := list[i], list[..i], list[..i + 1];
      var known := r in Entries(front) + Markers(front);
      && Counted(next) == Counted(front) + (if known then 0 else 1)
      && Entries(next) + Markers(next)
         == if known then Entries(front) + Markers(front) else (Entries(front) + Markers(front)) + {r} + {r.Marker()}
  {
    var r, front := list[i], list[..i];
    SetsGrow(front, r);
    assert list[..i + 1] == front + [r];
    assert list[..i + 1][..i] == front;
    if r in Entries(front) + Markers(front) {
      KnownMarker(front, r);
    }
  }

  class RunList {
    var rses: seq<Rse>
    var lookup: set<Rse>
    var uniqueEvents: nat

    ghost predicate Valid()
      reads this
    {
      lookup == Entries(rses) + Markers(rses) && uniqueEvents == Counted(rses)
    }

    constructor (list: seq<Rse>)
      ensures Valid() && rses == list
    {
      rses := list;
      var m, unique := BuildLookup(list);
      lookup, uniqueEvents := m, unique;
    }

    /** `inList(run, subrun)` */
    method InListPair(run: int, subrun: int) returns (found: bool)
      requires Valid()
      ensures found <==> exists r :: r in rses && r.run == run && r.subrun == subrun
    {
      found := Rse(run, subrun, -1) in lookup;
      PairLookup(rses, run, subrun);
    }

    /** `inList(run, subrun, event)`: a negative event asks for the pair. */
    method InList(run: int, subrun: int, event: int) returns (found: bool)
      requires Valid()
      ensures event >= 0 ==> (found <==> Rse(run, subrun, event) in rses)
      ensures event < 0 ==> (found <==> exists r :: r in rses && r.run == run && r.subrun == subrun)
    {
      if event < 0 {
        found := InListPair(run, subrun);
        return;
      }
      found := Rse(run, subrun, event) in lookup;
    }

    /** `Intersection`: the argument's set is walked in increasing order. */
    method Intersection(other: RunList) returns (common: RunList)
      requires Valid() && other.Valid()
      ensures fresh(common) && common.Valid()
      ensures common.rses == InOrder(CommonEvents(lookup, other.lookup))
      // The events listed on both sides, by run, subrun and event.
      ensures forall e :: e in common.rses <==> e in rses && e in other.rses && e.event != -1
      ensures forall i, j :: 0 <= i < j < |common.rses| ==> Less(common.rses[i], common.rses[j])
    {
      var ans := WalkCommon(lookup, other.lookup);
      InOrderMeaning(CommonEvents(lookup, other.lookup));
      common := new RunList(ans);
    }

    /** `checkDuplicates`: prints the entries whose erasure fails, and returns an empty list. */
    method CheckDuplicates() returns (printed: seq<Rse>, answer: RunList)
      requires Valid()
      ensures printed == Repeats(rses)
      ensures fresh(answer) && answer.Valid() && answer.rses == []
    {
      var dups := lookup;
      printed := [];
      for i := 0 to |rses|
        invariant printed == Repeats(rses[..i])
        invariant forall r :: r in rses ==> (r in dups <==> r !in rses[..i])
      {
        var r := rses[i];
        assert rses[..i + 1] == rses[..i] + [r];
        assert (rses[..i] + [r])[..i] == rses[..i];
        if r !in dups {
          printed := printed + [r];
        }
        dups := dups - {r};
      }
      assert rses[..|rses|] == rses;
      answer := new RunList([]);
    }

    /** `getSubSet`: each new (run, subrun) pair consumes one random number. */
    method GetSubSet(per: real, draws: nat -> real) returns (sub: RunList)
      requires Valid()
      ensures fresh(sub) && sub.Valid()
      ensures sub.rses == Kept(rses, Accepted(rses, per, draws))
    {
      var ans := SelectPairs(rses, per, draws);
      sub := new RunList(ans);
    }
  }

  lemma SetMoves<T>(pass: set<T>, fail: set<T>, p: T)
    ensures (pass + {p}) + fail == (pass + fail) + {p} == pass + (fail + {p})
    ensures p in pass ==> pass + {p} == pass
    ensures p in pass + fail ==> (pass + fail) + {p} == pass + fail
    ensures pass + {} == pass
    ensures pass !! fail && p !in pass + fail ==> (pass + {p}) !! fail && pass !! (fail + {p})
  {}

  /** The loop of `getSubSet`. */
  method SelectPairs(rses: seq<Rse>, per: real, draws: nat -> real) returns (ans: seq<Rse>)
    ensures ans == Kept(rses, Accepted(rses, per, draws))
  {
    ans := [];
    var pass: set<(int, int)>, fail: set<(int, int)> := {}, {};
    for i := 0 to |rses|
      invariant pass == Accepted(rses[..i], per, draws)
      invariant pass + fail == Pairs(rses[..i]) && pass !! fail
      invariant ans == Kept(rses[..i], Accepted(rses, per, draws))
    {
      SubsetStep(rses, per, draws, i);
      hide Kept, Accepted, Pairs;
      var rs := rses[i].Pair();
      SetMoves(pass, fail, rs);
      if rs in pass {
        ans := ans + [rses[i]];
      } else if rs in fail {
        continue;
      } else {
        var ran := draws(|pass + fail|);
        if ran > per {
          pass := pass + {rs};
          ans := ans + [rses[i]];
        } else {
          fail := fail + {rs};
        }
      }
    }
    assert rses[..|rses|] == rses;
  }

  lemma KnownMarker(front: seq<Rse>, r: Rse)
    requires r in Entries(front) + Markers(front)
    ensures r.Marker() in Markers(front)
  {
    if r in Markers(front) {
      var x :| x in front && x.Marker() == r;
      assert r.Marker() == x.Marker();
    }
  }

  lemma PairLookup(rses: seq<Rse>, run: int, subrun: int)
    ensures Rse(run, subrun, -1) in Entries(rses) + Markers(rses)
       <==> exists r :: r in rses && r.run == run && r.subrun == subrun
  {
    if r :| r in rses && r.run == run && r.subrun == subrun {
      assert r.Marker() in Markers(rses);
    }
  }

  // ----- Unique events and duplicates -----

  /** Some listed entry (run, subrun, -1) comes after another entry of its pair. */
  ghost predicate HiddenByMarker(rses: seq<Rse>, i: int) {
    0 <= i < |rses| && rses[i] !in rses[..i] && rses[i] in Markers(rses[..i])
  }

  lemma EntriesStep(rses: seq<Rse>, n: nat)
    requires |rses| == n + 1
    ensures |Entries(rses)| == |Entries(rses[..n])| + if rses[n] in rses[..n] then 0 else 1
    ensures rses[n] in Entries(rses[..n]) + Markers(rses[..n])
       <==> rses[n] in rses[..n] || rses[n] in Markers(rses[..n])
  {
    var front, r := rses[..n], rses[n];
    SetsGrow(front, r);
    assert rses == front + [r];
    if r in front {
      assert Entries(front) + {r} == Entries(front);
    }
  }

  lemma {:induction false} CountedBounds(rses: seq<Rse>)
    ensures Counted(rses) <= |Entries(rses)|
    ensures Counted(rses) == |Entries(rses)| <==> forall i :: !HiddenByMarker(rses, i)
  {
    if rses != [] {
      var n := |rses| - 1;
      var front, r := rses[..n], rses[n];
      CountedBounds(front);
      EntriesStep(rses, n);
      HiddenStep(rses, n);
      hide Entries, Markers;
      assert HiddenByMarker(rses, n) <==> r !in front && r in Markers(front);
    }
  }

  lemma HiddenStep(rses: seq<Rse>, n: nat)
    requires |rses| == n + 1
    ensures (forall i :: !HiddenByMarker(rses, i))
       <==> (forall i :: !HiddenByMarker(rses[..n], i)) && !HiddenByMarker(rses, n)
  {
    forall i | 0 <= i < n
      ensures HiddenByMarker(rses, i) <==> HiddenByMarker(rses[..n], i)
    {
      assert rses[..n][..i] == rses[..i];
    }
    if forall i :: !HiddenByMarker(rses, i) {
      forall i
        ensures !HiddenByMarker(rses[..n], i)
      {
        if 0 <= i < n {
          assert !HiddenByMarker(rses, i);
        }
      }
    }
    if (forall i :: !HiddenByMarker(rses[..n], i)) && !HiddenByMarker(rses, n) {
      forall i
        ensures !HiddenByMarker(rses, i)
      {
        if 0 <= i < n {
          assert !HiddenByMarker(rses[..n], i);
        }
      }
    }
  }

  /** The entries that occurred before, in order. */
  function Repeats(rses: seq<Rse>): seq<Rse> {
    if rses == [] then []
    else
      var front, r := rses[..|rses| - 1], rses[|rses| - 1];
      Repeats(front) + if r in front then [r] else []
  }

  /** The picked indices below n, in order. */
  function Indices(n: nat, pick: nat -> bool): (idx: seq<nat>)
    ensures forall i: nat :: i in idx <==> i < n && pick(i)
    ensures forall k :: 0 <= k < |idx| ==> idx[k] < n
    ensures forall k, l :: 0 <= k < l < |idx| ==> idx[k] < idx[l]
  {
    if n == 0 then []
    else if pick(n - 1) then Indices(n - 1, pick) + [n - 1]
    else Indices(n - 1, pick)
  }

  function EntriesAt(rses: seq<Rse>, idx: seq<nat>): seq<Rse>
    requires forall k :: 0 <= k < |idx| ==> idx[k] < |rses|
  {
    seq(|idx|, k requires 0 <= k < |idx| => rses[idx[k]])
  }

  /** Those are all occurrences but the first, in list order. */
  lemma {:induction false} RepeatsAre(rses: seq<Rse>, n: nat, pick: nat -> bool)
    requires n <= |rses| && forall i: nat :: i < n ==> (pick(i) <==> rses[i] in rses[..i])
    ensures Repeats(rses[..n]) == EntriesAt(rses, Indices(n, pick))
  {
    if n > 0 {
      RepeatsAre(rses, n - 1, pick);
      RepeatsStep(rses, n);
      hide Repeats;
      EntriesAtStep(rses, Indices(n - 1, pick), n - 1);
    }
  }

  lemma RepeatsStep(rses: seq<Rse>, n: nat)
    requires 0 < n <= |rses|
    ensures Repeats(rses[..n]) == Repeats(rses[..n - 1]) + if rses[n - 1] in rses[..n - 1] then [rses[n - 1]] else []
  {
    assert rses[..n][..n - 1] == rses[..n - 1];
  }

  lemma EntriesAtStep(rses: seq<Rse>, idx: seq<nat>, i: nat)
    requires i < |rses| && forall k :: 0 <= k < |idx| ==> idx[k] < |rses|
    ensures EntriesAt(rses, idx + [i]) == EntriesAt(rses, idx) + [rses[i]]
  {}

  lemma {:induction false} RepeatsCount(rses: seq<Rse>)
    ensures |Repeats(rses)| + |Entries(rses)| == |rses|
  {
    if rses != [] {
      var n := |rses| - 1;
      RepeatsCount(rses[..n]);
      EntriesStep(rses, n);
    }
  }

  /** `unique_events` is the number of distinct entries, and the announced number of
      duplicates the number printed, exactly when no listed (run, subrun, -1) entry is hidden
      by the marker of an earlier one; in particular when no event number is -1. */
  lemma UniqueEventsIff(rses: seq<Rse>)
    ensures Counted(rses) == |Entries(rses)| <==> forall i :: !HiddenByMarker(rses, i)
    ensures |rses| - Counted(rses) == |Repeats(rses)| <==> forall i :: !HiddenByMarker(rses, i)
    ensures (forall r :: r in rses ==> r.event != -1) ==> Counted(rses) == |Entries(rses)|
  {
    CountedBounds(rses);
    RepeatsCount(rses);
  }

  function HiddenAt(rses: seq<Rse>): set<int> {
    set i | 0 <= i < |rses| && rses[i] !in rses[..i] && rses[i] in Markers(rses[..i])
  }

  lemma HiddenAtStep(rses: seq<Rse>, n: nat)
    requires |rses| == n + 1
    ensures n !in HiddenAt(rses[..n])
    ensures HiddenAt(rses)
         == HiddenAt(rses[..n]) + if rses[n] !in rses[..n] && rses[n] in Markers(rses[..n]) then {n} else {}
  {
    hide Markers;
    var front := rses[..n];
    forall i | 0 <= i < n
      ensures front[i] == rses[i] && front[..i] == rses[..i]
    {}
    forall i
      ensures i in HiddenAt(front) <==> i in HiddenAt(rses) && i < n
    {
      if 0 <= i < n {
        assert front[i] == rses[i] && front[..i] == rses[..i];
      }
    }
  }

  /** The entries missing in the count are the hidden ones. */
  lemma {:induction false} CountedAndHidden(rses: seq<Rse>)
    ensures Counted(rses) + |HiddenAt(rses)| == |Entries(rses)|
  {
    hide HiddenAt, Markers;
    if rses == [] {
      NothingHidden();
    } else {
      var n := |rses| - 1;
      CountedAndHidden(rses[..n]);
      EntriesStep(rses, n);
      HiddenAtStep(rses, n);
      hide Entries;
    }
  }

  lemma NothingHidden()
    ensures HiddenAt([]) == {} && Entries([]) == {}
  {}

  /** The failing input: an entry with event -1 after another one of its pair is not counted. */
  lemma HiddenEntryIsNotCounted()
    ensures var rses := [Rse(1, 1, 5), Rse(1, 1, -1)]; Counted(rses) != |Entries(rses)|
  {
    var rses := [Rse(1, 1, 5), Rse(1, 1, -1)];
    assert rses[..1] == [Rse(1, 1, 5)];
    assert rses[0].Marker() in Markers(rses[..1]);
    assert HiddenByMarker(rses, 1);
    UniqueEventsIff(rses);
  }

  // ----- Intersections -----

  /** Real events stored on both sides. */
  function CommonEvents(a: set<Rse>, b: set<Rse>): set<Rse> {
    set e | e in a && e in b && e.event != -1
  }

  predicate IsLeast(e: Rse, s: set<Rse>) {
    e in s && forall x :: x in s && x != e ==> Less(e, x)
  }

  lemma {:induction false} HasLeast(s: set<Rse>)
    requires s != {}
    ensures exists e :: IsLeast(e, s)
    decreases |s|
  {
    var x :| x in s;
    var rest := s - {x};
    if rest == {} {
      assert s == {x};
      assert IsLeast(x, s);
    } else {
      HasLeast(rest);
      var e :| IsLeast(e, rest);
      var least := if Less(x, e) then x else e;
      forall y | y in s && y != least
        ensures Less(least, y)
      {
        assert y in rest || y == x;
        LessIsTotalOrder(x, e, y);
      }
      assert IsLeast(least, s);
    }
  }

  /** The elements of a `std::set` in iteration order. */
  ghost function InOrder(s: set<Rse>): seq<Rse>
    decreases |s|
  {
    if s == {} then []
    else
      HasLeast(s);
      var e :| IsLeast(e, s);
      [e] + InOrder(s - {e})
  }

  /** Each element once, in increasing order. */
  lemma {:induction false} InOrderMeaning(s: set<Rse>)
    ensures forall e :: e in InOrder(s) <==> e in s
    ensures forall i, j :: 0 <= i < j < |InOrder(s)| ==> Less(InOrder(s)[i], InOrder(s)[j])
    decreases |s|
  {
    if s != {} {
      HasLeast(s);
      var e :| IsLeast(e, s);
      LeastFirst(s, e);
      hide InOrder;
      InOrderMeaning(s - {e});
      var rest := InOrder(s - {e});
      forall j | 0 <= j < |rest|
        ensures Less(e, rest[j])
      {
        assert rest[j] in rest;
      }
    }
  }

  lemma LeastFirst(s: set<Rse>, e: Rse)
    requires IsLeast(e, s)
    ensures InOrder(s) == [e] + InOrder(s - {e})
  {
    HasLeast(s);
  }

  lemma OrderStep(shared: set<Rse>, todo: set<Rse>, e: Rse)
    requires IsLeast(e, todo)
    ensures InOrder(shared * todo) == (if e in shared then [e] else []) + InOrder(shared * (todo - {e}))
  {
    if e in shared {
      LeastFirst(shared * todo, e);
      assert shared * todo - {e} == shared * (todo - {e});
    } else {
      assert shared * todo == shared * (todo - {e});
    }
  }

  /** The loop of `Intersection`. */
  method WalkCommon(mine: set<Rse>, theirs: set<Rse>) returns (ans: seq<Rse>)
    ensures ans == InOrder(CommonEvents(mine, theirs))
  {
    hide InOrder;
    ghost var shared := CommonEvents(mine, theirs);
    ans := [];
    var todo := theirs;
    assert shared * todo == shared;
    while todo != {}
      invariant todo <= theirs
      invariant InOrder(shared) == ans + InOrder(shared * todo)
      decreases |todo|
    {
      HasLeast(todo);
      var e :| IsLeast(e, todo);
      OrderStep(shared, todo, e);
      assert e in todo;
      if e.event != -1 && e in mine {
        ans := ans + [e];
      }
      todo := todo - {e};
    }
    assert shared * todo == {};
    NothingInOrder();
  }

  lemma NothingInOrder()
    ensures InOrder({}) == []
  {}

  /** Intersecting in either order gives the same list in the same order, hence the same
      lookup set and the same count. */
  lemma IntersectionCommutes(a: seq<Rse>, b: seq<Rse>)
    ensures InOrder(CommonEvents(Entries(a) + Markers(a), Entries(b) + Markers(b)))
         == InOrder(CommonEvents(Entries(b) + Markers(b), Entries(a) + Markers(a)))
    ensures CommonEvents(Entries(a) + Markers(a), Entries(b) + Markers(b))
         == set e | e in a && e in b && e.event != -1
  {
    var x, y := Entries(a) + Markers(a), Entries(b) + Markers(b);
    assert CommonEvents(x, y) == CommonEvents(y, x);
  }

  // ----- Subsets -----

  function Pairs(rses: seq<Rse>): set<(int, int)> {
    set r | r in rses :: r.Pair()
  }

  lemma PairsGrow(rses: seq<Rse>, r: Rse)
    ensures Pairs(rses + [r]) == Pairs(rses) + {r.Pair()}
  {
    assert forall x :: x in rses + [r] <==> x in rses || x == r;
    forall p | p in Pairs(rses) + {r.Pair()}
      ensures p in Pairs(rses + [r])
    {
      if p in Pairs(rses) {
        var x :| x in rses && x.Pair() == p;
        assert x in rses + [r];
      } else {
        assert r in rses + [r];
      }
    }
  }

  /** The accepted pairs: the n-th new pair is accepted when the n-th draw exceeds `per`. */
  function Accepted(rses: seq<Rse>, per: real, draws: nat -> real): set<(int, int)> {
    if rses == [] then {}
    else
      var front, p := rses[..|rses| - 1], rses[|rses| - 1].Pair();
      if p !in Pairs(front) && draws(|Pairs(front)|) > per then Accepted(front, per, draws) + {p}
      else Accepted(front, per, draws)
  }

  /** The entries of accepted pairs, in order. */
  function Kept(rses: seq<Rse>, pass: set<(int, int)>): seq<Rse> {
    if rses == [] then []
    else
      var front, r := rses[..|rses| - 1], rses[|rses| - 1];
      Kept(front, pass) + if r.Pair() in pass then [r] else []
  }

  lemma {:induction false} AcceptedFromPairs(rses: seq<Rse>, per: real, draws: nat -> real)
    ensures Accepted(rses, per, draws) <= Pairs(rses)
  {
    if rses != [] {
      var n := |rses| - 1;
      AcceptedFromPairs(rses[..n], per, draws);
      PairsGrow(rses[..n], rses[n]);
      assert rses == rses[..n] + [rses[n]];
    }
  }

  /** The decision about a pair is made at its first entry and never revised. */
  lemma {:induction false} AcceptedIsStable(rses: seq<Rse>, per: real, draws: nat -> real, i: nat)
    requires i <= |rses|
    ensures forall p :: p in Pairs(rses[..i]) ==>
              (p in Accepted(rses[..i], per, draws) <==> p in Accepted(rses, per, draws))
    ensures Pairs(rses[..i]) <= Pairs(rses)
    decreases |rses|
  {
    if i == |rses| {
      assert rses[..i] == rses;
    } else {
      var n := |rses| - 1;
      AcceptedIsStable(rses[..n], per, draws, i);
      assert rses[..n][..i] == rses[..i];
      PairsGrow(rses[..n], rses[n]);
      assert rses == rses[..n] + [rses[n]];
    }
  }

  /** One entry of the selection loop. */
  lemma SubsetStep(rses: seq<Rse>, per: real, draws: nat -> real, i: nat)
    requires i < |rses|
    ensures var front, p, all := rses[..i], rses[i].Pair(), Accepted(rses, per, draws);
      var accepted := if p in Pairs(front) then p in Accepted(front, per, draws) else draws(|Pairs(front)|) > per;
      && Pairs(rses[..i + 1]) == Pairs(front) + {p}
      && Accepted(rses[..i + 1], per, draws) == Accepted(front, per, draws) + (if accepted then {p} else {})
      && Kept(rses[..i + 1], all) == Kept(front, all) + (if accepted then [rses[i]] else [])
  {
    var front := rses[..i];
    assert rses[..i + 1] == front + [rses[i]];
    assert rses[..i + 1][..i] == front;
    PairsGrow(front, rses[i]);
    AcceptedFromPairs(front, per, draws);
    AcceptedIsStable(rses, per, draws, i + 1);
  }

  lemma {:induction false} KeptMeaning(rses: seq<Rse>, pass: set<(int, int)>)
    ensures forall r :: r in Kept(rses, pass) <==> r in rses && r.Pair() in pass
  {
    if rses != [] {
      var n := |rses| - 1;
      KeptMeaning(rses[..n], pass);
      assert rses == rses[..n] + [rses[n]];
    }
  }

  /** The kept entries are all those of accepted pairs, in list order. */
  lemma {:induction false} KeptAre(rses: seq<Rse>, n: nat, pass: set<(int, int)>, pick: nat -> bool)
    requires n <= |rses| && forall i: nat :: i < n ==> (pick(i) <==> (rses[i].run, rses[i].subrun) in pass)
    ensures Kept(rses[..n], pass) == EntriesAt(rses, Indices(n, pick))
  {
    if n > 0 {
      KeptAre(rses, n - 1, pass, pick);
      KeptStep(rses, n, pass);
      hide Kept;
      EntriesAtStep(rses, Indices(n - 1, pick), n - 1);
    }
  }

  lemma KeptStep(rses: seq<Rse>, n: nat, pass: set<(int, int)>)
    requires 0 < n <= |rses|
    ensures Kept(rses[..n], pass)
         == Kept(rses[..n - 1], pass) + if (rses[n - 1].run, rses[n - 1].subrun) in pass then [rses[n - 1]] else []
  {
    assert rses[..n][..n - 1] == rses[..n - 1];
  }

  /** A (run, subrun) group is kept whole or not at all ... */
  lemma GroupsAreWhole(rses: seq<Rse>, per: real, draws: nat -> real, i: nat, j: nat)
    requires i < |rses| && j < |rses| && rses[i].run == rses[j].run && rses[i].subrun == rses[j].subrun
    ensures var kept := Kept(rses, Accepted(rses, per, draws)); rses[i] in kept <==> rses[j] in kept
  {
    KeptMeaning(rses, Accepted(rses, per, draws));
  }

  lemma PairsOfPrefix(rses: seq<Rse>, i: nat)
    requires i < |rses|
    ensures Pairs(rses[..i]) == set k | 0 <= k < i :: (rses[k].run, rses[k].subrun)
  {
    forall k | 0 <= k < i
      ensures rses[k].Pair() in Pairs(rses[..i])
    {
      assert rses[..i][k] == rses[k];
    }
  }

  /** ... and which it is depends only on the draw its first entry received. */
  lemma FirstDrawDecides(rses: seq<Rse>, per: real, draws: nat -> real, i: nat)
    requires i < |rses|
    requires forall k :: 0 <= k < i ==> rses[k].run != rses[i].run || rses[k].subrun != rses[i].subrun
    ensures var earlier := set k | 0 <= k < i :: (rses[k].run, rses[k].subrun);
      rses[i] in Kept(rses, Accepted(rses, per, draws)) <==> draws(|earlier|) > per
  {
    PairsOfPrefix(rses, i);
    SubsetStep(rses, per, draws, i);
    AcceptedIsStable(rses, per, draws, i + 1);
    AcceptedFromPairs(rses[..i], per, draws);
    KeptMeaning(rses, Accepted(rses, per, draws));
    hide Kept, Pairs;
  }
}
