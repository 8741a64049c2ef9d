/** The matching loop of hive/other/make_arborist_from_sbnfit.c: every event of a skimmed
    (daughter) file takes the weights of an unused parent event with its run, subrun and event. */
module Arborist {
  import opened Wrappers

  datatype Rse = Rse(run: int, subrun: int, event: int)

  /** What is written: nothing at all once a daughter has no partner. A row has no weights when
      none have been read yet. */
  datatype Result<+W> = Matched(rows: seq<Option<W>>, partners: seq<nat>) | NotFound(daughter: nat)

  ghost function Keys(parents: seq<Rse>, indices: seq<nat>): (keys: seq<Rse>)
    requires forall o :: 0 <= o < |indices| ==> indices[o] < |parents|
    ensures |keys| == |indices|
  {
    seq(|indices|, o requires 0 <= o < |indices| => parents[indices[o]])
  }

  ghost predicate Increasing(s: seq<nat>) {
    forall i, j :: 0 <= i < j < |s| ==> s[i] < s[j]
  }

  /** The inner search: the position of the first unused parent with the key. */
  method FindUnused(parents: seq<Rse>, indices: seq<nat>, key: Rse) returns (found: bool, o: nat)
    requires forall o :: 0 <= o < |indices| ==> indices[o] < |parents|
    ensures found <==> key in Keys(parents, indices)
    ensures found ==> o < |indices| && parents[indices[o]] == key
    ensures found ==> forall p :: 0 <= p < o ==> parents[indices[p]] != key
  {
    found, o := false, 0;
    while o < |indices|
      invariant o <= |indices| && !found
      invariant forall p :: 0 <= p < o ==> parents[indices[p]] != key
    {
      if parents[indices[o]] == key {
        assert Keys(parents, indices)[o] == key;
        found := true;
        break;
      }
      o := o + 1;
    }
  }

  /** Removing position o from the unused indices removes its key once. */
  lemma EraseKey(parents: seq<Rse>, indices: seq<nat>, o: nat)
    requires forall p :: 0 <= p < |indices| ==> indices[p] < |parents|
    requires o < |indices|
    ensures var rest := indices[..o] + indices[o + 1..];
      (forall p :: 0 <= p < |rest| ==> rest[p] < |parents|)
      && multiset(Keys(parents, indices)) == multiset(Keys(parents, rest)) + multiset{parents[indices[o]]}
  {
    var rest := indices[..o] + indices[o + 1..];
    var keys := Keys(parents, indices);
    assert keys == keys[..o] + [keys[o]] + keys[o + 1..];
    assert Keys(parents, rest) == keys[..o] + keys[o + 1..];
  }

  /** Unused and used parent indices. */
  ghost predicate Partition(n: nat, unused: seq<nat>, used: seq<nat>) {
    && Increasing(unused)
    && (forall p :: 0 <= p < |unused| ==> unused[p] < n && unused[p] !in used)
    && (forall i :: 0 <= i < |used| ==> used[i] < n)
    && (forall i, j :: 0 <= i < j < |used| ==> used[i] != used[j])
  }

  /** Among unused parents, all with the key of a matched daughter come after its partner. */
  ghost predicate InOrder(parents: seq<Rse>, unused: seq<nat>, used: seq<nat>)
    requires Partition(|parents|, unused, used)
  {
    && (forall i, p :: 0 <= i < |used| && 0 <= p < |unused| && parents[unused[p]] == parents[used[i]] ==>
          used[i] < unused[p])
    && (forall i, j :: 0 <= i < j < |used| && parents[used[i]] == parents[used[j]] ==> used[i] < used[j])
  }

  lemma MovePartner(parents: seq<Rse>, unused: seq<nat>, used: seq<nat>, o: nat)
    requires Partition(|parents|, unused, used) && InOrder(parents, unused, used)
    requires o < |unused| && forall p :: 0 <= p < o ==> parents[unused[p]] != parents[unused[o]]
    ensures Partition(|parents|, unused[..o] + unused[o + 1..], used + [unused[o]])
    ensures InOrder(parents, unused[..o] + unused[o + 1..], used + [unused[o]])
  {
    var rest := unused[..o] + unused[o + 1..];
    forall p | 0 <= p < |rest|
      ensures rest[p] == (if p < o then unused[p] else unused[p + 1])
    {}
    forall i, j | 0 <= i < j < |rest|
      ensures rest[i] < rest[j]
    {}
  }

  /** Row i holds the weights of its partner; a partner past the end of the weight tree leaves
      the weights of the row before, or none at all, in place. */
  ghost predicate Serves<W>(weights: seq<W>, partners: seq<nat>, rows: seq<Option<W>>, i: nat)
    requires i < |partners| && i < |rows|
  {
    if partners[i] < |weights| then rows[i] == Some(weights[partners[i]])
    else rows[i] == if i == 0 then None else rows[i - 1]
  }

  /** After i daughters: who serves them, and what is left for the others. */
  ghost predicate Progress(parents: seq<Rse>, daughters: seq<Rse>, i: nat, unused: seq<nat>, partners: seq<nat>) {
    && i <= |daughters| && |partners| == i
    && Partition(|parents|, unused, partners) && InOrder(parents, unused, partners)
    && (forall k :: 0 <= k < i ==> parents[partners[k]] == daughters[k])
    && multiset(parents) == multiset(daughters[..i]) + multiset(Keys(parents, unused))
  }

  lemma Start(parents: seq<Rse>, daughters: seq<Rse>, unused: seq<nat>)
    requires |unused| == |parents| && forall o :: 0 <= o < |parents| ==> unused[o] == o
    ensures Progress(parents, daughters, 0, unused, [])
  {
    assert Keys(parents, unused) == parents;
  }

  /** The first unused parent with the key serves daughter i. */
  lemma Step(parents: seq<Rse>, daughters: seq<Rse>, i: nat, unused: seq<nat>, partners: seq<nat>, o: nat)
    requires Progress(parents, daughters, i, unused, partners) && i < |daughters|
    requires o < |unused| && parents[unused[o]] == daughters[i]
    requires forall p :: 0 <= p < o ==> parents[unused[p]] != daughters[i]
    ensures Progress(parents, daughters, i + 1, unused[..o] + unused[o + 1..], partners + [unused[o]])
  {
    hide InOrder, Keys;
    MovePartner(parents, unused, partners, o);
    EraseKey(parents, unused, o);
    assert daughters[..i + 1] == daughters[..i] + [daughters[i]];
  }

  lemma Stuck(parents: seq<Rse>, daughters: seq<Rse>, i: nat, unused: seq<nat>, partners: seq<nat>)
    requires Progress(parents, daughters, i, unused, partners)
    requires i < |daughters| && daughters[i] !in Keys(parents, unused)
    ensures multiset(daughters[..i]) <= multiset(parents)
    ensures !(multiset(daughters[..i + 1]) <= multiset(parents))
    ensures !(multiset(daughters) <= multiset(parents))
  {
    NotContained(daughters, i, parents, Keys(parents, unused));
  }

  lemma Done(parents: seq<Rse>, daughters: seq<Rse>, unused: seq<nat>, partners: seq<nat>)
    requires Progress(parents, daughters, |daughters|, unused, partners)
    ensures multiset(daughters) <= multiset(parents)
    ensures forall i :: 0 <= i < |daughters| ==> partners[i] < |parents| && parents[partners[i]] == daughters[i]
    ensures forall i, j :: 0 <= i < j < |daughters| ==> partners[i] != partners[j]
    ensures forall i, j :: 0 <= i < j < |daughters| && daughters[i] == daughters[j] ==> partners[i] < partners[j]
  {
    assert daughters[..|daughters|] == daughters;
  }

  lemma RowsServed<W>(weights: seq<W>, partners: seq<nat>, rows: seq<Option<W>>)
    requires |partners| == |rows| && forall k :: 0 <= k < |rows| ==> Serves(weights, partners, rows, k)
    ensures forall i :: 0 <= i < |rows| && partners[i] < |weights| ==> rows[i] == Some(weights[partners[i]])
    ensures forall i :: 0 < i < |rows| && partners[i] >= |weights| ==> rows[i] == rows[i - 1]
    ensures rows != [] && partners[0] >= |weights| ==> rows[0] == None
  {
    forall i | 0 <= i < |rows| && partners[i] < |weights|
      ensures rows[i] == Some(weights[partners[i]])
    {
      assert Serves(weights, partners, rows, i);
    }
    forall i | 0 < i < |rows| && partners[i] >= |weights|
      ensures rows[i] == rows[i - 1]
    {
      assert Serves(weights, partners, rows, i);
    }
    assert rows != [] ==> Serves(weights, partners, rows, 0);
  }

  lemma ServesOneMore<W>(weights: seq<W>, partners: seq<nat>, rows: seq<Option<W>>, j: nat, row: Option<W>)
    requires |partners| == |rows|
    requires forall k :: 0 <= k < |rows| ==> Serves(weights, partners, rows, k)
    requires row == if j < |weights| then Some(weights[j]) else if rows == [] then None else rows[|rows| - 1]
    ensures forall k :: 0 <= k <= |rows| ==> Serves(weights, partners + [j], rows + [row], k)
  {
    forall k | 0 <= k < |rows|
      ensures Serves(weights, partners + [j], rows + [row], k)
    {
      assert Serves(weights, partners, rows, k);
    }
  }

  /** The loop over the daughters, up to the first without a partner. */
  method MatchEach<W>(parents: seq<Rse>, weights: seq<W>, daughters: seq<Rse>)
    returns (count: nat, rows: seq<Option<W>>, partners: seq<nat>, ghost unused: seq<nat>)
    ensures Progress(parents, daughters, count, unused, partners)
    ensures forall p :: 0 <= p < |unused| ==> unused[p] < |parents|
    ensures count < |daughters| ==> daughters[count] !in Keys(parents, unused)
    ensures |rows| == |partners| == count <= |daughters|
    ensures forall k :: 0 <= k < |rows| ==> Serves(weights, partners, rows, k)
  {
    hide Progress, Serves;
    var originalIndex: seq<nat> := seq(|parents|, i => i);
    rows, partners := [], [];
    var inWeights: Option<W> := None;
    Start(parents, daughters, originalIndex);
    for i := 0 to |daughters|
      invariant Progress(parents, daughters, i, originalIndex, partners)
      invariant forall p :: 0 <= p < |originalIndex| ==> originalIndex[p] < |parents|
      invariant |rows| == |partners| == i && inWeights == if i == 0 then None else rows[i - 1]
      invariant forall k :: 0 <= k < i ==> Serves(weights, partners, rows, k)
    {
      var found, o := FindUnused(parents, originalIndex, daughters[i]);
      if !found {
        return i, rows, partners, originalIndex;
      }
      Step(parents, daughters, i, originalIndex, partners, o);
      var j := originalIndex[o];
      originalIndex := originalIndex[..o] + originalIndex[o + 1..];
      if j < |weights| {
        inWeights := Some(weights[j]);
      }
      ServesOneMore(weights, partners, rows, j, inWeights);
      partners := partners + [j];
      rows := rows + [inWeights];
    }
    count, unused := |daughters|, originalIndex;
  }

  method MatchDaughters<W>(parents: seq<Rse>, weights: seq<W>, daughters: seq<Rse>) returns (result: Result<W>)
    ensures result.Matched? <==> multiset(daughters) <= multiset(parents)
    // Every daughter gets the weights of a parent with its key.
    ensures result.Matched? ==>
      && |result.rows| == |result.partners| == |daughters|
      && (forall i :: 0 <= i < |daughters| ==>
            result.partners[i] < |parents| && parents[result.partners[i]] == daughters[i])
      && (forall i :: 0 <= i < |daughters| && result.partners[i] < |weights| ==>
            result.rows[i] == Some(weights[result.partners[i]]))
      && (forall i :: 0 < i < |daughters| && result.partners[i] >= |weights| ==> result.rows[i] == result.rows[i - 1])
      && (daughters != [] && result.partners[0] >= |weights| ==> result.rows[0] == None)
    // No parent is used twice, and equal keys are served in file order.
    ensures result.Matched? ==>
      && (forall i, j :: 0 <= i < j < |daughters| ==> result.partners[i] != result.partners[j])
      && (forall i, j :: 0 <= i < j < |daughters| && daughters[i] == daughters[j] ==>
            result.partners[i] < result.partners[j])
    // The daughter reported missing is the first whose key the parents have run out of.
    ensures result.NotFound? ==>
      var i := result.daughter;
      && i < |daughters|
      && multiset(daughters[..i]) <= multiset(parents) && !(multiset(daughters[..i + 1]) <= multiset(parents))
  {
    hide Progress, Keys, Serves;
    var count, rows, partners, unused := MatchEach(parents, weights, daughters);
    if count < |daughters| {
      Stuck(parents, daughters, count, unused, partners);
      result := NotFound(count);
    } else {
      Done(parents, daughters, unused, partners);
      RowsServed(weights, partners, rows);
      result := Matched(rows, partners);
    }
  }

  lemma NotContained(daughters: seq<Rse>, i: nat, parents: seq<Rse>, left: seq<Rse>)
    requires i < |daughters| && daughters[i] !in left
    requires multiset(parents) == multiset(daughters[..i]) + multiset(left)
    ensures !(multiset(daughters[..i + 1]) <= multiset(parents))
    ensures !(multiset(daughters) <= multiset(parents))
  {
    var key := daughters[i];
    assert daughters[..i + 1] == daughters[..i] + [key];
    assert multiset(left)[key] == 0;
    assert multiset(daughters[..i + 1])[key] > multiset(parents)[key];
    assert daughters == daughters[..i + 1] + daughters[i + 1..];
    assert multiset(daughters)[key] >= multiset(daughters[..i + 1])[key];
  }
}
