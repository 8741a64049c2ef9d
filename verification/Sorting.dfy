/** What `std::sort` leaves behind: the one ascending arrangement of a bag. */
module Sorting {

  type Order<!T> = (T, T) -> bool

  ghost predicate TotalOrder<T(!new)>(le: Order<T>) {
    && (forall x, y :: le(x, y) || le(y, x))
    && (forall x, y :: le(x, y) && le(y, x) ==> x == y)
    && (forall x, y, z :: le(x, y) && le(y, z) ==> le(x, z))
  }

  ghost predicate Ascending<T>(le: Order<T>, s: seq<T>) {
    forall i, j :: 0 <= i < j < |s| ==> le(s[i], s[j])
  }

  function Insert<T>(le: Order<T>, x: T, t: seq<T>): (r: seq<T>)
    ensures |r| == |t| + 1 && (r[0] == x || (t != [] && r[0] == t[0]))
  {
    if t == [] || le(x, t[0]) then [x] + t else [t[0]] + Insert(le, x, t[1..])
  }

  function Sorted<T>(le: Order<T>, v: seq<T>): (t: seq<T>)
    ensures |t| == |v|
  {
    if v == [] then [] else Insert(le, v[0], Sorted(le, v[1..]))
  }

  lemma {:induction false} InsertBag<T>(le: Order<T>, x: T, t: seq<T>)
    ensures multiset(Insert(le, x, t)) == multiset(t) + multiset{x}
  {
    if t != [] && !le(x, t[0]) {
      InsertBag(le, x, t[1..]);
      assert t == [t[0]] + t[1..];
    }
  }

  lemma {:induction false} InsertAscending<T(!new)>(le: Order<T>, x: T, t: seq<T>)
    requires TotalOrder(le) && Ascending(le, t)
    ensures Ascending(le, Insert(le, x, t))
  {
    if t != [] && !le(x, t[0]) {
      InsertAscending(le, x, t[1..]);
      AscendingCons(le, t[0], Insert(le, x, t[1..]));
    } else {
      AscendingCons(le, x, t);
    }
  }

  lemma AscendingCons<T(!new)>(le: Order<T>, x: T, t: seq<T>)
    requires TotalOrder(le) && Ascending(le, t) && (t != [] ==> le(x, t[0]))
    ensures Ascending(le, [x] + t)
  {
    var s := [x] + t;
    forall i, j | 0 <= i < j < |s|
      ensures le(s[i], s[j])
    {
      if i == 0 && j > 1 {
        assert le(t[0], t[j - 1]);
      } else if i > 0 {
        assert le(t[i - 1], t[j - 1]);
      }
    }
  }

  lemma {:induction false} SortedIsSorted<T(!new)>(le: Order<T>, v: seq<T>)
    requires TotalOrder(le)
    ensures Ascending(le, Sorted(le, v)) && multiset(Sorted(le, v)) == multiset(v)
  {
    if v != [] {
      SortedIsSorted(le, v[1..]);
      InsertBag(le, v[0], Sorted(le, v[1..]));
      InsertAscending(le, v[0], Sorted(le, v[1..]));
      assert v == [v[0]] + v[1..];
    }
  }

  /** A bag has one ascending arrangement. */
  lemma {:induction false} AscendingUnique<T(!new)>(le: Order<T>, s: seq<T>, t: seq<T>)
    requires TotalOrder(le) && Ascending(le, s) && Ascending(le, t) && multiset(s) == multiset(t)
    ensures s == t
  {
    hide Ascending, TotalOrder;
    assert |multiset(s)| == |multiset(t)|;
    if s != [] {
      var x := SameFirst(le, s, t);
      AscendingUnique(le, s[1..], t[1..]);
      assert s == [x] + s[1..] && t == [x] + t[1..];
    }
  }

  lemma SameFirst<T(!new)>(le: Order<T>, s: seq<T>, t: seq<T>) returns (x: T)
    requires TotalOrder(le) && Ascending(le, s) && Ascending(le, t) && s != [] && t != [] && multiset(s) == multiset(t)
    ensures x == s[0] == t[0]
    ensures Ascending(le, s[1..]) && Ascending(le, t[1..]) && multiset(s[1..]) == multiset(t[1..])
  {
    x := s[0];
    FirstIsLeast(le, s, t[0]);
    FirstIsLeast(le, t, s[0]);
    TailBag(s);
    TailBag(t);
  }

  lemma FirstIsLeast<T(!new)>(le: Order<T>, s: seq<T>, m: T)
    requires TotalOrder(le) && Ascending(le, s) && s != []
    ensures s[0] in multiset(s)
    ensures m in multiset(s) ==> le(s[0], m)
  {
    if m in multiset(s) {
      var i :| 0 <= i < |s| && s[i] == m;
    }
  }

  lemma TailBag<T>(s: seq<T>)
    requires s != []
    ensures multiset(s[1..]) == multiset(s) - multiset{s[0]}
  {
    assert s == [s[0]] + s[1..];
  }

  /** The arrangement depends on the bag alone, and determines it. */
  lemma SortedEqualIff<T(!new)>(le: Order<T>, v: seq<T>, w: seq<T>)
    requires TotalOrder(le)
    ensures Sorted(le, v) == Sorted(le, w) <==> multiset(v) == multiset(w)
  {
    SortedIsSorted(le, v);
    SortedIsSorted(le, w);
    if multiset(v) == multiset(w) {
      AscendingUnique(le, Sorted(le, v), Sorted(le, w));
    }
  }
}
