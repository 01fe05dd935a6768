/**
 * The `defaultdict(list)` idiom: walk a sequence and append each element to
 * the list of every key it belongs to. `Groups(s, keys)` is the dictionary
 * that results when element `x` belongs to the keys in `keys(x)`; reading a
 * missing key gives the empty list (`Lookup`), as a `defaultdict` does.
 */
module Buckets {

  /** The elements of `s` that satisfy `p`, in their order in `s`. */
  function Filter<T(!new)>(s: seq<T>, p: T -> bool): (r: seq<T>)
    ensures |r| <= |s|
    ensures forall x :: x in r <==> x in s && p(x)
  {
    if s == [] then []
    else Filter(s[..|s| - 1], p) + (if p(s[|s| - 1]) then [s[|s| - 1]] else [])
  }

  lemma FilterAppend<T(!new)>(s: seq<T>, x: T, p: T -> bool)
    ensures Filter(s + [x], p) == Filter(s, p) + (if p(x) then [x] else [])
  {
    assert (s + [x])[..|s|] == s;
  }

  /** Each element occurs in the filtered sequence as often as in `s` if it satisfies `p`, else never. */
  lemma {:induction false} FilterCount<T(!new)>(s: seq<T>, p: T -> bool, x: T)
    ensures multiset(Filter(s, p))[x] == if p(x) then multiset(s)[x] else 0
    decreases |s|
  {
    if s != [] {
      var init, last := s[..|s| - 1], s[|s| - 1];
      assert s == init + [last];
      FilterCount(init, p, x);
    }
  }

  /** The positions in `s` of the elements that satisfy `p`, in increasing order. */
  function Positions<T(!new)>(s: seq<T>, p: T -> bool): (r: seq<nat>)
  {
    if s == [] then []
    else Positions(s[..|s| - 1], p) + (if p(s[|s| - 1]) then [|s| - 1] else [])
  }

  /**
   * Filtering keeps order: the i-th element kept is the element of `s` at the
   * i-th position that satisfies `p`, and those positions increase.
   */
  lemma {:induction false} FilterKeepsOrder<T(!new)>(s: seq<T>, p: T -> bool)
    ensures var pos := Positions(s, p);
      && |pos| == |Filter(s, p)|
      && (forall i :: 0 <= i < |pos| ==> pos[i] < |s| && Filter(s, p)[i] == s[pos[i]])
      && (forall i, j :: 0 <= i < j < |pos| ==> pos[i] < pos[j])
      && (forall j :: 0 <= j < |s| && p(s[j]) ==> j in pos)
    decreases |s|
  {
    if s != [] {
      var init, last := s[..|s| - 1], s[|s| - 1];
      FilterKeepsOrder(init, p);
      var pos0, pos := Positions(init, p), Positions(s, p);
      assert pos == pos0 + (if p(last) then [|s| - 1] else []);
      assert Filter(s, p) == Filter(init, p) + (if p(last) then [last] else []);
      forall j | 0 <= j < |s| && p(s[j])
        ensures j in pos
      {
        if j < |s| - 1 {
          assert init[j] == s[j];
          assert j in pos0;
        }
      }
    }
  }

  /** The keys that some element of `s` belongs to. */
  function AllKeys<T(!new), K(!new)>(s: seq<T>, keys: T -> set<K>): (r: set<K>)
    ensures forall k :: k in r <==> exists x :: x in s && k in keys(x)
  {
    if s == [] then {}
    else AllKeys(s[..|s| - 1], keys) + keys(s[|s| - 1])
  }

  /** The list that appending every element of `s` to each of its keys leaves under key `k`. */
  function Bucket<T(!new), K(!new)>(s: seq<T>, keys: T -> set<K>, k: K): seq<T>
  {
    Filter(s, x => k in keys(x))
  }

  /** The whole dictionary: one list per key that some element belongs to. */
  function Groups<T(!new), K(!new)>(s: seq<T>, keys: T -> set<K>): map<K, seq<T>>
  {
    map k | k in AllKeys(s, keys) :: Bucket(s, keys, k)
  }

  /** Reading a `defaultdict(list)`: a missing key reads as the empty list. */
  function Lookup<K(!new), T(!new)>(m: map<K, seq<T>>, k: K): seq<T>
  {
    if k in m then m[k] else []
  }

  /** Appending one more element extends exactly the lists of its keys, each by that element. */
  lemma GroupsAppend<T(!new), K(!new)>(s: seq<T>, x: T, keys: T -> set<K>)
    ensures Groups(s + [x], keys).Keys == Groups(s, keys).Keys + keys(x)
    ensures forall k :: k in Groups(s + [x], keys) ==>
      Groups(s + [x], keys)[k] == Lookup(Groups(s, keys), k) + (if k in keys(x) then [x] else [])
  {
    assert (s + [x])[..|s|] == s;
    forall k | k in Groups(s + [x], keys)
      ensures Groups(s + [x], keys)[k] == Lookup(Groups(s, keys), k) + (if k in keys(x) then [x] else [])
    {
      FilterAppend(s, x, y => k in keys(y));
      if k !in AllKeys(s, keys) {
        BucketOutsideKeys(s, keys, k);
      }
    }
  }

  /** `m` after appending `x` to the list of each key in `ks` (creating missing lists). */
  function AppendTo<K(!new), T(!new)>(m: map<K, seq<T>>, ks: set<K>, x: T): (r: map<K, seq<T>>)
    ensures r.Keys == m.Keys + ks
    ensures forall k :: k in r ==> r[k] == Lookup(m, k) + (if k in ks then [x] else [])
  {
    map k | k in m.Keys + ks :: Lookup(m, k) + (if k in ks then [x] else [])
  }

  /** Growing the dictionary by one element appends it under each of its keys. */
  lemma GroupsAppendTo<T(!new), K(!new)>(s: seq<T>, x: T, keys: T -> set<K>)
    ensures Groups(s + [x], keys) == AppendTo(Groups(s, keys), keys(x), x)
  {
    GroupsAppend(s, x, keys);
  }

  /** One step of the grouping loop over `s`: the element at `i` is appended under each of its keys. */
  lemma GroupsStep<T(!new), K(!new)>(s: seq<T>, i: nat, keys: T -> set<K>)
    requires i < |s|
    ensures Groups(s[..i + 1], keys) == AppendTo(Groups(s[..i], keys), keys(s[i]), s[i])
  {
    assert s[..i + 1] == s[..i] + [s[i]];
    GroupsAppendTo(s[..i], s[i], keys);
  }

  /** Appending under one key at a time: after none, the dictionary is unchanged. */
  lemma AppendToNone<K(!new), T(!new)>(m: map<K, seq<T>>, x: T)
    ensures AppendTo(m, {}, x) == m
  {
    var r := AppendTo(m, {}, x);
    assert r.Keys == m.Keys;
    forall k | k in r
      ensures r[k] == m[k]
    {
    }
  }

  /** Appending under one more key `k` is one `m[k].append(x)`. */
  lemma AppendToOneMore<K(!new), T(!new)>(m: map<K, seq<T>>, ks: set<K>, k: K, x: T)
    requires k !in ks
    ensures AppendTo(m, ks + {k}, x) == AppendTo(m, ks, x)[k := Lookup(AppendTo(m, ks, x), k) + [x]]
  {
    var r, r0 := AppendTo(m, ks + {k}, x), AppendTo(m, ks, x);
    var u := r0[k := Lookup(r0, k) + [x]];
    assert r.Keys == u.Keys;
    forall j | j in r
      ensures r[j] == u[j]
    {
      if j == k {
        assert Lookup(r0, k) == Lookup(m, k);
      }
    }
  }

  lemma BucketOutsideKeys<T(!new), K(!new)>(s: seq<T>, keys: T -> set<K>, k: K)
    requires k !in AllKeys(s, keys)
    ensures Bucket(s, keys, k) == []
  {
  }

  /** Every element lands in the list of each of its keys, and only there. */
  lemma GroupsMembers<T(!new), K(!new)>(s: seq<T>, keys: T -> set<K>, k: K, x: T)
    ensures x in Lookup(Groups(s, keys), k) <==> x in s && k in keys(x)
  {
  }

  /** Every list in the dictionary is non-empty: no key is created without an element. */
  lemma GroupsNonEmpty<T(!new), K(!new)>(s: seq<T>, keys: T -> set<K>, k: K)
    requires k in Groups(s, keys)
    ensures Groups(s, keys)[k] != []
  {
    var x :| x in s && k in keys(x);
    assert x in Groups(s, keys)[k];
  }

  /** Each element occurs in the list of key `k` as often as in `s` if it belongs to `k`, else never. */
  lemma GroupsCount<T(!new), K(!new)>(s: seq<T>, keys: T -> set<K>, k: K, x: T)
    ensures multiset(Lookup(Groups(s, keys), k))[x] == if k in keys(x) then multiset(s)[x] else 0
  {
    if k !in Groups(s, keys) {
      BucketOutsideKeys(s, keys, k);
    }
    FilterCount(s, y => k in keys(y), x);
  }

  /**
   * The list of key `k` keeps the order of `s`: its i-th element is the
   * element of `s` at the i-th position belonging to `k`.
   */
  lemma GroupsKeepOrder<T(!new), K(!new)>(s: seq<T>, keys: T -> set<K>, k: K)
    ensures var bucket, pos := Lookup(Groups(s, keys), k), Positions(s, y => k in keys(y));
      && |pos| == |bucket|
      && (forall i :: 0 <= i < |pos| ==> pos[i] < |s| && bucket[i] == s[pos[i]])
      && (forall i, j :: 0 <= i < j < |pos| ==> pos[i] < pos[j])
      && (forall j :: 0 <= j < |s| && k in keys(s[j]) ==> j in pos)
  {
    if k !in Groups(s, keys) {
      BucketOutsideKeys(s, keys, k);
    }
    FilterKeepsOrder(s, y => k in keys(y));
  }

  ghost function Pick<K(!new)>(ks: set<K>): K
    requires ks != {}
  {
    var k :| k in ks; k
  }

  /** The sum of the lengths of the lists in `m`. */
  ghost function TotalSize<K(!new), T(!new)>(m: map<K, seq<T>>): nat
    decreases |m|
  {
    if m == map[] then 0
    else
      var k := Pick(m.Keys);
      assert |(m - {k}).Keys| < |m.Keys| by {
        assert (m - {k}).Keys == m.Keys - {k};
      }
      |m[k]| + TotalSize(m - {k})
  }

  /** The sum, over the keys `ks`, of the lengths of their lists. */
  ghost function BucketSizes<T(!new), K(!new)>(ks: set<K>, s: seq<T>, keys: T -> set<K>): nat
    decreases ks
  {
    if ks == {} then 0
    else
      var k := Pick(ks);
      |Bucket(s, keys, k)| + BucketSizes(ks - {k}, s, keys)
  }

  /** The number of (element, key) memberships in `s`: how many appends the grouping performs. */
  function Memberships<T(!new), K(!new)>(s: seq<T>, keys: T -> set<K>): nat
  {
    if s == [] then 0 else Memberships(s[..|s| - 1], keys) + |keys(s[|s| - 1])|
  }

  lemma {:induction false} TotalSizeIsBucketSizes<T(!new), K(!new)>(m: map<K, seq<T>>, s: seq<T>, keys: T -> set<K>)
    requires forall k :: k in m ==> m[k] == Bucket(s, keys, k)
    ensures TotalSize(m) == BucketSizes(m.Keys, s, keys)
    decreases |m|
  {
    if m != map[] {
      var k := Pick(m.Keys);
      assert (m - {k}).Keys == m.Keys - {k};
      TotalSizeIsBucketSizes(m - {k}, s, keys);
    }
  }

  lemma {:induction false} BucketSizesEmpty<T(!new), K(!new)>(ks: set<K>, keys: T -> set<K>)
    ensures BucketSizes(ks, [], keys) == 0
    decreases ks
  {
    if ks != {} {
      BucketSizesEmpty(ks - {Pick(ks)}, keys);
    }
  }

  lemma {:induction false} BucketSizesAppend<T(!new), K(!new)>(ks: set<K>, s: seq<T>, x: T, keys: T -> set<K>)
    ensures BucketSizes(ks, s + [x], keys) == BucketSizes(ks, s, keys) + |ks * keys(x)|
    decreases ks
  {
    if ks != {} {
      var k := Pick(ks);
      BucketSizesAppend(ks - {k}, s, x, keys);
      FilterAppend(s, x, y => k in keys(y));
      if k in keys(x) {
        assert ks * keys(x) == (ks - {k}) * keys(x) + {k};
      } else {
        assert ks * keys(x) == (ks - {k}) * keys(x);
      }
    }
  }

  lemma {:induction false} BucketSizesCover<T(!new), K(!new)>(ks: set<K>, s: seq<T>, keys: T -> set<K>)
    requires AllKeys(s, keys) <= ks
    ensures BucketSizes(ks, s, keys) == Memberships(s, keys)
    decreases |s|
  {
    if s == [] {
      BucketSizesEmpty(ks, keys);
    } else {
      var init, last := s[..|s| - 1], s[|s| - 1];
      assert s == init + [last];
      BucketSizesCover(ks, init, keys);
      BucketSizesAppend(ks, init, last, keys);
      assert ks * keys(last) == keys(last);
    }
  }

  /**
   * Partition: the lists of the dictionary hold, between them, exactly one
   * element per (element, key) membership.
   */
  lemma GroupsPartition<T(!new), K(!new)>(s: seq<T>, keys: T -> set<K>)
    ensures TotalSize(Groups(s, keys)) == Memberships(s, keys)
  {
    var m := Groups(s, keys);
    TotalSizeIsBucketSizes(m, s, keys);
    assert m.Keys == AllKeys(s, keys);
    BucketSizesCover(m.Keys, s, keys);
  }
  /** `order` lists every key of `keys` exactly once: an iteration order of a dictionary. */
  ghost predicate Enumerates<K(!new)>(order: seq<K>, keys: set<K>) {
    && (forall i, j :: 0 <= i < j < |order| ==> order[i] != order[j])
    && (forall k :: k in keys <==> k in order)
  }

  /** The sum of the lengths of the lists of the keys in `order`. */
  function SumOver<K(!new), T(!new)>(m: map<K, seq<T>>, order: seq<K>): nat
    requires forall i :: 0 <= i < |order| ==> order[i] in m
  {
    if order == [] then 0 else SumOver(m, order[..|order| - 1]) + |m[order[|order| - 1]]|
  }

  lemma {:induction false} TotalSizeRemove<K(!new), T(!new)>(m: map<K, seq<T>>, k: K)
    requires k in m
    ensures TotalSize(m) == |m[k]| + TotalSize(m - {k})
    decreases |m|
  {
    var p := Pick(m.Keys);
    assert (m - {p}).Keys == m.Keys - {p};
    if p != k {
      var mp, mk := m - {p}, m - {k};
      assert mk.Keys == m.Keys - {k};
      TotalSizeRemove(mp, k);
      TotalSizeRemove(mk, p);
      assert mp - {k} == mk - {p};
    }
  }

  lemma {:induction false} SumOverSame<K(!new), T(!new)>(m: map<K, seq<T>>, m': map<K, seq<T>>, order: seq<K>)
    requires forall i :: 0 <= i < |order| ==> order[i] in m && order[i] in m' && m[order[i]] == m'[order[i]]
    ensures SumOver(m, order) == SumOver(m', order)
    decreases |order|
  {
    if order != [] {
      SumOverSame(m, m', order[..|order| - 1]);
    }
  }

  /** Whatever order a dictionary is iterated in, the lengths of its lists add up to the same total. */
  lemma {:induction false} EnumeratedTotal<K(!new), T(!new)>(m: map<K, seq<T>>, order: seq<K>)
    requires Enumerates(order, m.Keys)
    ensures forall i :: 0 <= i < |order| ==> order[i] in m
    ensures SumOver(m, order) == TotalSize(m)
    decreases |order|
  {
    if order == [] {
      assert m.Keys == {};
    } else {
      var init, last := order[..|order| - 1], order[|order| - 1];
      var m' := m - {last};
      assert forall i :: 0 <= i < |init| ==> init[i] == order[i];
      assert Enumerates(init, m'.Keys) by {
        forall k | k in m'.Keys
          ensures k in init
        {
          assert k in order;
          var i :| 0 <= i < |order| && order[i] == k;
          assert i < |order| - 1;
        }
      }
      EnumeratedTotal(m', init);
      SumOverSame(m, m', init);
      TotalSizeRemove(m, last);
    }
  }
}
