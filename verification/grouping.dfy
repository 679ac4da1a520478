/** Sequence helpers and the group-by of `Collectors.groupingBy`, stated on sequences and maps.
    Every recursion peels the LAST element: a stream collector sees the elements in encounter
    order and appends each one to the list of its group. */
module Grouping {

  /** `stream().map(f).collect(toList())`. */
  function MapSeq<T, U>(f: T -> U, xs: seq<T>): (r: seq<U>)
    ensures |r| == |xs|
    ensures forall i :: 0 <= i < |xs| ==> r[i] == f(xs[i])
  {
    if xs == [] then [] else MapSeq(f, xs[..|xs| - 1]) + [f(xs[|xs| - 1])]
  }

  /** The concatenation of a list of lists. */
  function Flatten<T>(xss: seq<seq<T>>): seq<T>
  {
    if xss == [] then [] else Flatten(xss[..|xss| - 1]) + xss[|xss| - 1]
  }

  /** The keys that occur among the elements of `xs`. */
  function KeysOf<T, K>(xs: seq<T>, key: T -> K): set<K>
  {
    set i | 0 <= i < |xs| :: key(xs[i])
  }

  /** No key is listed twice. */
  predicate Distinct<K(==)>(ks: seq<K>)
  {
    forall i, j :: 0 <= i < j < |ks| ==> ks[i] != ks[j]
  }

  /** `ks` lists every element of `s` exactly once (an iteration order of the set `s`). */
  predicate Enumerates<K(==)>(ks: seq<K>, s: set<K>)
  {
    && Distinct(ks)
    && (forall k :: k in ks ==> k in s)
    && (forall k :: k in s ==> k in ks)
  }

  /** The elements of `xs` whose key is `k`, in their original relative order: the list
      that `groupingBy` collects for `k`. */
  function Select<T, K(==)>(xs: seq<T>, key: T -> K, k: K): (r: seq<T>)
    ensures |r| <= |xs|
    ensures forall i :: 0 <= i < |r| ==> key(r[i]) == k
    ensures r != [] <==> k in KeysOf(xs, key)
  {
    if xs == [] then []
    else
      var init := xs[..|xs| - 1];
      var x := xs[|xs| - 1];
      assert xs == init + [x];
      var rest := Select(init, key, k);
      if key(x) == k then rest + [x] else rest
  }

  /** The indices of the elements of `xs` whose key is `k`, in increasing order. */
  function Positions<T, K(==)>(xs: seq<T>, key: T -> K, k: K): (ps: seq<int>)
    ensures forall j :: 0 <= j < |ps| ==> 0 <= ps[j] < |xs| && key(xs[ps[j]]) == k
    ensures forall j, l :: 0 <= j < l < |ps| ==> ps[j] < ps[l]
    ensures forall i :: 0 <= i < |xs| && key(xs[i]) == k ==> i in ps
  {
    if xs == [] then []
    else
      var rest := Positions(xs[..|xs| - 1], key, k);
      if key(xs[|xs| - 1]) == k then rest + [|xs| - 1] else rest
  }

  /** `groupingBy(key)` with the `toList` downstream collector. */
  function GroupBy<T, K(==)>(xs: seq<T>, key: T -> K): (m: map<K, seq<T>>)
    ensures m.Keys == KeysOf(xs, key)
    ensures forall k :: k in m ==> m[k] == Select(xs, key, k)
  {
    if xs == [] then map[]
    else
      var init := xs[..|xs| - 1];
      var x := xs[|xs| - 1];
      assert xs == init + [x];
      var m0 := GroupBy(init, key);
      m0[key(x) := (if key(x) in m0 then m0[key(x)] else []) + [x]]
  }

  /** The values of `m` listed along the keys `ks` (how a map's entries are streamed). */
  function ValuesAlong<K, V>(m: map<K, V>, ks: seq<K>): (vs: seq<V>)
    requires forall k :: k in ks ==> k in m
    ensures |vs| == |ks|
    ensures forall j :: 0 <= j < |ks| ==> vs[j] == m[ks[j]]
  {
    if ks == [] then [] else ValuesAlong(m, ks[..|ks| - 1]) + [m[ks[|ks| - 1]]]
  }

  /** Appending one element extends exactly the group of its key. */
  lemma {:induction false} SelectSnoc<T, K>(xs: seq<T>, x: T, key: T -> K)
    ensures forall k :: Select(xs + [x], key, k)
                        == Select(xs, key, k) + (if key(x) == k then [x] else [])
  {
    assert (xs + [x])[..|xs|] == xs;
  }

  /** A group is exactly the elements with that key, in increasing position: the `j`-th
      element of the group is the row at the `j`-th position whose key is `k`. */
  lemma {:induction false} SelectInOrder<T, K>(xs: seq<T>, key: T -> K, k: K)
    ensures |Select(xs, key, k)| == |Positions(xs, key, k)|
    ensures forall j :: 0 <= j < |Select(xs, key, k)|
              ==> Select(xs, key, k)[j] == xs[Positions(xs, key, k)[j]]
  {
    if xs != [] {
      var init := xs[..|xs| - 1];
      SelectInOrder(init, key, k);
      assert Positions(xs, key, k) == Positions(init, key, k)
                                      + (if key(xs[|xs| - 1]) == k then [|xs| - 1] else []);
    }
  }

  /** Two keys that single out the same elements give the same group. */
  lemma {:induction false} SelectAgree<T, K1, K2>(xs: seq<T>, key1: T -> K1, k1: K1, key2: T -> K2, k2: K2)
    requires forall i :: 0 <= i < |xs| ==> (key1(xs[i]) == k1 <==> key2(xs[i]) == k2)
    ensures Select(xs, key1, k1) == Select(xs, key2, k2)
  {
    if xs != [] {
      SelectAgree(xs[..|xs| - 1], key1, k1, key2, k2);
    }
  }

  /** The size of a group is the number of times its key occurs in the key column. */
  lemma {:induction false} SelectCount<T, K>(xs: seq<T>, key: T -> K, k: K)
    ensures |Select(xs, key, k)| == multiset(MapSeq(key, xs))[k]
  {
    if xs != [] {
      var init := xs[..|xs| - 1];
      var x := xs[|xs| - 1];
      SelectCount(init, key, k);
      assert MapSeq(key, xs) == MapSeq(key, init) + [key(x)];
    }
  }

  /** The elements of `xs` whose key lies in `ks`, in their original relative order. */
  function SelectAmong<T, K(==)>(xs: seq<T>, key: T -> K, ks: set<K>): (r: seq<T>)
    ensures forall i :: 0 <= i < |r| ==> key(r[i]) in ks
  {
    if xs == [] then []
    else
      var rest := SelectAmong(xs[..|xs| - 1], key, ks);
      if key(xs[|xs| - 1]) in ks then rest + [xs[|xs| - 1]] else rest
  }

  /** Adding one key `k` to the selected keys adds exactly the group of `k`. */
  lemma {:induction false} SelectAmongAdd<T, K>(xs: seq<T>, key: T -> K, ks: set<K>, k: K)
    requires k !in ks
    ensures multiset(SelectAmong(xs, key, ks + {k}))
            == multiset(SelectAmong(xs, key, ks)) + multiset(Select(xs, key, k))
  {
    if xs != [] {
      var init := xs[..|xs| - 1];
      var x := xs[|xs| - 1];
      assert xs == init + [x];
      SelectAmongAdd(init, key, ks, k);
    }
  }

  /** Selecting every key that occurs keeps the whole sequence. */
  lemma {:induction false} SelectAmongAll<T, K>(xs: seq<T>, key: T -> K, ks: set<K>)
    requires KeysOf(xs, key) <= ks
    ensures SelectAmong(xs, key, ks) == xs
  {
    if xs != [] {
      var init := xs[..|xs| - 1];
      var x := xs[|xs| - 1];
      assert xs == init + [x];
      assert KeysOf(init, key) <= KeysOf(xs, key) by {
        forall k | k in KeysOf(init, key) ensures k in KeysOf(xs, key) {
          var i :| 0 <= i < |init| && key(init[i]) == k;
          assert xs[i] == init[i];
        }
      }
      assert key(xs[|xs| - 1]) in KeysOf(xs, key);
      SelectAmongAll(init, key, ks);
    }
  }

  /** The groups listed along distinct keys `ks` hold exactly the elements whose key is
      among `ks`. */
  lemma {:induction false} FlattenGroups<T, K>(xs: seq<T>, key: T -> K, m: map<K, seq<T>>, ks: seq<K>)
    requires Distinct(ks)
    requires forall k :: k in ks ==> k in m && m[k] == Select(xs, key, k)
    ensures multiset(Flatten(ValuesAlong(m, ks)))
            == multiset(SelectAmong(xs, key, set k | k in ks))
  {
    if ks == [] {
      assert (set k | k in ks) == {};
      SelectAmongNone(xs, key);
    } else {
      var init := ks[..|ks| - 1];
      var k := ks[|ks| - 1];
      assert ks == init + [k];
      var s := set k' | k' in init;
      assert (set k' | k' in ks) == s + {k};
      assert k !in s;
      FlattenGroups(xs, key, m, init);
      FlattenValuesAlongSnoc(m, ks);
      SelectAmongAdd(xs, key, s, k);
    }
  }

  /** Listing one more key appends that key's value. */
  lemma FlattenValuesAlongSnoc<K, V>(m: map<K, seq<V>>, ks: seq<K>)
    requires ks != []
    requires forall k :: k in ks ==> k in m
    ensures Flatten(ValuesAlong(m, ks))
            == Flatten(ValuesAlong(m, ks[..|ks| - 1])) + m[ks[|ks| - 1]]
  {
    assert ValuesAlong(m, ks)[..|ks| - 1] == ValuesAlong(m, ks[..|ks| - 1]);
  }

  /** Selecting no key keeps nothing. */
  lemma {:induction false} SelectAmongNone<T, K>(xs: seq<T>, key: T -> K)
    ensures SelectAmong(xs, key, {}) == []
  {
    if xs != [] {
      SelectAmongNone(xs[..|xs| - 1], key);
    }
  }

  /** The groups, listed in any iteration order of the map's keys, are a permutation of the
      input: no element is lost or duplicated by grouping. */
  lemma {:induction false} GroupByPartitions<T, K>(xs: seq<T>, key: T -> K, ks: seq<K>)
    requires Enumerates(ks, GroupBy(xs, key).Keys)
    ensures multiset(Flatten(ValuesAlong(GroupBy(xs, key), ks))) == multiset(xs)
    ensures |Flatten(ValuesAlong(GroupBy(xs, key), ks))| == |xs|
  {
    FlattenGroups(xs, key, GroupBy(xs, key), ks);
    SelectAmongAll(xs, key, (set k | k in ks));
    assert |multiset(Flatten(ValuesAlong(GroupBy(xs, key), ks)))| == |multiset(xs)|;
  }

  /** A list of distinct keys has as many entries as the set of keys it enumerates. */
  lemma {:induction false} EnumerationSize<K>(ks: seq<K>, s: set<K>)
    requires Enumerates(ks, s)
    ensures |ks| == |s|
  {
    if ks != [] {
      var init := ks[..|ks| - 1];
      var k := ks[|ks| - 1];
      assert ks == init + [k];
      assert k !in init;
      EnumerationSize(init, s - {k});
    } else {
      assert s == {};
    }
  }

  /** Mapping commutes with concatenation. */
  lemma {:induction false} MapSeqAppend<T, U>(f: T -> U, a: seq<T>, b: seq<T>)
    ensures MapSeq(f, a + b) == MapSeq(f, a) + MapSeq(f, b)
  {
  }

  /** Removing the element at `i` removes one occurrence of it, before and after mapping. */
  lemma {:induction false} RemoveAt<T, U>(f: T -> U, b: seq<T>, i: int)
    requires 0 <= i < |b|
    ensures multiset(b[..i] + b[i + 1..]) == multiset(b) - multiset{b[i]}
    ensures multiset(MapSeq(f, b)) == multiset(MapSeq(f, b[..i] + b[i + 1..])) + multiset{f(b[i])}
  {
    var l, r := b[..i], b[i + 1..];
    assert b == l + [b[i]] + r;
    assert multiset(b) == multiset(l) + multiset{b[i]} + multiset(r);
    MapSeqAppend(f, l + [b[i]], r);
    MapSeqAppend(f, l, [b[i]]);
    MapSeqAppend(f, l, r);
    assert MapSeq(f, [b[i]]) == [f(b[i])];
  }

  /** Mapping two permutations of each other gives two permutations of each other. */
  lemma {:induction false} MapSeqPermutation<T, U>(f: T -> U, a: seq<T>, b: seq<T>)
    requires multiset(a) == multiset(b)
    ensures multiset(MapSeq(f, a)) == multiset(MapSeq(f, b))
    decreases |a|
  {
    if a == [] {
      assert |b| == |multiset(b)| == 0;
    } else {
      var n := |a| - 1;
      var x := a[n];
      assert a == a[..n] + [x];
      assert multiset(a[..n]) == multiset(a) - multiset{x};
      assert x in multiset(b);
      var i :| 0 <= i < |b| && b[i] == x;
      RemoveAt(f, b, i);
      MapSeqPermutation(f, a[..n], b[..i] + b[i + 1..]);
      RemoveAt(f, a, n);
      assert a[..n] + a[n + 1..] == a[..n];
    }
  }

  /** Mapping every group and then concatenating is mapping the concatenation. */
  lemma {:induction false} FlattenMapSeq<T, U>(f: T -> U, xss: seq<seq<T>>, yss: seq<seq<U>>)
    requires |yss| == |xss|
    requires forall j :: 0 <= j < |xss| ==> yss[j] == MapSeq(f, xss[j])
    ensures Flatten(yss) == MapSeq(f, Flatten(xss))
  {
    if xss != [] {
      var n := |xss| - 1;
      FlattenMapSeq(f, xss[..n], yss[..n]);
      MapSeqAppend(f, Flatten(xss[..n]), xss[n]);
    }
  }
}
