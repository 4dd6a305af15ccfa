/**
 * Counting dictionaries built by `reduce` (`acc[key] = (acc[key] || 0) + 1`), read back
 * with `Object.entries` in insertion order, and the two sorts applied to them: stable
 * non-increasing by count, and ascending by string key.
 */
module Histogram {
  import opened Text

  /** One `[key, count]` entry of a counting dictionary. */
  datatype Bucket<K> = Bucket(key: K, count: nat)

  function KeysOf<K>(h: seq<Bucket<K>>): (r: seq<K>)
    ensures |r| == |h| && forall i :: 0 <= i < |h| ==> r[i] == h[i].key
  {
    seq(|h|, i requires 0 <= i < |h| => h[i].key)
  }

  /** The sum of all counts. */
  function Total<K>(h: seq<Bucket<K>>): nat {
    if h == [] then 0 else h[0].count + Total(h[1..])
  }

  /** The count recorded under `k` (summed, should `k` appear more than once). */
  function CountOf<K(==,!new)>(h: seq<Bucket<K>>, k: K): nat {
    if h == [] then 0 else (if h[0].key == k then h[0].count else 0) + CountOf(h[1..], k)
  }

  predicate DistinctKeys<K(==,!new)>(h: seq<Bucket<K>>) {
    forall i, j :: 0 <= i < j < |h| ==> h[i].key != h[j].key
  }

  /** The distinct elements of `s` in the order of their first appearance. */
  function FirstSeen<K(==,!new)>(s: seq<K>): seq<K> {
    if s == [] then []
    else
      var p := FirstSeen(s[..|s| - 1]);
      if s[|s| - 1] in p then p else p + [s[|s| - 1]]
  }

  /** One accumulator step: add one under `k`, appending a new entry when `k` is new. */
  function Bump<K(==,!new)>(h: seq<Bucket<K>>, k: K): seq<Bucket<K>> {
    if h == [] then [Bucket(k, 1)]
    else if h[0].key == k then [Bucket(k, h[0].count + 1)] + h[1..]
    else [h[0]] + Bump(h[1..], k)
  }

  /** A step adds one to the total ... */
  lemma {:induction false} BumpTotal<K(!new)>(h: seq<Bucket<K>>, k: K)
    ensures Total(Bump(h, k)) == Total(h) + 1
  {
    if h != [] && h[0].key != k {
      BumpTotal(h[1..], k);
      assert Bump(h, k)[1..] == Bump(h[1..], k);
    } else if h != [] {
      assert Bump(h, k)[1..] == h[1..];
    }
  }

  /** ... and to the count under `k` only ... */
  lemma {:induction false} BumpCount<K(!new)>(h: seq<Bucket<K>>, k: K, j: K)
    ensures CountOf(Bump(h, k), j) == CountOf(h, j) + (if j == k then 1 else 0)
  {
    if h != [] && h[0].key != k {
      BumpCount(h[1..], k, j);
      assert Bump(h, k)[1..] == Bump(h[1..], k);
    } else if h != [] {
      assert Bump(h, k)[1..] == h[1..];
    }
  }

  /** ... appends `k` to the keys exactly when it is new ... */
  lemma {:induction false} BumpKeys<K(!new)>(h: seq<Bucket<K>>, k: K)
    ensures KeysOf(Bump(h, k)) == if k in KeysOf(h) then KeysOf(h) else KeysOf(h) + [k]
  {
    var r := Bump(h, k);
    if h == [] {
      assert KeysOf(r) == [k];
    } else if h[0].key == k {
      assert r[1..] == h[1..];
      assert KeysOf(h)[0] == k;
      assert KeysOf(r) == KeysOf(h);
    } else {
      BumpKeys(h[1..], k);
      assert r[1..] == Bump(h[1..], k);
      assert KeysOf(h) == [h[0].key] + KeysOf(h[1..]);
      assert KeysOf(r) == [h[0].key] + KeysOf(r[1..]);
    }
  }

  /** ... and never introduces a zero count. */
  lemma {:induction false} BumpPositive<K(!new)>(h: seq<Bucket<K>>, k: K)
    requires forall i :: 0 <= i < |h| ==> h[i].count > 0
    ensures forall i :: 0 <= i < |Bump(h, k)| ==> Bump(h, k)[i].count > 0
  {
    if h != [] && h[0].key != k {
      BumpPositive(h[1..], k);
      assert Bump(h, k)[1..] == Bump(h[1..], k);
    } else if h != [] {
      assert Bump(h, k)[1..] == h[1..];
    }
  }

  /** Distinct keys, as produced by the accumulator, stay distinct after a bump. */
  lemma BumpDistinct<K(!new)>(h: seq<Bucket<K>>, k: K)
    requires DistinctKeys(h)
    ensures DistinctKeys(Bump(h, k))
  {
    var r := Bump(h, k);
    BumpKeys(h, k);
    forall i, j | 0 <= i < j < |r|
      ensures r[i].key != r[j].key
    {
      assert KeysOf(r)[i] == r[i].key && KeysOf(r)[j] == r[j].key;
      if j >= |h| {
        assert KeysOf(r) == KeysOf(h) + [k] && k !in KeysOf(h);
        assert KeysOf(h)[i] == h[i].key;
      } else {
        assert KeysOf(r)[..|h|] == KeysOf(h);
        assert KeysOf(h)[i] == h[i].key && KeysOf(h)[j] == h[j].key;
      }
    }
  }

  /** The counting dictionary `keys.reduce(...)` builds, entries in insertion order. */
  function Tallied<K(==,!new)>(keys: seq<K>): seq<Bucket<K>> {
    if keys == [] then [] else Bump(Tallied(keys[..|keys| - 1]), keys[|keys| - 1])
  }

  /**
   * The dictionary counts every key: the counts sum to the number of keys, each key's
   * count is its number of occurrences, the entries are in first-appearance order, and
   * no entry has count zero.
   */
  lemma TalliedSpec<K(!new)>(keys: seq<K>)
    ensures Total(Tallied(keys)) == |keys|
    ensures forall k :: CountOf(Tallied(keys), k) == multiset(keys)[k]
    ensures KeysOf(Tallied(keys)) == FirstSeen(keys)
    ensures forall i :: 0 <= i < |Tallied(keys)| ==> Tallied(keys)[i].count > 0
  {
    TalliedTotal(keys);
    forall k
      ensures CountOf(Tallied(keys), k) == multiset(keys)[k]
    {
      TalliedCount(keys, k);
    }
    TalliedFirstSeen(keys);
    TalliedPositive(keys);
  }

  lemma {:induction false} TalliedTotal<K(!new)>(keys: seq<K>)
    ensures Total(Tallied(keys)) == |keys|
  {
    if keys != [] {
      TalliedTotal(keys[..|keys| - 1]);
      BumpTotal(Tallied(keys[..|keys| - 1]), keys[|keys| - 1]);
    }
  }

  lemma {:induction false} TalliedCount<K(!new)>(keys: seq<K>, k: K)
    ensures CountOf(Tallied(keys), k) == multiset(keys)[k]
  {
    if keys != [] {
      var init := keys[..|keys| - 1];
      TalliedCount(init, k);
      BumpCount(Tallied(init), keys[|keys| - 1], k);
      assert keys == init + [keys[|keys| - 1]];
    }
  }

  lemma {:induction false} TalliedFirstSeen<K(!new)>(keys: seq<K>)
    ensures KeysOf(Tallied(keys)) == FirstSeen(keys)
  {
    if keys != [] {
      TalliedFirstSeen(keys[..|keys| - 1]);
      BumpKeys(Tallied(keys[..|keys| - 1]), keys[|keys| - 1]);
    }
  }

  lemma {:induction false} TalliedPositive<K(!new)>(keys: seq<K>)
    ensures forall i :: 0 <= i < |Tallied(keys)| ==> Tallied(keys)[i].count > 0
  {
    if keys != [] {
      TalliedPositive(keys[..|keys| - 1]);
      BumpPositive(Tallied(keys[..|keys| - 1]), keys[|keys| - 1]);
    }
  }

  lemma {:induction false} FirstSeenDistinct<K(!new)>(s: seq<K>)
    ensures forall i, j :: 0 <= i < j < |FirstSeen(s)| ==> FirstSeen(s)[i] != FirstSeen(s)[j]
    ensures forall k :: k in FirstSeen(s) <==> k in s
  {
    if s != [] {
      var init := s[..|s| - 1];
      FirstSeenDistinct(init);
      assert s == init + [s[|s| - 1]];
    }
  }

  /** Every key occurring in the input has exactly one entry, and no other key has one. */
  lemma TalliedKeys<K(!new)>(keys: seq<K>)
    ensures DistinctKeys(Tallied(keys))
    ensures forall k :: k in KeysOf(Tallied(keys)) <==> k in keys
  {
    var h := Tallied(keys);
    TalliedSpec(keys);
    FirstSeenDistinct(keys);
    forall i, j | 0 <= i < j < |h|
      ensures h[i].key != h[j].key
    {
      assert KeysOf(h)[i] == h[i].key && KeysOf(h)[j] == h[j].key;
    }
  }

  /** Reordering entries keeps the set of keys. */
  lemma KeysPermuted<K>(a: seq<Bucket<K>>, b: seq<Bucket<K>>, k: K)
    requires multiset(a) == multiset(b) && k in KeysOf(a)
    ensures k in KeysOf(b)
  {
    var j :| 0 <= j < |a| && KeysOf(a)[j] == k;
    assert a[j] in multiset(b);
    var i :| 0 <= i < |b| && b[i] == a[j];
    assert KeysOf(b)[i] == k;
  }

  /** An entry of a reordered dictionary with distinct keys is one of its entries, with the count recorded there. */
  lemma PermutedEntry<K(!new)>(h: seq<Bucket<K>>, s: seq<Bucket<K>>, i: nat)
    requires multiset(s) == multiset(h) && DistinctKeys(h) && i < |s|
    ensures s[i].key in KeysOf(h) && s[i].count == CountOf(h, s[i].key)
  {
    assert s[i] in multiset(h);
    var j :| 0 <= j < |h| && h[j] == s[i];
    assert KeysOf(h)[j] == s[i].key;
    CountOfEntry(h, j);
  }

  /** Where an entry went after reordering. */
  lemma PermutedIndex<T>(a: seq<T>, b: seq<T>, j: nat) returns (i: nat)
    requires multiset(a) == multiset(b) && j < |a|
    ensures i < |b| && b[i] == a[j]
  {
    assert a[j] in multiset(b);
    i :| 0 <= i < |b| && b[i] == a[j];
  }

  /** In a dictionary with distinct keys, the count under an entry's key is that entry's count. */
  lemma {:induction false} CountOfEntry<K(!new)>(h: seq<Bucket<K>>, i: nat)
    requires DistinctKeys(h) && i < |h|
    ensures CountOf(h, h[i].key) == h[i].count
  {
    if i == 0 {
      CountOfAbsent(h[1..], h[0].key);
    } else {
      CountOfEntry(h[1..], i - 1);
    }
  }

  lemma {:induction false} CountOfAbsent<K(!new)>(h: seq<Bucket<K>>, k: K)
    requires forall i :: 0 <= i < |h| ==> h[i].key != k
    ensures CountOf(h, k) == 0
  {
    if h != [] {
      CountOfAbsent(h[1..], k);
    }
  }

  lemma BumpFound<K(!new)>(h: seq<Bucket<K>>, k: K, j: nat)
    requires j < |h| && h[j].key == k && forall m :: 0 <= m < j ==> h[m].key != k
    ensures Bump(h, k) == h[j := Bucket(k, h[j].count + 1)]
    decreases j
  {
    if j > 0 {
      BumpFound(h[1..], k, j - 1);
    }
  }

  lemma {:induction false} BumpNew<K(!new)>(h: seq<Bucket<K>>, k: K)
    requires forall m :: 0 <= m < |h| ==> h[m].key != k
    ensures Bump(h, k) == h + [Bucket(k, 1)]
  {
    if h != [] {
      BumpNew(h[1..], k);
      assert h + [Bucket(k, 1)] == [h[0]] + (h[1..] + [Bucket(k, 1)]);
    }
  }

  lemma TalliedSnoc<K(!new)>(keys: seq<K>, i: nat)
    requires i < |keys|
    ensures Tallied(keys[..i + 1]) == Bump(Tallied(keys[..i]), keys[i])
  {
    assert keys[..i + 1][..i] == keys[..i];
  }

  /** The look-up of the accumulator: the first index holding `k`, or `|h|` when there is none. */
  method Find<K(==)>(h: seq<Bucket<K>>, k: K) returns (j: nat)
    ensures j <= |h|
    ensures j < |h| ==> h[j].key == k
    ensures forall m :: 0 <= m < j ==> h[m].key != k
  {
    j := 0;
    while j < |h| && h[j].key != k
      invariant j <= |h|
      invariant forall m :: 0 <= m < j ==> h[m].key != k
    {
      j := j + 1;
    }
  }

  /**
   * The `reduce` loop: for each key, look it up among the entries and add one to its
   * count, or append a new entry with count 1.
   */
  method Tally<K(==,!new)>(keys: seq<K>) returns (h: seq<Bucket<K>>)
    ensures h == Tallied(keys)
  {
    h := [];
    for i := 0 to |keys|
      invariant h == Tallied(keys[..i])
    {
      var k := keys[i];
      var j := Find(h, k);
      TalliedSnoc(keys, i);
      if j < |h| {
        BumpFound(h, k, j);
        h := h[j := Bucket(k, h[j].count + 1)];
      } else {
        BumpNew(h, k);
        h := h + [Bucket(k, 1)];
      }
    }
    assert keys[..|keys|] == keys;
  }

  // ---------------------------------------------------------------------------
  // Stable sort, non-increasing by count: `.sort((a, b) => b[1] - a[1])`
  // ---------------------------------------------------------------------------

  predicate SortedByCount<K>(s: seq<Bucket<K>>) {
    forall i, j :: 0 <= i < j < |s| ==> s[i].count >= s[j].count
  }

  /** The entries of `s` with count `c`, in their order in `s`. */
  function WithCount<K>(s: seq<Bucket<K>>, c: nat): seq<Bucket<K>> {
    if s == [] then [] else (if s[0].count == c then [s[0]] else []) + WithCount(s[1..], c)
  }

  lemma {:induction false} WithCountAppend<K>(a: seq<Bucket<K>>, b: seq<Bucket<K>>, c: nat)
    ensures WithCount(a + b, c) == WithCount(a, c) + WithCount(b, c)
  {
    if a != [] {
      WithCountAppend(a[1..], b, c);
      assert (a + b)[1..] == a[1..] + b;
    } else {
      assert a + b == b;
    }
  }

  lemma WithCountSnoc<K>(s: seq<Bucket<K>>, c: nat)
    requires s != []
    ensures WithCount(s, c) == WithCount(s[..|s| - 1], c) + (if s[|s| - 1].count == c then [s[|s| - 1]] else [])
  {
    var x := s[|s| - 1];
    assert s == s[..|s| - 1] + [x];
    WithCountAppend(s[..|s| - 1], [x], c);
    assert [x][1..] == [];
  }

  lemma {:induction false} WithCountNone<K>(s: seq<Bucket<K>>, c: nat)
    requires forall i :: 0 <= i < |s| ==> s[i].count < c
    ensures WithCount(s, c) == []
  {
    if s != [] {
      WithCountNone(s[1..], c);
    }
  }

  /** Insert `x` after every entry whose count is at least its own. */
  function InsertByCount<K>(t: seq<Bucket<K>>, x: Bucket<K>): (r: seq<Bucket<K>>)
    ensures multiset(r) == multiset(t) + multiset{x}
    ensures |r| == |t| + 1
    ensures r[0] == if t != [] && t[0].count >= x.count then t[0] else x
  {
    if t == [] then [x]
    else if t[0].count >= x.count then
      var r := [t[0]] + InsertByCount(t[1..], x);
      assert t == [t[0]] + t[1..];
      r
    else [x] + t
  }

  lemma {:induction false} InsertByCountSorted<K>(t: seq<Bucket<K>>, x: Bucket<K>)
    requires SortedByCount(t)
    ensures SortedByCount(InsertByCount(t, x))
  {
    var r := InsertByCount(t, x);
    if t != [] && t[0].count >= x.count {
      var rest := InsertByCount(t[1..], x);
      InsertByCountSorted(t[1..], x);
      assert r[1..] == rest;
      forall j | 0 < j < |r|
        ensures r[0].count >= r[j].count
      {
        assert r[j] in multiset(rest);
        assert r[j] in multiset(t[1..]) || r[j] == x;
      }
    }
  }

  lemma WithCountCons<K>(y: Bucket<K>, s: seq<Bucket<K>>, c: nat)
    ensures WithCount([y] + s, c) == (if y.count == c then [y] else []) + WithCount(s, c)
  {
    assert ([y] + s)[1..] == s;
  }

  /** Inserting `x` puts it after every entry of equal count. */
  lemma {:induction false} InsertByCountStable<K>(t: seq<Bucket<K>>, x: Bucket<K>, c: nat)
    requires SortedByCount(t)
    ensures WithCount(InsertByCount(t, x), c) == WithCount(t, c) + (if x.count == c then [x] else [])
  {
    if t == [] {
      WithCountCons(x, [], c);
    } else if t[0].count >= x.count {
      InsertByCountStable(t[1..], x, c);
      InsertAfterHead(t, x, c);
    } else {
      InsertBeforeAll(t, x, c);
    }
  }

  /** Placed after the first entry, `x` keeps that entry ahead of it. */
  lemma InsertAfterHead<K>(t: seq<Bucket<K>>, x: Bucket<K>, c: nat)
    requires t != [] && t[0].count >= x.count
    requires WithCount(InsertByCount(t[1..], x), c) == WithCount(t[1..], c) + (if x.count == c then [x] else [])
    ensures WithCount(InsertByCount(t, x), c) == WithCount(t, c) + (if x.count == c then [x] else [])
  {
    var rest := InsertByCount(t[1..], x);
    var head, tail := (if t[0].count == c then [t[0]] else []), (if x.count == c then [x] else []);
    var mid := WithCount(t[1..], c);
    assert InsertByCount(t, x) == [t[0]] + rest;
    WithCountCons(t[0], rest, c);
    assert WithCount(InsertByCount(t, x), c) == head + (mid + tail);
    assert WithCount(t, c) == head + mid;
    AppendAssoc(head, mid, tail);
  }

  lemma AppendAssoc<T>(a: seq<T>, b: seq<T>, c: seq<T>)
    ensures a + (b + c) == (a + b) + c
  {
  }

  /** Placed first, `x` comes ahead of no entry of its own count. */
  lemma InsertBeforeAll<K>(t: seq<Bucket<K>>, x: Bucket<K>, c: nat)
    requires SortedByCount(t) && t != [] && t[0].count < x.count
    ensures WithCount(InsertByCount(t, x), c) == WithCount(t, c) + (if x.count == c then [x] else [])
  {
    assert InsertByCount(t, x) == [x] + t;
    WithCountCons(x, t, c);
    if x.count == c {
      forall i | 0 <= i < |t|
        ensures t[i].count < c
      {
        assert t[0].count >= t[i].count;
      }
      WithCountNone(t, c);
    }
  }

  /** The stable sort by count, as insertion sort. */
  function SortByCount<K>(s: seq<Bucket<K>>): (r: seq<Bucket<K>>)
    ensures multiset(r) == multiset(s) && |r| == |s|
  {
    if s == [] then []
    else
      var init := s[..|s| - 1];
      assert s == init + [s[|s| - 1]];
      InsertByCount(SortByCount(init), s[|s| - 1])
  }

  /**
   * The sort orders by non-increasing count, is a permutation, and is stable: the entries
   * sharing a count keep their relative order.
   */
  lemma SortByCountSpec<K>(s: seq<Bucket<K>>)
    ensures SortedByCount(SortByCount(s))
    ensures multiset(SortByCount(s)) == multiset(s)
    ensures forall c :: WithCount(SortByCount(s), c) == WithCount(s, c)
  {
    SortByCountSorted(s);
    forall c
      ensures WithCount(SortByCount(s), c) == WithCount(s, c)
    {
      SortByCountStable(s, c);
    }
  }

  lemma {:induction false} SortByCountSorted<K>(s: seq<Bucket<K>>)
    ensures SortedByCount(SortByCount(s))
  {
    if s != [] {
      var init := s[..|s| - 1];
      SortByCountSorted(init);
      InsertByCountSorted(SortByCount(init), s[|s| - 1]);
    }
  }

  lemma {:induction false} SortByCountStable<K>(s: seq<Bucket<K>>, c: nat)
    ensures WithCount(SortByCount(s), c) == WithCount(s, c)
  {
    if s != [] {
      var init := s[..|s| - 1];
      var x := s[|s| - 1];
      var t := SortByCount(init);
      var tail := if x.count == c then [x] else [];
      SortByCountSorted(init);
      SortByCountStable(init, c);
      InsertByCountStable(t, x, c);
      assert WithCount(SortByCount(s), c) == WithCount(init, c) + tail;
      WithCountSnoc(s, c);
    }
  }

  /** The index of the first entry carrying the largest count. */
  function FirstMax<K>(s: seq<Bucket<K>>): (i: nat)
    requires s != []
    ensures i < |s|
    ensures forall j :: 0 <= j < |s| ==> s[j].count <= s[i].count
    ensures forall j :: 0 <= j < i ==> s[j].count < s[i].count
  {
    if |s| == 1 then 0
    else
      var i := FirstMax(s[..|s| - 1]);
      if s[|s| - 1].count > s[i].count then |s| - 1 else i
  }

  /** Because the sort is stable, its first entry is the first entry with the largest count. */
  lemma {:induction false} SortByCountHead<K>(s: seq<Bucket<K>>)
    requires s != []
    ensures SortByCount(s)[0] == s[FirstMax(s)]
  {
    if |s| > 1 {
      var init := s[..|s| - 1];
      SortByCountHead(init);
    }
  }

  /** Each entry of the dictionary holds a key that occurs, with its number of occurrences. */
  lemma TalliedEntry<K(!new)>(keys: seq<K>, j: nat)
    requires j < |Tallied(keys)|
    ensures Tallied(keys)[j].key in keys
    ensures Tallied(keys)[j].count == multiset(keys)[Tallied(keys)[j].key]
  {
    var h := Tallied(keys);
    TalliedKeys(keys);
    assert KeysOf(h)[j] == h[j].key;
    CountOfEntry(h, j);
    TalliedSpec(keys);
  }

  /** Every key that occurs has an entry. */
  lemma TalliedIndex<K(!new)>(keys: seq<K>, k: K) returns (j: nat)
    requires k in keys
    ensures j < |Tallied(keys)| && Tallied(keys)[j].key == k
  {
    TalliedKeys(keys);
    j :| 0 <= j < |Tallied(keys)| && KeysOf(Tallied(keys))[j] == k;
  }

  /** The first entry with the largest count holds a key that occurs, and no key occurs more often. */
  lemma TalliedFirstMax<K(!new)>(keys: seq<K>)
    requires keys != []
    ensures Tallied(keys) != []
    ensures var m := Tallied(keys)[FirstMax(Tallied(keys))].key;
      m in keys && forall k :: multiset(keys)[k] <= multiset(keys)[m]
  {
    var h := Tallied(keys);
    var _ := TalliedIndex(keys, keys[0]);
    var i := FirstMax(h);
    TalliedEntry(keys, i);
    forall k
      ensures multiset(keys)[k] <= multiset(keys)[h[i].key]
    {
      if k in keys {
        var j := TalliedIndex(keys, k);
        TalliedEntry(keys, j);
      }
    }
  }

  /** `.slice(0, n)` of the sorted entries. */
  function Top<K>(h: seq<Bucket<K>>, n: nat): (r: seq<Bucket<K>>)
    ensures |r| == if |h| < n then |h| else n
  {
    var sorted := SortByCount(h);
    if |sorted| <= n then sorted else sorted[..n]
  }

  /**
   * The top `n` entries: at most `n`, non-increasing by count, each an entry of the
   * dictionary, none smaller than an entry left out, and ties kept in dictionary order.
   */
  lemma TopSpec<K>(h: seq<Bucket<K>>, n: nat)
    ensures |Top(h, n)| <= n
    ensures SortedByCount(Top(h, n))
    ensures forall b :: b in Top(h, n) ==> b in h
    ensures forall b, i :: b in h && b !in Top(h, n) && 0 <= i < |Top(h, n)| ==> b.count <= Top(h, n)[i].count
    ensures forall c :: WithCount(Top(h, n), c) <= WithCount(h, c)
  {
    SortByCountSorted(h);
    TopMembers(h, n);
    TopStable(h, n);
  }

  lemma TopStable<K>(h: seq<Bucket<K>>, n: nat)
    ensures forall c :: WithCount(Top(h, n), c) <= WithCount(h, c)
  {
    var sorted := SortByCount(h);
    var r := Top(h, n);
    assert sorted == r + sorted[|r|..];
    forall c
      ensures WithCount(r, c) <= WithCount(h, c)
    {
      SortByCountStable(h, c);
      WithCountAppend(r, sorted[|r|..], c);
    }
  }

  lemma TopMembers<K>(h: seq<Bucket<K>>, n: nat)
    ensures forall b :: b in Top(h, n) ==> b in h
    ensures forall b, i :: b in h && b !in Top(h, n) && 0 <= i < |Top(h, n)| ==> b.count <= Top(h, n)[i].count
  {
    TopFromDictionary(h, n);
    TopNoneLarger(h, n);
  }

  lemma TopFromDictionary<K>(h: seq<Bucket<K>>, n: nat)
    ensures forall b :: b in Top(h, n) ==> b in h
  {
    var sorted := SortByCount(h);
    var r := Top(h, n);
    assert r == sorted[..|r|];
    forall b | b in r
      ensures b in h
    {
      assert b in sorted;
      assert b in multiset(sorted);
    }
  }

  lemma TopNoneLarger<K>(h: seq<Bucket<K>>, n: nat)
    ensures forall b, i :: b in h && b !in Top(h, n) && 0 <= i < |Top(h, n)| ==> b.count <= Top(h, n)[i].count
  {
    var sorted := SortByCount(h);
    var r := Top(h, n);
    SortByCountSorted(h);
    assert r == sorted[..|r|];
    forall b, i | b in h && b !in r && 0 <= i < |r|
      ensures b.count <= r[i].count
    {
      assert b in multiset(sorted);
      var j :| 0 <= j < |sorted| && sorted[j] == b;
      assert j >= |r|;
    }
  }

  // ---------------------------------------------------------------------------
  // Sort ascending by string key: `.sort((a, b) => a[0].localeCompare(b[0]))`
  // ---------------------------------------------------------------------------

  /** Each key precedes the next one. */
  predicate AscendingByKey(s: seq<Bucket<string>>) {
    forall i :: 0 <= i < |s| - 1 ==> Precedes(s[i].key, s[i + 1].key)
  }

  function InsertByKey(t: seq<Bucket<string>>, x: Bucket<string>): (r: seq<Bucket<string>>)
    ensures multiset(r) == multiset(t) + multiset{x}
    ensures |r| == |t| + 1
  {
    if t == [] then [x]
    else if Precedes(t[0].key, x.key) then
      var r := [t[0]] + InsertByKey(t[1..], x);
      assert t == [t[0]] + t[1..];
      r
    else [x] + t
  }

  /** The entry ahead of the insertion point stays first; otherwise `x` is. */
  lemma InsertByKeyHead(t: seq<Bucket<string>>, x: Bucket<string>)
    ensures InsertByKey(t, x)[0] == if t != [] && Precedes(t[0].key, x.key) then t[0] else x
  {
  }

  /** Inserting adds the entry's count to the total. */
  lemma {:induction false} InsertByKeyTotal(t: seq<Bucket<string>>, x: Bucket<string>)
    ensures Total(InsertByKey(t, x)) == Total(t) + x.count
  {
    var r := InsertByKey(t, x);
    if t != [] && Precedes(t[0].key, x.key) {
      InsertByKeyTotal(t[1..], x);
      assert r[1..] == InsertByKey(t[1..], x);
    } else if t != [] {
      assert r[1..] == t;
    }
  }

  lemma {:induction false} InsertByKeyAscending(t: seq<Bucket<string>>, x: Bucket<string>)
    requires AscendingByKey(t)
    requires forall i :: 0 <= i < |t| ==> t[i].key != x.key
    ensures AscendingByKey(InsertByKey(t, x))
  {
    var r := InsertByKey(t, x);
    if t != [] {
      if Precedes(t[0].key, x.key) {
        InsertByKeyAscending(t[1..], x);
        InsertByKeyHead(t[1..], x);
        assert r[1..] == InsertByKey(t[1..], x);
      } else {
        PrecedesTotal(t[0].key, x.key);
        assert r == [x] + t;
      }
    }
  }

  /** The sort by key, as insertion sort. */
  function SortByKey(s: seq<Bucket<string>>): (r: seq<Bucket<string>>)
    ensures multiset(r) == multiset(s) && |r| == |s|
    ensures Total(r) == Total(s)
  {
    if s == [] then []
    else
      var init := s[..|s| - 1];
      assert s == init + [s[|s| - 1]];
      TotalAppend(init, s[|s| - 1]);
      InsertByKeyTotal(SortByKey(init), s[|s| - 1]);
      InsertByKey(SortByKey(init), s[|s| - 1])
  }

  lemma {:induction false} TotalAppend<K>(s: seq<Bucket<K>>, x: Bucket<K>)
    ensures Total(s + [x]) == Total(s) + x.count
  {
    if s != [] {
      TotalAppend(s[1..], x);
      assert (s + [x])[1..] == s[1..] + [x];
    }
  }

  /** With distinct keys the sort by key is strictly ascending, a permutation, and keeps the total. */
  lemma {:induction false} SortByKeySpec(s: seq<Bucket<string>>)
    requires DistinctKeys(s)
    ensures AscendingByKey(SortByKey(s))
    ensures multiset(SortByKey(s)) == multiset(s)
    ensures Total(SortByKey(s)) == Total(s)
  {
    if s != [] {
      var init := s[..|s| - 1];
      var x := s[|s| - 1];
      var t := SortByKey(init);
      SortByKeySpec(init);
      forall i | 0 <= i < |t|
        ensures t[i].key != x.key
      {
        assert t[i] in multiset(init);
        var j :| 0 <= j < |init| && init[j] == t[i];
        assert s[j] == t[i];
      }
      InsertByKeyAscending(t, x);
    }
  }
}
