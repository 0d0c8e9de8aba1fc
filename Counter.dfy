/**
 * Python's `collections.Counter` and the plain counting `dict`, as the log
 * analyzer uses them: an insertion-ordered list of (key, count) entries, one
 * per distinct key, built by incrementing one key at a time, and ranked by
 * `most_common`.
 */
module Counter {

  datatype Entry<K> = Entry(key: K, count: nat)

  function Keys<K>(c: seq<Entry<K>>): seq<K>
  {
    seq(|c|, i requires 0 <= i < |c| => c[i].key)
  }

  predicate DistinctKeys<K(==)>(c: seq<Entry<K>>)
  {
    forall i, j :: 0 <= i < j < |c| ==> c[i].key != c[j].key
  }

  /** `counter[k]`: the count of `k`, or 0 when `k` was never counted. */
  function Get<K(==)>(c: seq<Entry<K>>, k: K): nat
  {
    if |c| == 0 then 0 else if c[0].key == k then c[0].count else Get(c[1..], k)
  }

  /** The sum of all counts. */
  function Total<K>(c: seq<Entry<K>>): nat
  {
    if |c| == 0 then 0 else c[0].count + Total(c[1..])
  }

  /** `counter[k] += 1`: a known key is counted in place, a new key is appended with count 1. */
  function Increment<K(==)>(c: seq<Entry<K>>, k: K): seq<Entry<K>>
  {
    if |c| == 0 then [Entry(k, 1)]
    else if c[0].key == k then [Entry(k, c[0].count + 1)] + c[1..]
    else [c[0]] + Increment(c[1..], k)
  }

  /** The counter after incrementing each key of `keys` in turn, starting empty. */
  function Tally<K(==)>(keys: seq<K>): seq<Entry<K>>
  {
    if |keys| == 0 then [] else Increment(Tally(keys[..|keys| - 1]), keys[|keys| - 1])
  }

  lemma TallySnoc<K>(keys: seq<K>, k: K)
    ensures Tally(keys + [k]) == Increment(Tally(keys), k)
  {
    assert (keys + [k])[..|keys|] == keys;
  }

  /** How often `k` occurs in `keys`. */
  function Occurrences<K(==)>(keys: seq<K>, k: K): nat
  {
    if |keys| == 0 then 0
    else Occurrences(keys[..|keys| - 1], k) + (if keys[|keys| - 1] == k then 1 else 0)
  }

  /** The index of the first occurrence of `k`. */
  function FirstIndex<K(==)>(keys: seq<K>, k: K): (i: nat)
    requires k in keys
    ensures i < |keys| && keys[i] == k && k !in keys[..i]
  {
    if keys[0] == k then 0 else 1 + FirstIndex(keys[1..], k)
  }

  lemma {:induction false} IncrementGet<K>(c: seq<Entry<K>>, k: K, j: K)
    ensures Get(Increment(c, k), j) == Get(c, j) + (if j == k then 1 else 0)
  {
    if |c| > 0 && c[0].key != k {
      IncrementGet(c[1..], k, j);
      assert Increment(c, k)[1..] == Increment(c[1..], k);
    }
  }

  lemma {:induction false} IncrementTotal<K>(c: seq<Entry<K>>, k: K)
    ensures Total(Increment(c, k)) == Total(c) + 1
  {
    if |c| > 0 {
      if c[0].key == k {
        assert Increment(c, k)[1..] == c[1..];
      } else {
        IncrementTotal(c[1..], k);
        assert Increment(c, k)[1..] == Increment(c[1..], k);
      }
    }
  }

  lemma KeysCons<K>(e: Entry<K>, t: seq<Entry<K>>)
    ensures Keys([e] + t) == [e.key] + Keys(t)
  {
  }

  /** Incrementing keeps the order of the keys and appends a new key at the end. */
  lemma {:induction false} IncrementKeys<K>(c: seq<Entry<K>>, k: K)
    ensures Keys(Increment(c, k)) == if k in Keys(c) then Keys(c) else Keys(c) + [k]
  {
    if |c| > 0 {
      assert c == [c[0]] + c[1..];
      KeysCons(c[0], c[1..]);
      if c[0].key != k {
        IncrementKeys(c[1..], k);
        assert Increment(c, k) == [c[0]] + Increment(c[1..], k);
        KeysCons(c[0], Increment(c[1..], k));
      } else {
        assert Increment(c, k) == [Entry(k, c[0].count + 1)] + c[1..];
        KeysCons(Entry(k, c[0].count + 1), c[1..]);
      }
    }
  }

  lemma {:induction false} GetOfDistinct<K>(c: seq<Entry<K>>, i: int)
    requires DistinctKeys(c) && 0 <= i < |c|
    ensures Get(c, c[i].key) == c[i].count
  {
    if i > 0 {
      GetOfDistinct(c[1..], i - 1);
    }
  }

  lemma {:induction false} OccurrencesIn<K>(keys: seq<K>, k: K)
    ensures Occurrences(keys, k) > 0 <==> k in keys
  {
    if |keys| > 0 {
      OccurrencesIn(keys[..|keys| - 1], k);
      assert keys == keys[..|keys| - 1] + [keys[|keys| - 1]];
    }
  }

  lemma {:induction false} FirstIndexAppend<K>(pre: seq<K>, k: K, x: K)
    requires x in pre + [k]
    ensures FirstIndex(pre + [k], x) == if x in pre then FirstIndex(pre, x) else |pre|
  {
    if |pre| > 0 && pre[0] != x {
      assert (pre + [k])[1..] == pre[1..] + [k];
      FirstIndexAppend(pre[1..], k, x);
      assert x in pre <==> x in pre[1..];
    }
  }

  /** The counter built from `keys` has one entry per distinct key. */
  lemma {:induction false} TallyKeys<K>(keys: seq<K>)
    ensures DistinctKeys(Tally(keys))
    ensures forall k :: k in Keys(Tally(keys)) <==> k in keys
  {
    var t := Tally(keys);
    if |keys| > 0 {
      var pre := keys[..|keys| - 1];
      var k := keys[|keys| - 1];
      assert keys == pre + [k];
      TallyKeys(pre);
      var p := Tally(pre);
      IncrementKeys(p, k);
      assert forall i :: 0 <= i < |t| ==> t[i].key == Keys(t)[i];
      assert forall i :: 0 <= i < |p| ==> p[i].key == Keys(p)[i];
      forall i, j | 0 <= i < j < |t|
        ensures t[i].key != t[j].key
      {
        if j < |p| {
          assert Keys(t)[i] == Keys(p)[i] && Keys(t)[j] == Keys(p)[j];
        } else {
          assert Keys(t)[i] == Keys(p)[i] && t[j].key == k && k !in Keys(p);
        }
      }
    }
  }

  /** Each count is the number of occurrences of its key; unseen keys count 0. */
  lemma {:induction false} TallyCounts<K>(keys: seq<K>)
    ensures forall k :: Get(Tally(keys), k) == Occurrences(keys, k)
    ensures forall i :: 0 <= i < |Tally(keys)| ==>
      Tally(keys)[i].count == Occurrences(keys, Tally(keys)[i].key) && Tally(keys)[i].count >= 1
  {
    var t := Tally(keys);
    if |keys| > 0 {
      var pre := keys[..|keys| - 1];
      var k := keys[|keys| - 1];
      TallyCounts(pre);
      forall j
        ensures Get(t, j) == Occurrences(keys, j)
      {
        IncrementGet(Tally(pre), k, j);
      }
    }
    TallyKeys(keys);
    forall i | 0 <= i < |t|
      ensures t[i].count == Occurrences(keys, t[i].key) && t[i].count >= 1
    {
      GetOfDistinct(t, i);
      assert Get(t, t[i].key) == Occurrences(keys, t[i].key);
      assert Keys(t)[i] == t[i].key;
      OccurrencesIn(keys, t[i].key);
    }
  }

  /** The counts add up to the number of keys counted. */
  lemma {:induction false} TallyTotal<K>(keys: seq<K>)
    ensures Total(Tally(keys)) == |keys|
  {
    if |keys| > 0 {
      TallyTotal(keys[..|keys| - 1]);
      IncrementTotal(Tally(keys[..|keys| - 1]), keys[|keys| - 1]);
    }
  }

  lemma OrderStep<K>(pre: seq<K>, k: K, ps: seq<K>, ks: seq<K>)
    requires forall x :: x in ps <==> x in pre
    requires forall i, j :: 0 <= i < j < |ps| ==> FirstIndex(pre, ps[i]) < FirstIndex(pre, ps[j])
    requires ks == if k in ps then ps else ps + [k]
    ensures forall i :: 0 <= i < |ks| ==> ks[i] in pre + [k]
    ensures forall i, j :: 0 <= i < j < |ks| ==> FirstIndex(pre + [k], ks[i]) < FirstIndex(pre + [k], ks[j])
  {
    var keys := pre + [k];
    forall i | 0 <= i < |ks|
      ensures ks[i] in keys
    {
      if i < |ps| {
        assert ks[i] == ps[i] && ps[i] in pre;
      }
    }
    forall i, j | 0 <= i < j < |ks|
      ensures FirstIndex(keys, ks[i]) < FirstIndex(keys, ks[j])
    {
      assert ks[i] == ps[i] && ps[i] in pre;
      FirstIndexAppend(pre, k, ks[i]);
      if j < |ps| {
        assert ks[j] == ps[j] && ps[j] in pre;
        FirstIndexAppend(pre, k, ks[j]);
      } else {
        assert ks[j] == k && k !in pre;
        FirstIndexAppend(pre, k, k);
      }
    }
  }

  /** Entries appear in the order in which their keys were first counted. */
  lemma {:induction false} TallyOrder<K>(keys: seq<K>)
    ensures forall i :: 0 <= i < |Keys(Tally(keys))| ==> Keys(Tally(keys))[i] in keys
    ensures forall i, j :: 0 <= i < j < |Keys(Tally(keys))| ==>
      FirstIndex(keys, Keys(Tally(keys))[i]) < FirstIndex(keys, Keys(Tally(keys))[j])
  {
    if |keys| > 0 {
      var pre := keys[..|keys| - 1];
      var k := keys[|keys| - 1];
      assert keys == pre + [k];
      TallyOrder(pre);
      TallyKeys(pre);
      IncrementKeys(Tally(pre), k);
      OrderStep(pre, k, Keys(Tally(pre)), Keys(Tally(keys)));
    }
  }

  // ---------------------------------------------------------------------
  // most_common(n): `heapq.nlargest(n, items, key=count)`, which equals a
  // stable sort by descending count cut to the first n entries.
  // ---------------------------------------------------------------------

  predicate NonIncreasing<K>(s: seq<Entry<K>>)
  {
    forall i, j :: 0 <= i < j < |s| ==> s[i].count >= s[j].count
  }

  /** The entries of `s` whose count is `m`, in their order in `s`. */
  function WithCount<K>(s: seq<Entry<K>>, m: nat): seq<Entry<K>>
  {
    if |s| == 0 then [] else (if s[0].count == m then [s[0]] else []) + WithCount(s[1..], m)
  }

  /** Puts `e` before the first entry whose count is not larger, so that `e`
      stays ahead of the entries with the same count. */
  function InsertByCount<K>(e: Entry<K>, s: seq<Entry<K>>): seq<Entry<K>>
  {
    if |s| == 0 || s[0].count <= e.count then [e] + s else [s[0]] + InsertByCount(e, s[1..])
  }

  function SortByCount<K>(c: seq<Entry<K>>): seq<Entry<K>>
  {
    if |c| == 0 then [] else InsertByCount(c[0], SortByCount(c[1..]))
  }

  lemma WithCountCons<K>(x: Entry<K>, y: seq<Entry<K>>, m: nat)
    ensures WithCount([x] + y, m) == (if x.count == m then [x] else []) + WithCount(y, m)
  {
    assert ([x] + y)[1..] == y;
  }

  lemma {:induction false} InsertPerm<K>(e: Entry<K>, s: seq<Entry<K>>)
    ensures multiset(InsertByCount(e, s)) == multiset(s) + multiset{e}
  {
    if !(|s| == 0 || s[0].count <= e.count) {
      InsertPerm(e, s[1..]);
      assert s == [s[0]] + s[1..];
    }
  }

  lemma {:induction false} InsertWithCount<K>(e: Entry<K>, s: seq<Entry<K>>, m: nat)
    ensures WithCount(InsertByCount(e, s), m) == (if e.count == m then [e] else []) + WithCount(s, m)
  {
    if |s| == 0 || s[0].count <= e.count {
      WithCountCons(e, s, m);
    } else {
      InsertWithCount(e, s[1..], m);
      WithCountCons(s[0], InsertByCount(e, s[1..]), m);
      WithCountCons(s[0], s[1..], m);
      assert s == [s[0]] + s[1..];
    }
  }

  lemma {:induction false} InsertSorted<K>(e: Entry<K>, s: seq<Entry<K>>)
    requires NonIncreasing(s)
    ensures NonIncreasing(InsertByCount(e, s))
  {
    if |s| == 0 {
      ConsSorted(e, s);
    } else if s[0].count <= e.count {
      HeadDominates(s);
      ConsSorted(e, s);
    } else {
      var t := InsertByCount(e, s[1..]);
      InsertSorted(e, s[1..]);
      InsertPerm(e, s[1..]);
      HeadDominates(s);
      forall x | x in t
        ensures s[0].count >= x.count
      {
        assert x in multiset(t);
        if x != e {
          assert x in multiset(s[1..]);
        }
      }
      ConsSorted(s[0], t);
    }
  }

  /** The head of a non-increasing sequence has the largest count. */
  lemma HeadDominates<K>(s: seq<Entry<K>>)
    requires NonIncreasing(s) && |s| > 0
    ensures forall x :: x in s[1..] ==> s[0].count >= x.count
  {
    forall x | x in s[1..]
      ensures s[0].count >= x.count
    {
      var k :| 0 <= k < |s[1..]| && s[1..][k] == x;
      assert s[k + 1] == x;
    }
  }

  lemma ConsSorted<K>(h: Entry<K>, t: seq<Entry<K>>)
    requires NonIncreasing(t)
    requires forall x :: x in t ==> h.count >= x.count
    ensures NonIncreasing([h] + t)
  {
    var r := [h] + t;
    forall i, j | 0 <= i < j < |r|
      ensures r[i].count >= r[j].count
    {
      assert r[j] == t[j - 1];
      if i == 0 {
        assert r[j] in t;
      } else {
        assert r[i] == t[i - 1];
      }
    }
  }

  /** The sort is a stable permutation into non-increasing count order. */
  lemma {:induction false} SortFacts<K>(c: seq<Entry<K>>)
    ensures NonIncreasing(SortByCount(c))
    ensures multiset(SortByCount(c)) == multiset(c)
    ensures forall m :: WithCount(SortByCount(c), m) == WithCount(c, m)
  {
    if |c| > 0 {
      SortFacts(c[1..]);
      InsertSorted(c[0], SortByCount(c[1..]));
      InsertPerm(c[0], SortByCount(c[1..]));
      assert c == [c[0]] + c[1..];
      forall m ensures WithCount(SortByCount(c), m) == WithCount(c, m) {
        InsertWithCount(c[0], SortByCount(c[1..]), m);
        WithCountCons(c[0], c[1..], m);
      }
    }
  }

  lemma {:induction false} WithCountPrefix<K>(s: seq<Entry<K>>, k: int, m: nat)
    requires 0 <= k <= |s|
    ensures WithCount(s[..k], m) <= WithCount(s, m)
  {
    if k > 0 {
      WithCountPrefix(s[1..], k - 1, m);
      assert s[..k][1..] == s[1..][..k - 1];
    }
  }

  function Min(a: int, b: int): int { if a <= b then a else b }

  /** Every entry in a prefix of a non-increasing sequence has a count at
      least that of every entry after it. */
  lemma PrefixDominates<K>(s: seq<Entry<K>>, k: int, x: Entry<K>, y: Entry<K>)
    requires NonIncreasing(s) && 0 <= k <= |s|
    requires x in s[..k] && y in s[k..]
    ensures x.count >= y.count
  {
    var i :| 0 <= i < k && s[..k][i] == x;
    var j :| 0 <= j < |s| - k && s[k..][j] == y;
    assert s[i] == x && s[k + j] == y;
  }

  lemma PrefixSorted<K>(s: seq<Entry<K>>, k: int)
    requires NonIncreasing(s) && 0 <= k <= |s|
    ensures NonIncreasing(s[..k])
  {
    forall i, j | 0 <= i < j < k
      ensures s[..k][i].count >= s[..k][j].count
    {
      assert s[..k][i] == s[i] && s[..k][j] == s[j];
    }
  }

  lemma TakeSplit<K>(s: seq<Entry<K>>, k: int)
    requires 0 <= k <= |s|
    ensures multiset(s) == multiset(s[..k]) + multiset(s[k..])
  {
    assert s == s[..k] + s[k..];
  }

  /** The first `k` sorted entries: a sub-multiset of the counter, all of it when `k` is its size. */
  lemma TakePerm<K>(c: seq<Entry<K>>, k: int)
    requires 0 <= k <= |c|
    ensures var s := SortByCount(c);
      && |s| == |c|
      && multiset(s[..k]) <= multiset(c)
      && (k == |c| ==> multiset(s[..k]) == multiset(c))
  {
    var s := SortByCount(c);
    SortFacts(c);
    assert |multiset(s)| == |multiset(c)|;
    TakeSplit(s, k);
    if k == |s| {
      assert s[..k] == s;
    }
  }

  /** No entry left out of the first `k` sorted entries outranks one taken. */
  lemma TakeDominates<K>(c: seq<Entry<K>>, k: int)
    requires 0 <= k <= |SortByCount(c)|
    ensures var s := SortByCount(c);
      forall x, y :: x in s[..k] && y in multiset(c) - multiset(s[..k]) ==> x.count >= y.count
  {
    var s := SortByCount(c);
    SortFacts(c);
    TakeSplit(s, k);
    forall x, y | x in s[..k] && y in multiset(c) - multiset(s[..k])
      ensures x.count >= y.count
    {
      assert y in multiset(s[k..]);
      PrefixDominates(s, k, x, y);
    }
  }

  /**
   * `Counter.most_common(n)`: at most `n` entries (none for `n <= 0`), by
   * non-increasing count; no entry left out has a larger count than one
   * taken; entries with equal counts keep their insertion order; with `n` at
   * least the number of keys, every entry.
   */
  function MostCommon<K>(c: seq<Entry<K>>, n: int): (r: seq<Entry<K>>)
    ensures |r| == if n <= 0 then 0 else Min(n, |c|)
    ensures NonIncreasing(r)
    ensures multiset(r) <= multiset(c)
    ensures n >= |c| ==> multiset(r) == multiset(c)
    ensures forall x, y :: x in r && y in multiset(c) - multiset(r) ==> x.count >= y.count
    ensures forall m :: WithCount(r, m) <= WithCount(c, m)
  {
    if n <= 0 then []
    else
      var s := SortByCount(c);
      var k := Min(n, |c|);
      SortFacts(c);
      TakePerm(c, k);
      TakeDominates(c, k);
      PrefixSorted(s, k);
      assert forall m :: WithCount(s[..k], m) <= WithCount(c, m) by {
        forall m ensures WithCount(s[..k], m) <= WithCount(c, m) {
          WithCountPrefix(s, k, m);
        }
      }
      s[..k]
  }
}
