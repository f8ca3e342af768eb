/** Python dictionaries keyed by text, as insertion-ordered association
    lists, and the counting dictionaries ("key -> number of occurrences")
    that the statistics build. */
module Dicts {
  import opened Common

  type Dict<V> = seq<(string, V)>

  function Keys<V>(d: Dict<V>): (ks: seq<string>)
    ensures |ks| == |d| && forall i :: 0 <= i < |d| ==> ks[i] == d[i].0
  {
    seq(|d|, i requires 0 <= i < |d| => d[i].0)
  }

  predicate DistinctKeys<V>(d: Dict<V>)
  {
    forall i, j :: 0 <= i < j < |d| ==> d[i].0 != d[j].0
  }

  /** Distinct keys depend on the keys alone. */
  lemma DistinctKeysOfKeys<V, W>(a: Dict<V>, b: Dict<W>)
    requires Keys(a) == Keys(b) && DistinctKeys(a)
    ensures DistinctKeys(b)
  {
    forall i, j | 0 <= i < j < |b| ensures b[i].0 != b[j].0 {
      assert b[i].0 == Keys(b)[i] == Keys(a)[i] == a[i].0;
      assert b[j].0 == Keys(b)[j] == Keys(a)[j] == a[j].0;
    }
  }

  /** d.get(k). */
  function Get<V>(d: Dict<V>, k: string): Option<V>
  {
    if d == [] then None else if d[0].0 == k then Some(d[0].1) else Get(d[1..], k)
  }

  /** d[k] = v: overwrites in place, or appends a new last entry. */
  function Put<V>(d: Dict<V>, k: string, v: V): Dict<V>
  {
    if d == [] then [(k, v)]
    else if d[0].0 == k then [(k, v)] + d[1..]
    else [d[0]] + Put(d[1..], k, v)
  }

  /** A present key is looked up among the entries; an absent one is in none. */
  lemma {:induction false} GetKeys<V>(d: Dict<V>, k: string)
    ensures Get(d, k).None? <==> k !in Keys(d)
    ensures Get(d, k).Some? ==> (k, Get(d, k).value) in d
  {
    if d != [] && d[0].0 != k {
      GetKeys(d[1..], k);
      assert Keys(d) == [d[0].0] + Keys(d[1..]);
    }
  }

  /** Assigning an existing key keeps the key order. */
  lemma {:induction false} PutKeys<V>(d: Dict<V>, k: string, v: V)
    requires k in Keys(d)
    ensures Keys(Put(d, k, v)) == Keys(d)
  {
    if d[0].0 != k {
      assert Keys(d) == [d[0].0] + Keys(d[1..]);
      PutKeys(d[1..], k, v);
      assert Keys(Put(d, k, v)) == [d[0].0] + Keys(Put(d[1..], k, v));
    } else {
      assert Keys(Put(d, k, v)) == [k] + Keys(d[1..]);
      assert Keys(d) == [k] + Keys(d[1..]);
    }
  }

  /** A new key goes last. */
  lemma {:induction false} PutAppends<V>(d: Dict<V>, k: string, v: V)
    requires k !in Keys(d)
    ensures Put(d, k, v) == d + [(k, v)]
  {
    if d != [] {
      assert Keys(d) == [d[0].0] + Keys(d[1..]);
      PutAppends(d[1..], k, v);
      assert d == [d[0]] + d[1..];
    }
  }

  lemma {:induction false} GetPut<V>(d: Dict<V>, k: string, v: V, k': string)
    ensures Get(Put(d, k, v), k') == if k' == k then Some(v) else Get(d, k')
  {
    if d != [] && d[0].0 != k {
      GetPut(d[1..], k, v, k');
    }
  }

  /** With distinct keys, looking up an entry's key finds that entry's value. */
  lemma {:induction false} GetEntry<V>(d: Dict<V>, i: nat)
    requires DistinctKeys(d) && i < |d|
    ensures Get(d, d[i].0) == Some(d[i].1)
  {
    if i > 0 {
      assert d[0].0 != d[i].0;
      GetEntry(d[1..], i - 1);
    }
  }

  lemma PutDistinct<V>(d: Dict<V>, k: string, v: V)
    requires DistinctKeys(d)
    ensures DistinctKeys(Put(d, k, v))
  {
    var r := Put(d, k, v);
    if k in Keys(d) {
      PutKeys(d, k, v);
      assert forall i :: 0 <= i < |r| ==> r[i].0 == Keys(r)[i] == Keys(d)[i] == d[i].0;
    } else {
      PutAppends(d, k, v);
    }
  }

  // ---------------------------------------------------------------------
  // Counting dictionaries

  /** counts.get(k, 0) + 1. */
  function NextCount(d: Dict<nat>, k: string): nat
  {
    match Get(d, k) case Some(n) => n + 1 case None => 1
  }

  /** counts[k] = counts.get(k, 0) + 1 (equivalently: if k in counts:
      counts[k] += 1 else: counts[k] = 1). */
  function Bump(d: Dict<nat>, k: string): Dict<nat>
  {
    Put(d, k, NextCount(d, k))
  }

  /** Sum of the values. */
  function Total(d: Dict<nat>): nat
  {
    if d == [] then 0 else d[0].1 + Total(d[1..])
  }

  lemma {:induction false} TotalBump(d: Dict<nat>, k: string)
    ensures Total(Bump(d, k)) == Total(d) + 1
  {
    if d == [] {
    } else if d[0].0 == k {
      var r := Bump(d, k);
      assert r == [(k, d[0].1 + 1)] + d[1..];
      assert r[1..] == d[1..];
    } else {
      TotalBump(d[1..], k);
      assert NextCount(d, k) == NextCount(d[1..], k);
      var r := Bump(d, k);
      assert r == [d[0]] + Bump(d[1..], k);
      assert r[1..] == Bump(d[1..], k);
    }
  }

  /** Occurrences of k in ks. */
  function Count(ks: seq<string>, k: string): nat
  {
    if ks == [] then 0 else Count(ks[..|ks| - 1], k) + (if ks[|ks| - 1] == k then 1 else 0)
  }

  /** The counting dictionary of ks, keys in order of first occurrence:
      what a loop "for k in ks: counts[k] = counts.get(k, 0) + 1" leaves. */
  function Tally(ks: seq<string>): Dict<nat>
  {
    if ks == [] then [] else Bump(Tally(ks[..|ks| - 1]), ks[|ks| - 1])
  }

  lemma {:induction false} CountPositive(ks: seq<string>, k: string)
    ensures Count(ks, k) > 0 <==> k in ks
  {
    if ks != [] {
      CountPositive(ks[..|ks| - 1], k);
      assert ks == ks[..|ks| - 1] + [ks[|ks| - 1]];
    }
  }

  lemma TallyStep(init: seq<string>, last: string, k: string)
    requires Get(Tally(init), k) == if k in init then Some(Count(init, k)) else None
    ensures Get(Tally(init + [last]), k) == if k in init + [last] then Some(Count(init + [last], k)) else None
  {
    var ks := init + [last];
    assert ks[..|ks| - 1] == init;
    assert ks[|ks| - 1] == last;
    var t := Tally(init);
    assert Tally(ks) == Put(t, last, NextCount(t, last));
    assert Count(ks, k) == Count(init, k) + (if k == last then 1 else 0);
    GetPut(t, last, NextCount(t, last), k);
    CountPositive(init, k);
    assert k in ks <==> k in init || k == last;
  }

  /** The tally holds each key once, with its number of occurrences, holds
      no other key, and its values add up to the number of keys counted. */
  lemma {:induction false} TallyCounts(ks: seq<string>)
    ensures DistinctKeys(Tally(ks))
    ensures Total(Tally(ks)) == |ks|
    ensures forall k :: Get(Tally(ks), k) == if k in ks then Some(Count(ks, k)) else None
  {
    if ks != [] {
      var init, last := ks[..|ks| - 1], ks[|ks| - 1];
      var t := Tally(init);
      TallyCounts(init);
      PutDistinct(t, last, NextCount(t, last));
      TotalBump(t, last);
      assert ks == init + [last];
      forall k ensures Get(Tally(ks), k) == if k in ks then Some(Count(ks, k)) else None {
        TallyStep(init, last, k);
      }
    }
  }

  /** Position of the first occurrence of k in ks. */
  function FirstIndex(ks: seq<string>, k: string): (i: nat)
    requires k in ks
    ensures i < |ks| && ks[i] == k
    ensures forall j :: 0 <= j < i ==> ks[j] != k
  {
    if ks[0] == k then 0 else 1 + FirstIndex(ks[1..], k)
  }

  lemma FirstIndexSnoc(init: seq<string>, last: string, k: string)
    requires k in init
    ensures k in init + [last] && FirstIndex(init + [last], k) == FirstIndex(init, k)
  {
    var i, i' := FirstIndex(init, k), FirstIndex(init + [last], k);
    assert (init + [last])[i] == k;
    assert i' <= i;
    assert init[i'] == (init + [last])[i'];
  }

  /** keys are elements of ks, in order of their first occurrence there. */
  predicate FirstOccurrenceOrder(ks: seq<string>, keys: seq<string>)
  {
    (forall i :: 0 <= i < |keys| ==> keys[i] in ks) &&
    forall i, j :: 0 <= i < j < |keys| && keys[i] in ks && keys[j] in ks ==>
      FirstIndex(ks, keys[i]) < FirstIndex(ks, keys[j])
  }

  lemma FirstOccurrenceSnoc(init: seq<string>, last: string, keys: seq<string>)
    requires FirstOccurrenceOrder(init, keys)
    ensures FirstOccurrenceOrder(init + [last], keys)
    ensures last !in init ==> FirstOccurrenceOrder(init + [last], keys + [last])
  {
    var ks := init + [last];
    forall i | 0 <= i < |keys| ensures keys[i] in ks && FirstIndex(ks, keys[i]) == FirstIndex(init, keys[i]) {
      FirstIndexSnoc(init, last, keys[i]);
    }
    if last !in init {
      var keys' := keys + [last];
      assert FirstIndex(ks, last) == |init| by {
        assert ks[|init|] == last;
      }
      forall i | 0 <= i < |keys'| ensures keys'[i] in ks {
        if i < |keys| { assert keys'[i] == keys[i]; }
      }
      forall i, j | 0 <= i < j < |keys'| && keys'[i] in ks && keys'[j] in ks
        ensures FirstIndex(ks, keys'[i]) < FirstIndex(ks, keys'[j])
      {
        assert keys'[i] == keys[i];
        if j < |keys| { assert keys'[j] == keys[j]; }
      }
    }
  }

  lemma TallyKeysSnoc(init: seq<string>, last: string)
    ensures last in init ==> Keys(Tally(init + [last])) == Keys(Tally(init))
    ensures last !in init ==> Keys(Tally(init + [last])) == Keys(Tally(init)) + [last]
  {
    var ks := init + [last];
    assert ks[..|ks| - 1] == init;
    var t := Tally(init);
    assert Tally(ks) == Put(t, last, NextCount(t, last));
    TallyCounts(init);
    GetKeys(t, last);
    if last in init {
      PutKeys(t, last, NextCount(t, last));
    } else {
      PutAppends(t, last, NextCount(t, last));
    }
  }

  /** The tally's keys come in order of first occurrence in ks. */
  lemma {:induction false} TallyFirstOccurrence(ks: seq<string>)
    ensures FirstOccurrenceOrder(ks, Keys(Tally(ks)))
  {
    if ks != [] {
      var init, last := ks[..|ks| - 1], ks[|ks| - 1];
      assert ks == init + [last];
      TallyFirstOccurrence(init);
      TallyKeysSnoc(init, last);
      FirstOccurrenceSnoc(init, last, Keys(Tally(init)));
    }
  }

  /** Index of the entry Python's max(d.items(), key=lambda x: x[1])
      returns: a largest count, the first one in dictionary order on ties. */
  function FirstMaxIndex(d: Dict<nat>): (i: nat)
    requires d != []
    ensures i < |d|
    ensures forall j :: 0 <= j < |d| ==> d[j].1 <= d[i].1
    ensures forall j :: 0 <= j < i ==> d[j].1 < d[i].1
  {
    if |d| == 1 then 0
    else
      var i := FirstMaxIndex(d[..|d| - 1]);
      if d[|d| - 1].1 > d[i].1 then |d| - 1 else i
  }

  // ---------------------------------------------------------------------
  // ORDER BY count DESC

  /** Counts never increase from one entry to the next. */
  predicate SortedByCountDesc(d: Dict<nat>)
  {
    forall i :: 0 < i < |d| ==> d[i - 1].1 >= d[i].1
  }

  lemma {:induction false} SortedByCountDescPairs(d: Dict<nat>, i: nat, j: nat)
    requires SortedByCountDesc(d) && i <= j < |d|
    ensures d[i].1 >= d[j].1
    decreases j - i
  {
    if i < j { SortedByCountDescPairs(d, i + 1, j); }
  }

  function InsertByCount(e: (string, nat), d: Dict<nat>): (r: Dict<nat>)
    requires SortedByCountDesc(d)
    ensures SortedByCountDesc(r)
    ensures multiset(r) == multiset(d) + multiset{e}
    ensures Total(r) == e.1 + Total(d)
    ensures r != [] && (r[0] == e || (d != [] && r[0] == d[0]))
  {
    if d == [] || d[0].1 <= e.1 then [e] + d
    else
      var rest := InsertByCount(e, d[1..]);
      assert d == [d[0]] + d[1..];
      assert ([d[0]] + rest)[1..] == rest;
      [d[0]] + rest
  }

  /** The groups ordered by count, largest first (a stable insertion sort;
      SQL leaves the order of equal counts open). The result is a
      permutation of the groups, so the counts still add up to the total. */
  function SortByCountDesc(d: Dict<nat>): (r: Dict<nat>)
    ensures SortedByCountDesc(r)
    ensures multiset(r) == multiset(d)
    ensures Total(r) == Total(d)
  {
    if d == [] then []
    else
      assert d == [d[0]] + d[1..];
      InsertByCount(d[0], SortByCountDesc(d[1..]))
  }
}
