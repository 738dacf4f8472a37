/**
 Python `dict`s with string keys whose insertion order matters, as
 association lists.

 A dict is the sequence of its entries in insertion order. Assigning to a key
 that is present replaces its value in place; assigning to a new key appends
 it, so iteration order is the order in which keys were first assigned.
 */
module Dicts {
  import opened Outcomes

  type Dict<V> = seq<(string, V)>

  /** The keys in iteration order. */
  function Keys<V>(d: Dict<V>): (ks: seq<string>)
    ensures |ks| == |d|
    ensures forall i :: 0 <= i < |d| ==> ks[i] == d[i].0
  {
    seq(|d|, i requires 0 <= i < |d| => d[i].0)
  }

  /** No key is listed twice, as in every Python dict. */
  predicate DistinctKeys<V>(d: Dict<V>) {
    forall i, j :: 0 <= i < j < |d| ==> d[i].0 != d[j].0
  }

  /** `d.get(k)`. */
  function Lookup<V>(d: Dict<V>, k: string): (r: Option<V>)
    ensures r.None? <==> k !in Keys(d)
    ensures r.Some? ==> (k, r.value) in d
    decreases |d|
  {
    if |d| == 0 then None
    else if d[0].0 == k then Some(d[0].1)
    else
      assert Keys(d) == [d[0].0] + Keys(d[1..]);
      Lookup(d[1..], k)
  }

  /** In a dict without repeated keys, an entry is what `Lookup` finds. */
  lemma LookupEntry<V>(d: Dict<V>, i: nat)
    requires DistinctKeys(d) && i < |d|
    ensures Lookup(d, d[i].0) == Some(d[i].1)
  {
    var r := Lookup(d, d[i].0);
    assert d[i].0 in Keys(d);
    var j :| 0 <= j < |d| && d[j] == (d[i].0, r.value);
    assert j == i;
  }

  /** The keys of an entry followed by a dict. */
  lemma KeysCons<V>(e: (string, V), d: Dict<V>)
    ensures Keys([e] + d) == [e.0] + Keys(d)
  {
  }

  /** `d[k] = v`: afterwards `k` maps to `v` and every other key is untouched. */
  function Put<V>(d: Dict<V>, k: string, v: V): (r: Dict<V>)
    ensures Lookup(r, k) == Some(v)
    ensures forall k' :: k' != k ==> Lookup(r, k') == Lookup(d, k')
    decreases |d|
  {
    if |d| == 0 then [(k, v)]
    else if d[0].0 == k then
      KeysCons((k, v), d[1..]);
      KeysCons(d[0], d[1..]);
      assert d == [d[0]] + d[1..];
      [(k, v)] + d[1..]
    else
      var rest := Put(d[1..], k, v);
      KeysCons(d[0], d[1..]);
      KeysCons(d[0], rest);
      assert d == [d[0]] + d[1..];
      [d[0]] + rest
  }

  /** A present key keeps its place in iteration order; a new key goes last. */
  lemma PutKeys<V>(d: Dict<V>, k: string, v: V)
    ensures Keys(Put(d, k, v)) == if k in Keys(d) then Keys(d) else Keys(d) + [k]
  {
    if k in Keys(d) {
      PutPresentKeys(d, k, v);
    } else {
      PutNewKeys(d, k, v);
    }
  }

  /** Assigning to a present key leaves the keys as they were. */
  lemma {:induction false} PutPresentKeys<V>(d: Dict<V>, k: string, v: V)
    requires k in Keys(d)
    ensures Keys(Put(d, k, v)) == Keys(d)
    decreases |d|
  {
    KeysCons(d[0], d[1..]);
    assert d == [d[0]] + d[1..];
    if d[0].0 == k {
      KeysCons((k, v), d[1..]);
    } else {
      PutPresentKeys(d[1..], k, v);
      KeysCons(d[0], Put(d[1..], k, v));
    }
  }

  /** Assigning to a new key appends it to the keys. */
  lemma {:induction false} PutNewKeys<V>(d: Dict<V>, k: string, v: V)
    requires k !in Keys(d)
    ensures Keys(Put(d, k, v)) == Keys(d) + [k]
    decreases |d|
  {
    if |d| > 0 {
      KeysCons(d[0], d[1..]);
      assert d == [d[0]] + d[1..];
      PutNewKeys(d[1..], k, v);
      KeysCons(d[0], Put(d[1..], k, v));
      assert [d[0].0] + (Keys(d[1..]) + [k]) == [d[0].0] + Keys(d[1..]) + [k];
    }
  }

  /** Keys stay distinct under assignment. */
  lemma PutDistinct<V>(d: Dict<V>, k: string, v: V)
    requires DistinctKeys(d)
    ensures DistinctKeys(Put(d, k, v))
  {
    var r := Put(d, k, v);
    PutKeys(d, k, v);
    var ks, rs := Keys(d), Keys(r);
    forall i, j | 0 <= i < j < |r|
      ensures r[i].0 != r[j].0
    {
      assert rs[i] == r[i].0 && rs[j] == r[j].0;
      if j >= |d| {
        assert ks[i] == d[i].0;
      }
    }
  }

  /** A property every value has still holds after assigning a value that has it. */
  lemma {:induction false} PutAll<V>(d: Dict<V>, k: string, v: V, p: V -> bool)
    requires forall i :: 0 <= i < |d| ==> p(d[i].1)
    requires p(v)
    ensures forall i :: 0 <= i < |Put(d, k, v)| ==> p(Put(d, k, v)[i].1)
    decreases |d|
  {
    if |d| > 0 && d[0].0 != k {
      PutAll(d[1..], k, v, p);
      var r := Put(d, k, v);
      forall i | 0 <= i < |r| ensures p(r[i].1) {
        if i > 0 {
          assert r[i] == Put(d[1..], k, v)[i - 1];
        }
      }
    }
  }

  /**
   Each element of `r` occurs in `xs` before the first occurrence of every
   element that follows it in `r`.
   */
  predicate InFirstOccurrenceOrder(xs: seq<string>, r: seq<string>) {
    forall i, j :: 0 <= i < j < |r| ==> OccursBefore(xs, r[i], r[j])
  }

  /** `u` occurs in `xs` at a position up to which `v` has not occurred. */
  predicate OccursBefore(xs: seq<string>, u: string, v: string) {
    exists a :: 0 <= a < |xs| && xs[a] == u && v !in xs[..a + 1]
  }

  /** The elements of `xs` without repeats, in the order of their first occurrence. */
  function FirstOccurrences(xs: seq<string>): (r: seq<string>)
    ensures forall x :: x in r <==> x in xs
    ensures forall i, j :: 0 <= i < j < |r| ==> r[i] != r[j]
    ensures InFirstOccurrenceOrder(xs, r)
    decreases |xs|
  {
    if |xs| == 0 then []
    else
      var init := xs[..|xs| - 1];
      var x := xs[|xs| - 1];
      assert xs == init + [x];
      var firsts := FirstOccurrences(init);
      var r := if x in firsts then firsts else firsts + [x];
      FirstOccurrencesOrderStep(init, x, firsts, r);
      r
  }

  /** The order of first occurrences survives one more element. */
  lemma FirstOccurrencesOrderStep(init: seq<string>, x: string, firsts: seq<string>, r: seq<string>)
    requires forall y :: y in firsts <==> y in init
    requires InFirstOccurrenceOrder(init, firsts)
    requires r == if x in firsts then firsts else firsts + [x]
    ensures InFirstOccurrenceOrder(init + [x], r)
  {
    var xs := init + [x];
    forall i, j | 0 <= i < j < |r|
      ensures OccursBefore(xs, r[i], r[j])
    {
      var a: int;
      if j < |firsts| {
        assert r[i] == firsts[i] && r[j] == firsts[j];
        assert OccursBefore(init, firsts[i], firsts[j]);
        a :| 0 <= a < |init| && init[a] == firsts[i] && firsts[j] !in init[..a + 1];
      } else {
        assert firsts[i] in init;
        a :| 0 <= a < |init| && init[a] == firsts[i];
      }
      assert xs[..a + 1] == init[..a + 1];
      assert xs[a] == r[i];
    }
  }

  /** Two different elements cannot each occur before the other. */
  lemma OccursBeforeAsymmetric(xs: seq<string>, u: string, v: string)
    requires u != v && OccursBefore(xs, u, v)
    ensures !OccursBefore(xs, v, u)
  {
    var a :| 0 <= a < |xs| && xs[a] == u && v !in xs[..a + 1];
    if b :| 0 <= b < |xs| && xs[b] == v && u !in xs[..b + 1] {
    }
  }

  /**
   Two lists without repeats, holding the same elements, that both follow
   the order of first occurrence in `xs`, are the same list.
   */
  lemma {:induction false} FirstOccurrenceOrderUnique(xs: seq<string>, r: seq<string>, f: seq<string>)
    requires forall x :: x in r <==> x in f
    requires forall i, j :: 0 <= i < j < |r| ==> r[i] != r[j]
    requires forall i, j :: 0 <= i < j < |f| ==> f[i] != f[j]
    requires InFirstOccurrenceOrder(xs, r) && InFirstOccurrenceOrder(xs, f)
    ensures r == f
    decreases |r|
  {
    assert |f| > 0 ==> f[0] in f;
    if |r| > 0 {
      assert r[0] in f;
      assert |f| > 0;
      if r[0] != f[0] {
        assert f[0] in f;
        var k :| 0 <= k < |r| && r[k] == f[0];
        var m :| 0 <= m < |f| && f[m] == r[0];
        assert OccursBefore(xs, r[0], r[k]);
        assert OccursBefore(xs, f[0], f[m]);
        OccursBeforeAsymmetric(xs, r[0], f[0]);
        assert false;
      }
      forall x ensures x in r[1..] <==> x in f[1..] {
        if x in r[1..] {
          var i :| 0 <= i < |r[1..]| && r[1..][i] == x;
          assert r[i + 1] == x && x != r[0];
          assert x in r && x in f;
          var m :| 0 <= m < |f| && f[m] == x;
          assert f[1..][m - 1] == x;
        }
        if x in f[1..] {
          var i :| 0 <= i < |f[1..]| && f[1..][i] == x;
          assert f[i + 1] == x && x != f[0];
          assert x in f && x in r;
          var m :| 0 <= m < |r| && r[m] == x;
          assert r[1..][m - 1] == x;
        }
      }
      forall i, j | 0 <= i < j < |r[1..]| ensures OccursBefore(xs, r[1..][i], r[1..][j]) {
        assert OccursBefore(xs, r[i + 1], r[j + 1]);
      }
      forall i, j | 0 <= i < j < |f[1..]| ensures OccursBefore(xs, f[1..][i], f[1..][j]) {
        assert OccursBefore(xs, f[i + 1], f[j + 1]);
      }
      FirstOccurrenceOrderUnique(xs, r[1..], f[1..]);
      assert r == [r[0]] + r[1..] && f == [f[0]] + f[1..];
    }
  }

  /**
   `FirstOccurrences` is the only list that holds the elements of `xs`
   without repeats in the order of their first occurrence.
   */
  lemma FirstOccurrencesUnique(xs: seq<string>, r: seq<string>)
    requires forall x :: x in r <==> x in xs
    requires forall i, j :: 0 <= i < j < |r| ==> r[i] != r[j]
    requires InFirstOccurrenceOrder(xs, r)
    ensures r == FirstOccurrences(xs)
  {
    FirstOccurrenceOrderUnique(xs, r, FirstOccurrences(xs));
  }

  /** One more element is appended exactly when it is new. */
  lemma FirstOccurrencesSnoc(xs: seq<string>, x: string)
    ensures FirstOccurrences(xs + [x]) ==
      if x in FirstOccurrences(xs) then FirstOccurrences(xs) else FirstOccurrences(xs) + [x]
  {
    assert (xs + [x])[..|xs|] == xs;
  }
}
