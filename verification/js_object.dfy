/** Plain JavaScript objects used as dictionaries, as ordered lists of
    (key, value) entries. ECMA-262 (section 10.1.11, OrdinaryOwnPropertyKeys)
    lists integer-index keys first in ascending numeric order and all
    other string keys in insertion order; `Object.entries`, `Object.keys`
    and `Object.values` follow that order. */
module JsObject {
  import opened Wrappers
  import opened Text
  import opened Seqs

  type Entries<V> = seq<(string, V)>

  /** An array-index key: the canonical decimal form of an integer below
      2^32 - 1 ("0", "7", "2018", but not "07", "-1" or "1.5"). */
  predicate IsIndexKey(k: string) {
    && |k| > 0
    && (forall i :: 0 <= i < |k| ==> IsDigit(k[i]))
    && (k[0] != '0' || |k| == 1)
    && DigitsValue(k) < 0xFFFF_FFFF
  }

  /** The numeric value of an index key (0 for other keys). */
  function KeyValue(k: string): nat {
    if IsIndexKey(k) then DigitsValue(k) else 0
  }

  /** Index key `a` sorts strictly before index key `b`. */
  predicate IndexBefore(a: string, b: string) {
    IsIndexKey(a) && IsIndexKey(b) && KeyValue(a) < KeyValue(b)
  }

  /** The value stored under `k`, as `o[k]` reads it (None: undefined). */
  function Get<V>(o: Entries<V>, k: string): (r: Option<V>)
    ensures r.None? <==> k !in Keys(o)
  {
    if |o| == 0 then None
    else if o[0].0 == k then Some(o[0].1)
    else
      assert Keys(o) == [o[0].0] + Keys(o[1..]);
      Get(o[1..], k)
  }

  /** The property order of a JavaScript object: no key twice, and every
      index key preceded only by index keys of no larger value. */
  predicate InPropertyOrder(ks: seq<string>) {
    forall i, j :: 0 <= i < j < |ks| ==>
      && ks[i] != ks[j]
      && (IsIndexKey(ks[j]) ==> IsIndexKey(ks[i]) && KeyValue(ks[i]) <= KeyValue(ks[j]))
  }

  /** An object whose keys are in property order. */
  predicate WellOrdered<V>(o: Entries<V>) {
    InPropertyOrder(Keys(o))
  }

  /** The keys that are not index keys, in order. */
  function NonIndexKeys(ks: seq<string>): (r: seq<string>)
    ensures forall x :: x in r <==> x in ks && !IsIndexKey(x)
  {
    if |ks| == 0 then []
    else (if IsIndexKey(ks[0]) then [] else [ks[0]]) + NonIndexKeys(ks[1..])
  }

  /** The index keys, in order. */
  function IndexKeys(ks: seq<string>): (r: seq<string>)
    ensures forall x :: x in r <==> x in ks && IsIndexKey(x)
  {
    if |ks| == 0 then []
    else (if IsIndexKey(ks[0]) then [ks[0]] else []) + IndexKeys(ks[1..])
  }

  lemma {:induction false} NonIndexKeysConcat(a: seq<string>, b: seq<string>)
    ensures NonIndexKeys(a + b) == NonIndexKeys(a) + NonIndexKeys(b)
    decreases |a|
  {
    if |a| == 0 {
      assert a + b == b;
    } else {
      assert (a + b)[1..] == a[1..] + b;
      NonIndexKeysConcat(a[1..], b);
    }
  }

  lemma {:induction false} IndexKeysConcat(a: seq<string>, b: seq<string>)
    ensures IndexKeys(a + b) == IndexKeys(a) + IndexKeys(b)
    decreases |a|
  {
    if |a| == 0 {
      assert a + b == b;
    } else {
      assert (a + b)[1..] == a[1..] + b;
      IndexKeysConcat(a[1..], b);
    }
  }

  /** Where a new index key goes: after the index keys of smaller value. */
  function InsertPos<V>(o: Entries<V>, k: string): (p: nat)
    ensures p <= |o|
    ensures forall i :: 0 <= i < p ==> IndexBefore(o[i].0, k)
    ensures p < |o| ==> !IndexBefore(o[p].0, k)
  {
    if |o| == 0 || !IndexBefore(o[0].0, k) then 0 else 1 + InsertPos(o[1..], k)
  }

  /** The position of the entry for a key that is present. */
  function FirstIndex<V>(o: Entries<V>, k: string): (i: nat)
    requires k in Keys(o)
    ensures i < |o| && o[i].0 == k
    ensures forall j :: 0 <= j < i ==> o[j].0 != k
  {
    if o[0].0 == k then 0
    else
      KeyInTail(o, k);
      1 + FirstIndex(o[1..], k)
  }

  /** A key other than the first one is a key of the rest. */
  lemma KeyInTail<V>(o: Entries<V>, k: string)
    requires k in Keys(o) && o[0].0 != k
    ensures k in Keys(o[1..])
  {
    var i :| 0 <= i < |o| && Keys(o)[i] == k;
    assert Keys(o[1..])[i - 1] == k;
  }

  /** `o[k] = v` on a plain object: an existing key keeps its position,
      a new index key is placed among the index keys by value, any other
      new key is appended. */
  function Put<V(==)>(o: Entries<V>, k: string, v: V): (r: Entries<V>)
    ensures Get(r, k) == Some(v)
    ensures forall k' :: k' != k ==> Get(r, k') == Get(o, k')
    ensures forall k' :: k' in Keys(r) <==> k' in Keys(o) || k' == k
    ensures |r| == if k in Keys(o) then |o| else |o| + 1
  {
    if k in Keys(o) then
      var i := FirstIndex(o, k);
      ReplaceFacts(o, k, v, i);
      o[i := (k, v)]
    else if IsIndexKey(k) then
      var p := InsertPos(o, k);
      InsertFacts(o, k, v, p);
      o[..p] + [(k, v)] + o[p..]
    else
      AppendFacts(o, k, v);
      o + [(k, v)]
  }

  /** `Put` keeps the property order, and the non-index keys change only
      by appending a new non-index key at the end. */
  lemma PutOrder<V>(o: Entries<V>, k: string, v: V)
    ensures WellOrdered(o) ==> WellOrdered(Put(o, k, v))
    ensures NonIndexKeys(Keys(Put(o, k, v))) ==
              if k in Keys(o) || IsIndexKey(k) then NonIndexKeys(Keys(o))
              else NonIndexKeys(Keys(o)) + [k]
  {
    if k in Keys(o) {
      ReplaceFacts(o, k, v, FirstIndex(o, k));
    } else if IsIndexKey(k) {
      InsertFacts(o, k, v, InsertPos(o, k));
    } else {
      AppendFacts(o, k, v);
    }
  }

  lemma ReplaceFacts<V>(o: Entries<V>, k: string, v: V, i: nat)
    requires k in Keys(o) && i == FirstIndex(o, k)
    ensures Keys(o[i := (k, v)]) == Keys(o)
    ensures Get(o[i := (k, v)], k) == Some(v)
    ensures forall k' :: k' != k ==> Get(o[i := (k, v)], k') == Get(o, k')
  {
    var r := o[i := (k, v)];
    assert o == o[..i] + [o[i]] + o[i + 1..];
    assert r == o[..i] + [(k, v)] + o[i + 1..];
    assert k !in Keys(o[..i]);
    GetThrough(o[..i], k, o[i].1, o[i + 1..], k);
    GetThrough(o[..i], k, v, o[i + 1..], k);
    forall k' | k' != k ensures Get(r, k') == Get(o, k') {
      GetThrough(o[..i], k, v, o[i + 1..], k');
      GetThrough(o[..i], k, o[i].1, o[i + 1..], k');
    }
  }

  /** Reading through a prefix without the key, past an entry. */
  lemma {:induction false} GetThrough<V>(a: Entries<V>, k: string, v: V, b: Entries<V>, k': string)
    requires k !in Keys(a)
    ensures Get(a + [(k, v)] + b, k') ==
              if k' in Keys(a) then Get(a, k')
              else if k' == k then Some(v)
              else Get(b, k')
    decreases |a|
  {
    var s := a + [(k, v)] + b;
    if |a| == 0 {
      assert s == [(k, v)] + b;
      assert s[1..] == b;
    } else {
      assert Keys(a) == [a[0].0] + Keys(a[1..]);
      assert s[1..] == a[1..] + [(k, v)] + b;
      assert s[0] == a[0];
      GetThrough(a[1..], k, v, b, k');
    }
  }

  lemma InsertFacts<V>(o: Entries<V>, k: string, v: V, p: nat)
    requires k !in Keys(o) && IsIndexKey(k)
    requires p == InsertPos(o, k)
    ensures var r := o[..p] + [(k, v)] + o[p..];
      && (WellOrdered(o) ==> WellOrdered(r))
      && Get(r, k) == Some(v)
      && (forall k' :: k' != k ==> Get(r, k') == Get(o, k'))
      && (forall k' :: k' in Keys(r) <==> k' in Keys(o) || k' == k)
      && NonIndexKeys(Keys(r)) == NonIndexKeys(Keys(o))
  {
    var r := o[..p] + [(k, v)] + o[p..];
    InsertKeys(o, k, v, p);
    InsertGet(o, k, v, p);
    InsertedMembers(Keys(o), k, p);
    if WellOrdered(o) {
      InsertOrdered(o, k, v, p);
    }
  }

  /** The members of a sequence with one element inserted. */
  lemma InsertedMembers<T>(s: seq<T>, x: T, p: nat)
    requires p <= |s|
    ensures forall y :: y in s[..p] + [x] + s[p..] <==> y in s || y == x
  {
    assert s == s[..p] + s[p..];
  }

  /** Inserting a new index key at its place keeps the property order. */
  lemma InsertOrdered<V>(o: Entries<V>, k: string, v: V, p: nat)
    requires k !in Keys(o) && IsIndexKey(k) && WellOrdered(o)
    requires p == InsertPos(o, k)
    ensures WellOrdered(o[..p] + [(k, v)] + o[p..])
  {
    forall i | 0 <= i < p ensures IndexBefore(Keys(o)[i], k) {
      assert Keys(o)[i] == o[i].0;
    }
    InsertKeepsOrder(Keys(o), k, p);
    KeysOfInsert(o, k, v, p);
  }

  lemma InsertKeys<V>(o: Entries<V>, k: string, v: V, p: nat)
    requires IsIndexKey(k) && p <= |o|
    ensures Keys(o[..p] + [(k, v)] + o[p..]) == Keys(o)[..p] + [k] + Keys(o)[p..]
    ensures NonIndexKeys(Keys(o[..p] + [(k, v)] + o[p..])) == NonIndexKeys(Keys(o))
  {
    KeysOfInsert(o, k, v, p);
    NonIndexKeysOfInsert(Keys(o), k, p);
  }

  lemma KeysOfInsert<V>(o: Entries<V>, k: string, v: V, p: nat)
    requires p <= |o|
    ensures Keys(o[..p] + [(k, v)] + o[p..]) == Keys(o)[..p] + [k] + Keys(o)[p..]
  {
    var ks := Keys(o);
    var r := o[..p] + [(k, v)] + o[p..];
    forall i | 0 <= i < |r| ensures Keys(r)[i] == (ks[..p] + [k] + ks[p..])[i] {
      if i < p {
        assert r[i] == o[i];
      } else if i > p {
        assert r[i] == o[i - 1];
      }
    }
  }

  lemma NonIndexKeysOfInsert(ks: seq<string>, k: string, p: nat)
    requires IsIndexKey(k) && p <= |ks|
    ensures NonIndexKeys(ks[..p] + [k] + ks[p..]) == NonIndexKeys(ks)
  {
    assert ks == ks[..p] + ks[p..];
    NonIndexKeysSkip(ks[..p], k, ks[p..]);
  }

  lemma NonIndexKeysSkip(a: seq<string>, k: string, b: seq<string>)
    requires IsIndexKey(k)
    ensures NonIndexKeys(a + [k] + b) == NonIndexKeys(a + b)
  {
    calc {
      NonIndexKeys(a + [k] + b);
      { NonIndexKeysConcat(a + [k], b); }
      NonIndexKeys(a + [k]) + NonIndexKeys(b);
      { NonIndexKeysConcat(a, [k]); NonIndexKeysSingle(k); }
      NonIndexKeys(a) + NonIndexKeys(b);
      { NonIndexKeysConcat(a, b); }
      NonIndexKeys(a + b);
    }
  }

  lemma NonIndexKeysSingle(k: string)
    ensures NonIndexKeys([k]) == if IsIndexKey(k) then [] else [k]
  {
    assert [k][1..] == [];
  }

  lemma InsertGet<V>(o: Entries<V>, k: string, v: V, p: nat)
    requires k !in Keys(o) && p <= |o|
    ensures Get(o[..p] + [(k, v)] + o[p..], k) == Some(v)
    ensures forall k' :: k' != k ==> Get(o[..p] + [(k, v)] + o[p..], k') == Get(o, k')
  {
    assert o == o[..p] + o[p..];
    assert Keys(o[..p]) == Keys(o)[..p];
    assert k !in Keys(o[..p]);
    GetThrough(o[..p], k, v, o[p..], k);
    forall k' | k' != k ensures Get(o[..p] + [(k, v)] + o[p..], k') == Get(o, k') {
      GetThrough(o[..p], k, v, o[p..], k');
      GetConcat(o[..p], o[p..], k');
    }
  }

  /** Inserting a new index key after exactly the smaller index keys keeps
      a key list in property order. */
  lemma InsertKeepsOrder(ks: seq<string>, k: string, p: nat)
    requires InPropertyOrder(ks) && k !in ks && IsIndexKey(k)
    requires p <= |ks|
    requires forall i :: 0 <= i < p ==> IndexBefore(ks[i], k)
    requires p < |ks| ==> !IndexBefore(ks[p], k)
    ensures InPropertyOrder(ks[..p] + [k] + ks[p..])
  {
    var r := ks[..p] + [k] + ks[p..];
    forall i, j | 0 <= i < j < |r|
      ensures r[i] != r[j]
      ensures IsIndexKey(r[j]) ==> IsIndexKey(r[i]) && KeyValue(r[i]) <= KeyValue(r[j])
    {
      if j < p {
        assert r[i] == ks[i] && r[j] == ks[j];
      } else if j == p {
        assert r[j] == k && r[i] == ks[i];
      } else if i < p {
        assert r[i] == ks[i] && r[j] == ks[j - 1];
      } else if i == p {
        assert r[j] == ks[j - 1] && r[i] == k;
        assert ks[j - 1] in ks;
        if IsIndexKey(ks[j - 1]) && j - 1 > p {
          assert IsIndexKey(ks[p]) && KeyValue(ks[p]) <= KeyValue(ks[j - 1]);
        }
      } else {
        assert r[i] == ks[i - 1] && r[j] == ks[j - 1];
      }
    }
  }

  /** Reading from a concatenation. */
  lemma {:induction false} GetConcat<V>(a: Entries<V>, b: Entries<V>, k: string)
    ensures Get(a + b, k) == if k in Keys(a) then Get(a, k) else Get(b, k)
    decreases |a|
  {
    if |a| == 0 {
      assert a + b == b;
    } else {
      assert Keys(a) == [a[0].0] + Keys(a[1..]);
      assert (a + b)[1..] == a[1..] + b;
      GetConcat(a[1..], b, k);
    }
  }

  lemma AppendFacts<V>(o: Entries<V>, k: string, v: V)
    requires k !in Keys(o) && !IsIndexKey(k)
    ensures var r := o + [(k, v)];
      && (WellOrdered(o) ==> WellOrdered(r))
      && Get(r, k) == Some(v)
      && (forall k' :: k' != k ==> Get(r, k') == Get(o, k'))
      && (forall k' :: k' in Keys(r) <==> k' in Keys(o) || k' == k)
      && NonIndexKeys(Keys(r)) == NonIndexKeys(Keys(o)) + [k]
  {
    var r := o + [(k, v)];
    assert Keys(r) == Keys(o) + [k];
    AppendGet(o, k, v);
    NonIndexKeysConcat(Keys(o), [k]);
    assert NonIndexKeys([k]) == [k];
    if WellOrdered(o) {
      AppendKeepsOrder(Keys(o), k);
    }
  }

  lemma AppendGet<V>(o: Entries<V>, k: string, v: V)
    requires k !in Keys(o)
    ensures Get(o + [(k, v)], k) == Some(v)
    ensures forall k' :: k' != k ==> Get(o + [(k, v)], k') == Get(o, k')
  {
    assert o + [(k, v)] == o + [(k, v)] + [];
    GetThrough(o, k, v, [], k);
    forall k' | k' != k ensures Get(o + [(k, v)], k') == Get(o, k') {
      GetThrough(o, k, v, [], k');
    }
  }

  /** Appending a new non-index key keeps a key list in property order. */
  lemma AppendKeepsOrder(ks: seq<string>, k: string)
    requires InPropertyOrder(ks) && k !in ks && !IsIndexKey(k)
    ensures InPropertyOrder(ks + [k])
  {
    var r := ks + [k];
    forall i, j | 0 <= i < j < |r|
      ensures r[i] != r[j]
      ensures IsIndexKey(r[j]) ==> IsIndexKey(r[i]) && KeyValue(r[i]) <= KeyValue(r[j])
    {
      if j == |ks| {
        assert r[i] == ks[i] && ks[i] in ks;
      } else {
        assert r[i] == ks[i] && r[j] == ks[j];
      }
    }
  }

  /** `o[keys[j]] = vals[j]` for j = 0, 1, ... in turn. */
  function PutAll<V(==)>(o: Entries<V>, keys: seq<string>, vals: seq<V>): Entries<V>
    requires |keys| == |vals|
  {
    if |keys| == 0 then o
    else Put(PutAll(o, keys[..|keys| - 1], vals[..|keys| - 1]), keys[|keys| - 1], vals[|keys| - 1])
  }

  /** Reading after one write. */
  lemma GetAfterPut<V>(o: Entries<V>, k: string, v: V, k': string)
    ensures Get(Put(o, k, v), k') == if k' == k then Some(v) else Get(o, k')
  {
  }

  /** The last of a series of writes. */
  lemma PutAllLast<V>(o: Entries<V>, keys: seq<string>, vals: seq<V>)
    requires |keys| == |vals| && |keys| > 0
    ensures var n := |keys| - 1;
      PutAll(o, keys, vals) == Put(PutAll(o, keys[..n], vals[..n]), keys[n], vals[n])
  {
  }

  /** Membership bookkeeping for one more write: the keys after it are the
      keys before it and `k`. */
  lemma KeysGrow(after: seq<string>, before: seq<string>, old0: seq<string>, ks: seq<string>, k: string)
    requires forall x :: x in after <==> x in before || x == k
    requires forall x :: x in before <==> x in old0 || x in ks
    ensures forall x :: x in after <==> x in old0 || x in ks + [k]
  {
    forall x ensures x in ks + [k] <==> x in ks || x == k {
    }
  }

  /** One more write adds its key to the keys written so far. */
  lemma PutKeysStep<V>(o: Entries<V>, keys: seq<string>, vals: seq<V>)
    requires |keys| == |vals| && |keys| > 0
    requires var n := |keys| - 1;
      forall x :: x in Keys(PutAll(o, keys[..n], vals[..n])) <==> x in Keys(o) || x in keys[..n]
    ensures forall x :: x in Keys(PutAll(o, keys, vals)) <==> x in Keys(o) || x in keys
  {
    var n := |keys| - 1;
    PutAllLastKeys(o, keys, vals);
    KeysGrow(Keys(PutAll(o, keys, vals)), Keys(PutAll(o, keys[..n], vals[..n])), Keys(o), keys[..n], keys[n]);
    assert keys[..n] + [keys[n]] == keys;
  }

  /** The last write of a series adds its key. */
  lemma PutAllLastKeys<V>(o: Entries<V>, keys: seq<string>, vals: seq<V>)
    requires |keys| == |vals| && |keys| > 0
    ensures var n := |keys| - 1;
      forall x :: x in Keys(PutAll(o, keys, vals)) <==> x in Keys(PutAll(o, keys[..n], vals[..n])) || x == keys[n]
  {
    PutAllLast(o, keys, vals);
  }

  /** After a series of writes the keys are the old keys and the written
      ones. */
  lemma {:induction false} PutAllKeys<V>(o: Entries<V>, keys: seq<string>, vals: seq<V>)
    requires |keys| == |vals|
    ensures forall k :: k in Keys(PutAll(o, keys, vals)) <==> k in Keys(o) || k in keys
    decreases |keys|
  {
    if |keys| > 0 {
      var n := |keys| - 1;
      PutAllKeys(o, keys[..n], vals[..n]);
      PutKeysStep(o, keys, vals);
    }
  }

  /** Each key holds the value of its last write. */
  lemma {:induction false} PutAllLastWins<V>(o: Entries<V>, keys: seq<string>, vals: seq<V>, j: nat)
    requires |keys| == |vals| && j < |keys|
    requires forall j' :: j < j' < |keys| ==> keys[j'] != keys[j]
    ensures Get(PutAll(o, keys, vals), keys[j]) == Some(vals[j])
    decreases |keys|
  {
    var n := |keys| - 1;
    var prev := PutAll(o, keys[..n], vals[..n]);
    PutAllLast(o, keys, vals);
    GetAfterPut(prev, keys[n], vals[n], keys[j]);
    if j < n {
      var ks := keys[..n];
      assert ks[j] == keys[j] && vals[..n][j] == vals[j];
      PutAllLastWins(o, ks, vals[..n], j);
    }
  }

  /** Keys that are never written read as before. */
  lemma {:induction false} PutAllUnwritten<V>(o: Entries<V>, keys: seq<string>, vals: seq<V>, k: string)
    requires |keys| == |vals| && k !in keys
    ensures Get(PutAll(o, keys, vals), k) == Get(o, k)
    decreases |keys|
  {
    if |keys| > 0 {
      var n := |keys| - 1;
      PutAllLast(o, keys, vals);
      assert keys[n] in keys;
      assert forall x :: x in keys[..n] ==> x in keys;
      PutAllUnwritten(o, keys[..n], vals[..n], k);
    }
  }

  /** A series of writes keeps the property order. */
  lemma {:induction false} PutAllOrder<V>(o: Entries<V>, keys: seq<string>, vals: seq<V>)
    requires |keys| == |vals| && WellOrdered(o)
    ensures WellOrdered(PutAll(o, keys, vals))
    decreases |keys|
  {
    if |keys| > 0 {
      var n := |keys| - 1;
      PutAllLast(o, keys, vals);
      PutAllOrder(o, keys[..n], vals[..n]);
      PutOrder(PutAll(o, keys[..n], vals[..n]), keys[n], vals[n]);
    }
  }

  /** A series of writes lists the non-index keys in order of first
      write: the old ones, then each new key the first time it is
      written. */
  lemma {:induction false} PutAllNonIndexOrder<V>(o: Entries<V>, keys: seq<string>, vals: seq<V>)
    requires |keys| == |vals|
    requires FirstSeen(NonIndexKeys(Keys(o))) == NonIndexKeys(Keys(o))
    ensures NonIndexKeys(Keys(PutAll(o, keys, vals))) == FirstSeen(NonIndexKeys(Keys(o) + keys))
    decreases |keys|
  {
    if |keys| == 0 {
      assert Keys(o) + keys == Keys(o);
    } else {
      var n := |keys| - 1;
      var a := Keys(o) + keys[..n];
      PutAllLast(o, keys, vals);
      PutAllNonIndexOrder(o, keys[..n], vals[..n]);
      PutAllKeys(o, keys[..n], vals[..n]);
      AppendLast(Keys(o), keys);
      var prev := PutAll(o, keys[..n], vals[..n]);
      PutOrder(prev, keys[n], vals[n]);
      assert keys[n] in Keys(prev) <==> keys[n] in a;
      NonIndexSnoc(a, keys[n], NonIndexKeys(Keys(prev)), NonIndexKeys(Keys(Put(prev, keys[n], vals[n]))));
    }
  }

  /** Splitting off the last element of the second part of a join. */
  lemma AppendLast(p: seq<string>, q: seq<string>)
    requires |q| > 0
    ensures p + q == (p + q[..|q| - 1]) + [q[|q| - 1]]
  {
    assert q == q[..|q| - 1] + [q[|q| - 1]];
  }

  /** One more key in first-seen order of the non-index keys: `after`
      is `before` with `k` appended exactly when `k` is a new non-index
      key. */
  lemma NonIndexSnoc(a: seq<string>, k: string, before: seq<string>, after: seq<string>)
    requires before == FirstSeen(NonIndexKeys(a))
    requires after == if k in a || IsIndexKey(k) then before else before + [k]
    ensures after == FirstSeen(NonIndexKeys(a + [k]))
  {
    if IsIndexKey(k) {
      NonIndexSnocIndex(a, k);
    } else {
      NonIndexSnocName(a, k);
    }
  }

  /** An index key leaves the non-index keys as they were. */
  lemma NonIndexSnocIndex(a: seq<string>, k: string)
    requires IsIndexKey(k)
    ensures NonIndexKeys(a + [k]) == NonIndexKeys(a)
  {
    NonIndexKeysConcat(a, [k]);
    NonIndexKeysSingle(k);
    assert NonIndexKeys(a) + [] == NonIndexKeys(a);
  }

  /** Any other key is added to the first-seen list unless already
      present. */
  lemma NonIndexSnocName(a: seq<string>, k: string)
    requires !IsIndexKey(k)
    ensures FirstSeen(NonIndexKeys(a + [k])) ==
              if k in a then FirstSeen(NonIndexKeys(a)) else FirstSeen(NonIndexKeys(a)) + [k]
  {
    NonIndexKeysConcat(a, [k]);
    NonIndexKeysSingle(k);
    FirstSeenSnoc(NonIndexKeys(a), k);
  }
}
