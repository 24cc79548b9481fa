/** Decoded PHP values as the export layer sees them: scalars and ordered
    arrays, PHP's `empty`, lookups that yield null through missing keys and
    non-arrays, `array_merge` on string-keyed arrays, and the exceptions
    and errors PHP code raises. */
module PhpValue {
  import opened Wrappers
  import opened Text
  import opened Seqs

  /** An array key: PHP keeps integer and string keys apart. Keys are
      taken in PHP's canonical form: a decimal integer string such as
      "0" is stored by PHP as the integer key, so it appears here as
      `IntKey(0)`, never as `StrKey("0")`. */
  datatype Key = IntKey(i: int) | StrKey(s: string)

  /** A PHP value decoded from the report payload. */
  datatype Php =
    | PNull
    | PBool(b: bool)
    | PInt(i: int)
    | PFloat(f: real)
    | PStr(s: string)
    | PArr(entries: seq<(Key, Php)>)

  /** PHP's `empty`: null, false, 0, 0.0, "", "0" and the empty array. */
  predicate Empty(v: Php) {
    v == PNull || v == PBool(false) || v == PInt(0) || v == PFloat(0.0)
    || v == PStr("") || v == PStr("0") || v == PArr([])
  }

  /** The keys are pairwise different, as in every PHP array. */
  predicate DistinctKeys<K(==), V>(entries: seq<(K, V)>) {
    forall i, j :: 0 <= i < j < |entries| ==> entries[i].0 != entries[j].0
  }

  /** The value stored under `k`, if any. */
  function Lookup<K(==), V>(entries: seq<(K, V)>, k: K): Option<V>
    decreases |entries|
  {
    if |entries| == 0 then None
    else if entries[0].0 == k then Some(entries[0].1)
    else Lookup(entries[1..], k)
  }

  /** A key is found exactly when it is one of the keys. */
  lemma {:induction false} LookupFound<K, V>(entries: seq<(K, V)>, k: K)
    ensures Lookup(entries, k).Some? <==> k in Keys(entries)
    decreases |entries|
  {
    if |entries| > 0 {
      LookupFound(entries[1..], k);
      assert Keys(entries) == [entries[0].0] + Keys(entries[1..]);
    }
  }

  /** In an array with distinct keys, the entry at position i is what its
      key looks up. */
  lemma {:induction false} LookupAt<K, V>(entries: seq<(K, V)>, i: nat)
    requires DistinctKeys(entries) && i < |entries|
    ensures Lookup(entries, entries[i].0) == Some(entries[i].1)
    decreases i
  {
    if i > 0 {
      assert DistinctKeys(entries[1..]);
      LookupAt(entries[1..], i - 1);
    }
  }

  /** Looking up in an array with one more entry at the end. */
  lemma {:induction false} LookupSnoc<K, V>(init: seq<(K, V)>, x: (K, V), k: K)
    ensures Lookup(init + [x], k) ==
              if Lookup(init, k).Some? then Lookup(init, k)
              else if x.0 == k then Some(x.1) else None
    decreases |init|
  {
    if |init| > 0 {
      assert (init + [x])[1..] == init[1..] + [x];
      LookupSnoc(init[1..], x, k);
    }
  }

  /** `$v[$k]` where a missing key, or a value that is not an array,
      yields null (the reading `empty`, `isset` and `??` see). */
  function Index(v: Php, k: Key): (r: Php)
    ensures !v.PArr? ==> r == PNull
    ensures v.PArr? && k !in Keys(v.entries) ==> r == PNull
  {
    match v
    case PArr(entries) => LookupFound(entries, k); Lookup(entries, k).GetOr(PNull)
    case _ => PNull
  }

  /** `$v['a']['b']…` along string keys. */
  function At(v: Php, path: seq<string>): Php
    decreases |path|
  {
    if |path| == 0 then v else At(Index(v, StrKey(path[0])), path[1..])
  }

  /** `$v ?? $default`. */
  function Coalesce(v: Php, default: Php): (r: Php)
    ensures r.PNull? ==> default.PNull?
    ensures !v.PNull? ==> r == v
  {
    if v.PNull? then default else v
  }

  /** PHP's conversion of a scalar to text; floats and arrays are not
      converted by this model. */
  function StrVal(v: Php): (r: Option<string>)
    ensures r.None? <==> v.PFloat? || v.PArr?
    ensures v.PStr? ==> r == Some(v.s)
  {
    match v
    case PNull => Some("")
    case PBool(b) => Some(if b then "1" else "")
    case PInt(i) => Some(IntToString(i))
    case PStr(s) => Some(s)
    case _ => None
  }

  /** `$a[$k] = $v` on an array: an existing key keeps its position and
      gets the new value, a new key is appended. */
  function ArraySet<K(==), V>(entries: seq<(K, V)>, k: K, v: V): seq<(K, V)>
    decreases |entries|
  {
    if |entries| == 0 then [(k, v)]
    else if entries[0].0 == k then [(k, v)] + entries[1..]
    else [entries[0]] + ArraySet(entries[1..], k, v)
  }

  /** After setting, `k` has the new value and every other key its old
      one. */
  lemma {:induction false} SetLookup<K, V>(entries: seq<(K, V)>, k: K, v: V, k': K)
    ensures Lookup(ArraySet(entries, k, v), k') == if k' == k then Some(v) else Lookup(entries, k')
    decreases |entries|
  {
    if |entries| > 0 && entries[0].0 != k {
      SetLookup(entries[1..], k, v, k');
    }
  }

  /** The keys of an array with one entry in front. */
  lemma KeysCons<K, V>(e: (K, V), rest: seq<(K, V)>)
    ensures Keys([e] + rest) == [e.0] + Keys(rest)
  {
  }

  /** Setting keeps the keys, appending `k` when it is new. */
  lemma {:induction false} SetKeys<K, V>(entries: seq<(K, V)>, k: K, v: V)
    ensures k in Keys(entries) ==> Keys(ArraySet(entries, k, v)) == Keys(entries)
    ensures k !in Keys(entries) ==> Keys(ArraySet(entries, k, v)) == Keys(entries) + [k]
    decreases |entries|
  {
    if |entries| > 0 {
      var e, tail := entries[0], entries[1..];
      assert entries == [e] + tail;
      KeysCons(e, tail);
      if e.0 != k {
        SetKeys(tail, k, v);
        KeysCons(e, ArraySet(tail, k, v));
        assert k in Keys(entries) <==> k in Keys(tail);
        if k !in Keys(tail) {
          assert [e.0] + (Keys(tail) + [k]) == ([e.0] + Keys(tail)) + [k];
        }
      } else {
        KeysCons((k, v), tail);
      }
    }
  }

  /** `array_merge($a, $b)` on string-keyed arrays: $b's values win, keys
      of $a keep their positions and keys only in $b follow in $b's
      order. */
  function ArrayMerge<V>(a: seq<(string, V)>, b: seq<(string, V)>): seq<(string, V)>
    decreases |b|
  {
    if |b| == 0 then a else ArraySet(ArrayMerge(a, b[..|b| - 1]), b[|b| - 1].0, b[|b| - 1].1)
  }

  /** After the merge, a key of $b has $b's value and every other key has
      $a's. */
  lemma {:induction false} MergeLookup<V>(a: seq<(string, V)>, b: seq<(string, V)>, k: string)
    requires DistinctKeys(b)
    ensures Lookup(b, k).Some? ==> Lookup(ArrayMerge(a, b), k) == Lookup(b, k)
    ensures Lookup(b, k).None? ==> Lookup(ArrayMerge(a, b), k) == Lookup(a, k)
    decreases |b|
  {
    if |b| > 0 {
      var init := b[..|b| - 1];
      var last := b[|b| - 1];
      assert b == init + [last];
      MergeLookup(a, init, k);
      LookupSnoc(init, last, k);
      SetLookup(ArrayMerge(a, init), last.0, last.1, k);
      LookupFound(init, k);
    }
  }

  /** The merged keys are those of $a and $b; $a's keys keep their
      positions. */
  lemma {:induction false} MergeKeys<V>(a: seq<(string, V)>, b: seq<(string, V)>, k: string)
    ensures k in Keys(ArrayMerge(a, b)) <==> k in Keys(a) || k in Keys(b)
    ensures |ArrayMerge(a, b)| >= |a| && Keys(ArrayMerge(a, b))[..|a|] == Keys(a)
    decreases |b|
  {
    if |b| > 0 {
      var init := b[..|b| - 1];
      var last := b[|b| - 1];
      assert Keys(b) == Keys(init) + [last.0];
      MergeKeys(a, init, k);
      var m := ArrayMerge(a, init);
      SetKeys(m, last.0, last.1);
      if last.0 !in Keys(m) {
        assert (Keys(m) + [last.0])[..|a|] == Keys(m)[..|a|];
      }
    }
  }

  /** The kinds of throwables the export layer raises or lets through.
      Only the exception kinds are caught by `catch (Exception $e)`; PHP
      errors (TypeError, DivisionByZeroError) pass such handlers. */
  datatype ThrowableKind =
    | WordException         // PhpOffice\PhpWord\Exception\Exception
    | SpreadsheetException  // PhpOffice\PhpSpreadsheet\Exception
    | InvalidArgument       // InvalidArgumentException
    | GenericException      // Exception
    | TypeError
    | DivisionByZeroError

  /** A thrown value: its kind and message. */
  datatype Throwable = Throwable(kind: ThrowableKind, message: string)

  /** Caught by `catch (Exception $e)`. */
  predicate IsException(k: ThrowableKind) {
    !k.TypeError? && !k.DivisionByZeroError?
  }
}
