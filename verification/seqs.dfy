/** Helpers on sequences of strings: first-seen de-duplication (the
    iteration order of a JavaScript `Set` filled by `add`) and flattening. */
module Seqs {

  /** The keys of a list of (key, value) entries, in order: the key order
      of a PHP array or of a JavaScript object. */
  function Keys<K, V>(entries: seq<(K, V)>): (ks: seq<K>)
    ensures |ks| == |entries|
    ensures forall i :: 0 <= i < |entries| ==> ks[i] == entries[i].0
  {
    seq(|entries|, i requires 0 <= i < |entries| => entries[i].0)
  }

  /** The distinct elements of `s` in order of first occurrence, as
      `Array.from(new Set(s))` lists them. */
  function FirstSeen(s: seq<string>): (r: seq<string>)
    ensures forall x :: x in r <==> x in s
    ensures forall i, j :: 0 <= i < j < |r| ==> r[i] != r[j]
    ensures |r| <= |s|
    ensures |r| == 0 <==> |s| == 0
  {
    if |s| == 0 then []
    else
      var prev := FirstSeen(s[..|s| - 1]);
      assert forall x :: x in s <==> x in s[..|s| - 1] || x == s[|s| - 1] by {
        assert s == s[..|s| - 1] + [s[|s| - 1]];
      }
      if s[|s| - 1] in prev then prev else prev + [s[|s| - 1]]
  }

  /** The elements of a sequence of sequences, one after the other. */
  function Flatten(ss: seq<seq<string>>): (r: seq<string>)
    ensures forall x :: x in r <==> exists i :: 0 <= i < |ss| && x in ss[i]
    ensures |r| == 0 <==> forall i :: 0 <= i < |ss| ==> |ss[i]| == 0
  {
    if |ss| == 0 then []
    else
      var init := ss[..|ss| - 1];
      var r := Flatten(init) + ss[|ss| - 1];
      assert forall x :: x in r <==> exists i :: 0 <= i < |ss| && x in ss[i] by {
        forall x | x in r ensures exists i :: 0 <= i < |ss| && x in ss[i] {
          if x in Flatten(init) {
            var i :| 0 <= i < |init| && x in init[i];
            assert ss[i] == init[i];
          }
        }
        forall x, i | 0 <= i < |ss| && x in ss[i] ensures x in r {
          if i < |ss| - 1 {
            assert init[i] == ss[i];
          }
        }
      }
      assert (forall i :: 0 <= i < |ss| ==> |ss[i]| == 0) <==>
             (forall i :: 0 <= i < |init| ==> |init[i]| == 0) && |ss[|ss| - 1]| == 0 by {
        forall i | 0 <= i < |init| ensures init[i] == ss[i] {
        }
      }
      r
  }

  /** Adding one element to the end of the input adds it to the end of the
      output unless it was seen before. */
  lemma FirstSeenSnoc(s: seq<string>, x: string)
    ensures FirstSeen(s + [x]) == if x in s then FirstSeen(s) else FirstSeen(s) + [x]
  {
    assert (s + [x])[..|s|] == s;
  }

  /** The position of the first occurrence of `x` in `s`. */
  function IndexOf(s: seq<string>, x: string): (k: nat)
    requires x in s
    ensures k < |s| && s[k] == x
    ensures forall j :: 0 <= j < k ==> s[j] != x
  {
    if s[0] == x then 0 else 1 + IndexOf(s[1..], x)
  }

  /** Appending leaves the first occurrence of an element already present
      where it was. */
  lemma IndexOfInPrefix(p: seq<string>, q: seq<string>, x: string)
    requires x in p
    ensures IndexOf(p + q, x) == IndexOf(p, x)
  {
    var k := IndexOf(p, x);
    assert (p + q)[k] == x;
    forall j | 0 <= j < k ensures (p + q)[j] != x {
      assert (p + q)[j] == p[j];
    }
  }

  /** The elements of `r`, all in `s`, stand in the order of their first
      occurrences in `s`. */
  predicate OrderedByFirst(s: seq<string>, r: seq<string>)
    requires forall x :: x in r ==> x in s
  {
    forall i, j :: 0 <= i < |r| && 0 <= j < |r| ==> (i < j <==> IndexOf(s, r[i]) < IndexOf(s, r[j]))
  }

  /** `FirstSeen` lists the distinct elements by their first occurrence:
      an element comes before another exactly when it first occurs
      earlier. */
  lemma {:induction false} FirstSeenOrder(s: seq<string>)
    ensures OrderedByFirst(s, FirstSeen(s))
    decreases |s|
  {
    if |s| > 0 {
      var p, x := s[..|s| - 1], s[|s| - 1];
      assert s == p + [x];
      FirstSeenOrder(p);
      FirstSeenSnoc(p, x);
      if x in p {
        OrderedByFirstExtend(p, [x], FirstSeen(p));
      } else {
        OrderedByFirstSnoc(p, x, FirstSeen(p));
      }
    }
  }

  /** Appending to `s` keeps the order of elements already in it. */
  lemma OrderedByFirstExtend(s: seq<string>, q: seq<string>, r: seq<string>)
    requires forall y :: y in r ==> y in s
    requires OrderedByFirst(s, r)
    ensures forall y :: y in r ==> y in s + q
    ensures OrderedByFirst(s + q, r)
  {
    forall y | y in r ensures IndexOf(s + q, y) == IndexOf(s, y) {
      IndexOfInPrefix(s, q, y);
    }
  }

  /** A new element goes after every element already listed. */
  lemma OrderedByFirstSnoc(s: seq<string>, x: string, r: seq<string>)
    requires forall y :: y in r ==> y in s
    requires OrderedByFirst(s, r) && x !in s
    ensures forall y :: y in r + [x] ==> y in s + [x]
    ensures OrderedByFirst(s + [x], r + [x])
  {
    var t, r' := s + [x], r + [x];
    assert IndexOf(t, x) == |s| by {
      forall j | 0 <= j < |s| ensures t[j] != x {
        assert t[j] == s[j];
      }
    }
    forall i | 0 <= i < |r| ensures r'[i] == r[i] && IndexOf(t, r'[i]) == IndexOf(s, r[i]) < |s| {
      assert r[i] in s;
      IndexOfInPrefix(s, [x], r[i]);
    }
    forall i, j | 0 <= i < |r'| && 0 <= j < |r'|
      ensures i < j <==> IndexOf(t, r'[i]) < IndexOf(t, r'[j])
    {
      if i < |r| && j < |r| {
        assert IndexOf(s, r[i]) < IndexOf(s, r[j]) <==> i < j;
      }
    }
  }
}
