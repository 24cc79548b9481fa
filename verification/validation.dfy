/** `hasInvalidNulls`: whether a parsed report payload still holds a null
    or a '0.00' string anywhere outside its top-level `finalResults`
    member. */
module Validation {
  import opened Wrappers
  import opened Json

  /** One step of the path the recursive check carries: an array index or
      an object key. */
  datatype Seg = Index(i: nat) | Key(k: string)

  /** The name of the one top-level member that is not inspected. */
  const FinalResultsKey: string := "finalResults"

  /** A leaf value the check rejects. */
  predicate InvalidLeaf(j: Json) {
    j.JNull? || j == JStr("0.00")
  }

  /** The path of the top-level `finalResults` member. */
  predicate Skipped(path: seq<Seg>) {
    |path| == 1 && path[0] == Key(FinalResultsKey)
  }

  /** `checkForInvalidValues(obj, path)`. Below the top level nothing is
      skipped, so there it finds exactly the reachable invalid leaves. */
  predicate Check(j: Json, path: seq<Seg>)
    ensures |path| >= 1 && !Skipped(path) ==> (Check(j, path) <==> HasInvalidLeaf(j))
    decreases j
  {
    if Skipped(path) then false
    else match j
      case JArr(items) =>
        HasInvalidLeafArr(items);
        exists i :: 0 <= i < |items| && Check(items[i], path + [Index(i)])
      case JObj(fields) =>
        HasInvalidLeafObj(fields);
        exists i :: 0 <= i < |fields| && Check(fields[i].1, path + [Key(fields[i].0)])
      case _ =>
        HasInvalidLeafLeaf(j);
        InvalidLeaf(j)
  }

  /** `hasInvalidNulls` on the parsed payload: true exactly when an
      invalid leaf is reachable without entering the top-level
      `finalResults` member. */
  predicate HasInvalidNulls(doc: Json)
    ensures HasInvalidNulls(doc) <==> InvalidOutsideFinal(doc)
  {
    if doc.JArr? then TopArr(doc.items); Check(doc, [])
    else if doc.JObj? then TopObj(doc.fields); Check(doc, [])
    else TopLeaf(doc); Check(doc, [])
  }

  /** A position inside a value: the i-th element of an array or the i-th
      member of an object. */
  datatype Step = Elem(i: nat) | Member(i: nat)

  /** The value found by following `p` from `j`, if the path exists. */
  function At(j: Json, p: seq<Step>): Option<Json>
    decreases |p|
  {
    if |p| == 0 then Some(j)
    else match p[0]
      case Elem(i) => if j.JArr? && i < |j.items| then At(j.items[i], p[1..]) else None
      case Member(i) => if j.JObj? && i < |j.fields| then At(j.fields[i].1, p[1..]) else None
  }

  /** `p` leads to an invalid leaf. */
  predicate InvalidAt(j: Json, p: seq<Step>) {
    At(j, p).Some? && InvalidLeaf(At(j, p).value)
  }

  /** Some invalid leaf is reachable. */
  ghost predicate HasInvalidLeaf(j: Json) {
    exists p :: InvalidAt(j, p)
  }

  /** `p` enters the top-level `finalResults` member of `doc`. */
  predicate UnderFinalResults(doc: Json, p: seq<Step>) {
    |p| > 0 && p[0].Member? && doc.JObj? && p[0].i < |doc.fields|
    && doc.fields[p[0].i].0 == FinalResultsKey
  }

  /** The reference meaning: an invalid leaf reachable by a path that does
      not enter the top-level `finalResults`. */
  ghost predicate InvalidOutsideFinal(doc: Json) {
    exists p :: InvalidAt(doc, p) && !UnderFinalResults(doc, p)
  }

  /** Following a path into the i-th element. */
  lemma AtElem(items: seq<Json>, i: nat, q: seq<Step>)
    requires i < |items|
    ensures At(JArr(items), [Elem(i)] + q) == At(items[i], q)
  {
    assert ([Elem(i)] + q)[1..] == q;
  }

  /** Following a path into the i-th member. */
  lemma AtMember(fields: seq<(string, Json)>, i: nat, q: seq<Step>)
    requires i < |fields|
    ensures At(JObj(fields), [Member(i)] + q) == At(fields[i].1, q)
  {
    assert ([Member(i)] + q)[1..] == q;
  }

  /** A leaf is reachable only by the empty path. */
  lemma AtLeaf(j: Json, p: seq<Step>)
    requires !j.JArr? && !j.JObj?
    ensures At(j, p).Some? ==> p == []
  {
  }

  /** An invalid leaf inside an array is one inside one of its elements. */
  lemma HasInvalidLeafArr(items: seq<Json>)
    ensures HasInvalidLeaf(JArr(items)) <==> exists i :: 0 <= i < |items| && HasInvalidLeaf(items[i])
  {
    if HasInvalidLeaf(JArr(items)) {
      var p: seq<Step> :| InvalidAt(JArr(items), p);
      var i := p[0].i;
      assert [Elem(i)] + p[1..] == p;
      AtElem(items, i, p[1..]);
      assert InvalidAt(items[i], p[1..]);
    }
    if exists i :: 0 <= i < |items| && HasInvalidLeaf(items[i]) {
      var i :| 0 <= i < |items| && HasInvalidLeaf(items[i]);
      var q: seq<Step> :| InvalidAt(items[i], q);
      AtElem(items, i, q);
      assert InvalidAt(JArr(items), [Elem(i)] + q);
    }
  }

  /** An invalid leaf inside an object is one inside one of its members. */
  lemma HasInvalidLeafObj(fields: seq<(string, Json)>)
    ensures HasInvalidLeaf(JObj(fields)) <==> exists i :: 0 <= i < |fields| && HasInvalidLeaf(fields[i].1)
  {
    if HasInvalidLeaf(JObj(fields)) {
      var p: seq<Step> :| InvalidAt(JObj(fields), p);
      var i := p[0].i;
      assert [Member(i)] + p[1..] == p;
      AtMember(fields, i, p[1..]);
      assert InvalidAt(fields[i].1, p[1..]);
    }
    if exists i :: 0 <= i < |fields| && HasInvalidLeaf(fields[i].1) {
      var i :| 0 <= i < |fields| && HasInvalidLeaf(fields[i].1);
      var q: seq<Step> :| InvalidAt(fields[i].1, q);
      AtMember(fields, i, q);
      assert InvalidAt(JObj(fields), [Member(i)] + q);
    }
  }

  /** A leaf holds an invalid leaf exactly when it is one. */
  lemma HasInvalidLeafLeaf(j: Json)
    requires !j.JArr? && !j.JObj?
    ensures HasInvalidLeaf(j) <==> InvalidLeaf(j)
  {
    if HasInvalidLeaf(j) {
      var p: seq<Step> :| InvalidAt(j, p);
      AtLeaf(j, p);
    }
    if InvalidLeaf(j) {
      assert InvalidAt(j, []);
    }
  }

  /** A top-level array: some element holds an invalid leaf. */
  lemma TopArr(items: seq<Json>)
    ensures Check(JArr(items), []) <==> InvalidOutsideFinal(JArr(items))
  {
    var doc := JArr(items);
    forall i | 0 <= i < |items| ensures Check(items[i], [] + [Index(i)]) <==> HasInvalidLeaf(items[i]) {
      assert [] + [Index(i)] == [Index(i)];
    }
    HasInvalidLeafArr(items);
    if Check(doc, []) {
      var i :| 0 <= i < |items| && Check(items[i], [] + [Index(i)]);
      var q: seq<Step> :| InvalidAt(items[i], q);
      AtElem(items, i, q);
      assert InvalidAt(doc, [Elem(i)] + q) && !UnderFinalResults(doc, [Elem(i)] + q);
    }
    if InvalidOutsideFinal(doc) {
      var i :| 0 <= i < |items| && HasInvalidLeaf(items[i]);
      assert Check(items[i], [] + [Index(i)]);
    }
  }

  /** A top-level object: some member other than `finalResults` holds an
      invalid leaf. */
  lemma TopObj(fields: seq<(string, Json)>)
    ensures Check(JObj(fields), []) <==> InvalidOutsideFinal(JObj(fields))
  {
    var doc := JObj(fields);
    forall i | 0 <= i < |fields|
      ensures Check(fields[i].1, [Key(fields[i].0)]) <==> fields[i].0 != FinalResultsKey && HasInvalidLeaf(fields[i].1)
    {
      if fields[i].0 != FinalResultsKey {
        assert !Skipped([Key(fields[i].0)]);
      }
    }
    assert Check(doc, []) <==> exists i :: 0 <= i < |fields| && Check(fields[i].1, [] + [Key(fields[i].0)]);
    if Check(doc, []) {
      var i :| 0 <= i < |fields| && Check(fields[i].1, [] + [Key(fields[i].0)]);
      assert [] + [Key(fields[i].0)] == [Key(fields[i].0)];
      var q: seq<Step> :| InvalidAt(fields[i].1, q);
      AtMember(fields, i, q);
      assert InvalidAt(doc, [Member(i)] + q) && !UnderFinalResults(doc, [Member(i)] + q);
    }
    if InvalidOutsideFinal(doc) {
      var p: seq<Step> :| InvalidAt(doc, p) && !UnderFinalResults(doc, p);
      var i := p[0].i;
      assert [Member(i)] + p[1..] == p;
      AtMember(fields, i, p[1..]);
      assert InvalidAt(fields[i].1, p[1..]);
      assert [] + [Key(fields[i].0)] == [Key(fields[i].0)];
      assert Check(fields[i].1, [] + [Key(fields[i].0)]);
    }
  }

  /** A top-level leaf is invalid exactly when it is itself a null or
      '0.00'. */
  lemma TopLeaf(doc: Json)
    requires !doc.JArr? && !doc.JObj?
    ensures Check(doc, []) <==> InvalidOutsideFinal(doc)
  {
    HasInvalidLeafLeaf(doc);
    if InvalidOutsideFinal(doc) {
      var p: seq<Step> :| InvalidAt(doc, p) && !UnderFinalResults(doc, p);
      AtLeaf(doc, p);
    }
    if InvalidLeaf(doc) {
      assert InvalidAt(doc, []) && !UnderFinalResults(doc, []);
    }
  }

  /** A payload whose only member is `finalResults` is never rejected,
      whatever that member holds. */
  lemma FinalResultsIgnored(v: Json)
    ensures !HasInvalidNulls(JObj([(FinalResultsKey, v)]))
  {
    var fields := [(FinalResultsKey, v)];
    forall i | 0 <= i < |fields| ensures !Check(fields[i].1, [] + [Key(fields[i].0)]) {
      assert Skipped([] + [Key(fields[i].0)]);
    }
  }

  /** A `finalResults` member below the top level is inspected like any
      other: a null inside it is found. */
  lemma NestedFinalResultsChecked()
    ensures HasInvalidNulls(JObj([("data", JObj([(FinalResultsKey, JNull)]))]))
  {
    var inner := JObj([(FinalResultsKey, JNull)]);
    var outer := JObj([("data", inner)]);
    var p1: seq<Seg> := [] + [Key(outer.fields[0].0)];
    assert p1 == [Key("data")];
    var p2 := p1 + [Key(inner.fields[0].0)];
    assert |p2| == 2;
    assert Check(inner.fields[0].1, p2);
    assert Check(outer.fields[0].1, p1);
  }

  /** Empty containers hold no invalid leaf and a bare null is one; of the
      leaves only null and the exact string '0.00' are rejected, so the
      number 0 and the strings '0' and '0.0' pass. */
  lemma LeafExamples()
    ensures !HasInvalidNulls(JArr([])) && !HasInvalidNulls(JObj([]))
    ensures HasInvalidNulls(JNull) && HasInvalidNulls(JStr("0.00"))
    ensures !HasInvalidNulls(JNum(0.0)) && !HasInvalidNulls(JStr("0")) && !HasInvalidNulls(JStr("0.0"))
  {
  }
}
