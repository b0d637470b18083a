/** The MongoDB collection operations kings_server/views.py relies on, over an in-memory
    sequence of documents in insertion order: `find_one`, `delete_one`, `update_one` with
    `$set`, and `find(filter).sort('timestamp')` read through `to_list(length=100)`. */
module Collections {
  import opened Wrappers
  import opened Schema

  /** An opaque document id (an ObjectId). */
  type Id = nat

  /** A stored document: its `_id` and its other fields. */
  datatype Document = Document(id: Id, fields: map<string, Value>)

  /** How many documents `to_list(length=100)` returns at most. */
  const Limit: nat := 100

  predicate IdsUnique(docs: seq<Document>) {
    forall i, j :: 0 <= i < j < |docs| ==> docs[i].id != docs[j].id
  }

  /** The field `key` of `d` holds `v` (a Mongo equality filter `{key: v}` on scalar values). */
  predicate HasField(d: Document, key: string, v: Value) {
    key in d.fields && d.fields[key] == v
  }

  /** No two documents hold the same "vin". */
  predicate VinsUnique(docs: seq<Document>) {
    forall i, j :: 0 <= i < j < |docs| && "vin" in docs[i].fields && "vin" in docs[j].fields ==>
      docs[i].fields["vin"] != docs[j].fields["vin"]
  }

  /** `find_one({'vin': v})`: the first document whose "vin" is `v`. */
  function FindByVin(docs: seq<Document>, v: Value): (r: Option<Document>)
    ensures r.None? <==> forall i :: 0 <= i < |docs| ==> !HasField(docs[i], "vin", v)
    ensures r.Some? ==> r.value in docs && HasField(r.value, "vin", v)
  {
    if docs == [] then None
    else if HasField(docs[0], "vin", v) then Some(docs[0])
    else FindByVin(docs[1..], v)
  }

  /** The position of the first document with id `id`. */
  function IndexOf(docs: seq<Document>, id: Id): (r: Option<nat>)
    ensures r.None? <==> forall i :: 0 <= i < |docs| ==> docs[i].id != id
    ensures r.Some? ==> r.value < |docs| && docs[r.value].id == id
    ensures r.Some? ==> forall i :: 0 <= i < r.value ==> docs[i].id != id
  {
    if docs == [] then None
    else if docs[0].id == id then Some(0)
    else
      var k := IndexOf(docs[1..], id);
      if k.None? then None else Some(k.value + 1)
  }

  /** `find_one({'_id': id})`. */
  function FindById(docs: seq<Document>, id: Id): (r: Option<Document>)
    ensures r.None? <==> forall d :: d in docs ==> d.id != id
    ensures r.Some? ==> r.value in docs && r.value.id == id
    ensures IdsUnique(docs) ==> forall d :: d in docs && d.id == id ==> r == Some(d)
  {
    var k := IndexOf(docs, id);
    if k.None? then None else Some(docs[k.value])
  }

  /** `delete_one({'_id': id})`: drop the first document with that id, keep the others in order. */
  function DeleteOne(docs: seq<Document>, id: Id): (r: seq<Document>)
    ensures IndexOf(docs, id).None? ==> r == docs
    ensures IndexOf(docs, id).Some? ==>
      var k := IndexOf(docs, id).value; r == docs[..k] + docs[k + 1..]
  {
    if docs == [] then []
    else if docs[0].id == id then docs[1..]
    else [docs[0]] + DeleteOne(docs[1..], id)
  }

  /** The `$set` of `data` on one document: every key of `data` takes its posted value,
      every other field keeps its own. */
  function SetFields(d: Document, data: map<string, Value>): (r: Document)
    ensures r.id == d.id && r.fields.Keys == d.fields.Keys + data.Keys
    ensures forall key :: key in data ==> r.fields[key] == data[key]
    ensures forall key :: key in d.fields && key !in data ==> r.fields[key] == d.fields[key]
  {
    Document(d.id, d.fields + data)
  }

  /** `update_one({'_id': id}, {'$set': data})`: change the first document with that id and
      nothing else. */
  function UpdateOne(docs: seq<Document>, id: Id, data: map<string, Value>): (r: seq<Document>)
    ensures |r| == |docs|
    ensures IndexOf(docs, id).None? ==> r == docs
    ensures IndexOf(docs, id).Some? ==>
      var k := IndexOf(docs, id).value;
      r[k] == SetFields(docs[k], data) && forall i :: 0 <= i < |docs| && i != k ==> r[i] == docs[i]
  {
    if docs == [] then []
    else if docs[0].id == id then [SetFields(docs[0], data)] + docs[1..]
    else [docs[0]] + UpdateOne(docs[1..], id, data)
  }

  /** The sort key of `sort('timestamp')`. A date sorts by its value; a document whose
      "timestamp" is missing or not a date sorts before every date, as in BSON order. */
  function Key(d: Document): int {
    if "timestamp" in d.fields && d.fields["timestamp"].Time? then d.fields["timestamp"].t else -1
  }

  predicate Sorted(docs: seq<Document>) {
    forall i, j :: 0 <= i < j < |docs| ==> Key(docs[i]) <= Key(docs[j])
  }

  lemma ConsSorted(x: Document, s: seq<Document>)
    requires Sorted(s) && forall y | y in s :: Key(x) <= Key(y)
    ensures Sorted([x] + s)
  {
    var r := [x] + s;
    forall i, j | 0 <= i < j < |r| ensures Key(r[i]) <= Key(r[j]) {
      assert r[j] == s[j - 1];
      if i > 0 { assert r[i] == s[i - 1]; }
    }
  }

  function Insert(d: Document, docs: seq<Document>): (r: seq<Document>)
    requires Sorted(docs)
    ensures Sorted(r) && multiset(r) == multiset(docs) + multiset{d}
  {
    if docs == [] || Key(d) <= Key(docs[0]) then
      ConsSorted(d, docs);
      [d] + docs
    else
      var rest := Insert(d, docs[1..]);
      assert docs == [docs[0]] + docs[1..];
      forall x | x in rest ensures Key(docs[0]) <= Key(x) {
        assert x in multiset(rest);
        if x != d { assert x in multiset(docs[1..]); }
      }
      ConsSorted(docs[0], rest);
      [docs[0]] + rest
  }

  /** The documents ordered by timestamp, ties in insertion order. */
  function SortByTime(docs: seq<Document>): (r: seq<Document>)
    ensures Sorted(r) && multiset(r) == multiset(docs)
  {
    if docs == [] then []
    else
      assert docs == [docs[0]] + docs[1..];
      Insert(docs[0], SortByTime(docs[1..]))
  }

  lemma PrefixMultiset(s: seq<Document>, n: nat)
    requires n <= |s|
    ensures multiset(s[..n]) <= multiset(s)
    ensures multiset(s) - multiset(s[..n]) == multiset(s[n..])
  {
    assert s == s[..n] + s[n..];
    assert multiset(s) == multiset(s[..n]) + multiset(s[n..]);
  }

  lemma PrefixOrder(s: seq<Document>, n: nat)
    requires Sorted(s) && n <= |s|
    ensures Sorted(s[..n])
    ensures forall x, y :: x in s[..n] && y in s[n..] ==> Key(x) <= Key(y)
  {
    forall x, y | x in s[..n] && y in s[n..]
      ensures Key(x) <= Key(y)
    {
      var i :| 0 <= i < n && s[..n][i] == x;
      var j :| 0 <= j < |s| - n && s[n..][j] == y;
      assert s[i] == x && s[n + j] == y;
    }
  }

  /** Every document left out of a sorted prefix sorts no earlier than those kept. */
  lemma PrefixIsEarliest(s: seq<Document>, n: nat)
    requires Sorted(s) && n <= |s|
    ensures Sorted(s[..n]) && multiset(s[..n]) <= multiset(s)
    ensures forall x, y :: x in s[..n] && y in multiset(s) - multiset(s[..n]) ==> Key(x) <= Key(y)
  {
    PrefixMultiset(s, n);
    PrefixOrder(s, n);
  }

  /** `find(...).sort('timestamp')` read with `to_list(length=100)`: at most 100 documents in
      non-decreasing timestamp order, each from `docs`, and no document left out sorts earlier
      than one returned. */
  function Listing(docs: seq<Document>): (r: seq<Document>)
    ensures |r| == if |docs| < Limit then |docs| else Limit
    ensures Sorted(r) && multiset(r) <= multiset(docs)
    ensures |docs| <= Limit ==> multiset(r) == multiset(docs)
    ensures forall x, y :: x in r && y in multiset(docs) - multiset(r) ==> Key(x) <= Key(y)
  {
    var sorted := SortByTime(docs);
    assert |sorted| == |docs| by {
      assert |multiset(sorted)| == |multiset(docs)|;
    }
    var n := if |sorted| < Limit then |sorted| else Limit;
    PrefixIsEarliest(sorted, n);
    assert n == |sorted| ==> sorted[..n] == sorted;
    sorted[..n]
  }

  /** The documents whose field `key` holds the text `query`, in insertion order. */
  function Filter(docs: seq<Document>, key: string, query: string): (r: seq<Document>)
    ensures |r| <= |docs|
    ensures forall d :: d in r ==> HasField(d, key, Str(query))
    ensures forall d :: d in docs && HasField(d, key, Str(query)) ==> d in r
    ensures forall d :: multiset(r)[d] == if HasField(d, key, Str(query)) then multiset(docs)[d] else 0
  {
    if docs == [] then []
    else
      assert docs == [docs[0]] + docs[1..];
      var rest := Filter(docs[1..], key, query);
      if HasField(docs[0], key, Str(query)) then [docs[0]] + rest else rest
  }

  /** A `$set` can give one car the VIN another car already has: nothing guards against it. */
  lemma UpdateCanDuplicateVin()
    ensures exists docs: seq<Document>, id: Id, data: map<string, Value> ::
      VinsUnique(docs) && IdsUnique(docs) && !VinsUnique(UpdateOne(docs, id, data))
  {
    var a := Document(0, map["vin" := Str("1HGCM82633A004352")]);
    var b := Document(1, map["vin" := Str("JH4KA7650MC002609")]);
    var data := map["vin" := Str("1HGCM82633A004352")];
    var docs := [a, b];
    assert IndexOf(docs, 1) == Some(1);
    var r := UpdateOne(docs, 1, data);
    assert r[0].fields["vin"] == r[1].fields["vin"];
  }
}
