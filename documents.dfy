/**
 * The document store's data: a document is a map from field names to values, a table
 * (collection) is the sequence of its documents in insertion order.
 */
module Documents {
  import opened Wrappers

  /** A stored field value: a string, an object id, or JSON null. */
  datatype Value = Str(s: string) | Oid(id: nat) | Null

  type Doc = map<string, Value>

  /** A JSON object whose fields are all strings: a request body or a row of a seed file. */
  type Json = map<string, string>

  const ID: string := "_id"

  /** The value a query sees for a field: a missing field reads as null. */
  function KeyOf(d: Doc, field: string): Value
  {
    if field in d then d[field] else Null
  }

  /** Field-by-field filter matching, as the store's find and update do. */
  predicate Matches(filter: Doc, d: Doc)
  {
    forall f :: f in filter ==> KeyOf(d, f) == filter[f]
  }

  /** The index of the first document (in natural order) matching the filter. */
  function FirstMatch(table: seq<Doc>, filter: Doc): (r: Option<nat>)
    ensures r.Some? ==> r.value < |table| && Matches(filter, table[r.value])
    ensures r.Some? ==> forall j :: 0 <= j < r.value ==> !Matches(filter, table[j])
    ensures r.None? <==> forall j :: 0 <= j < |table| ==> !Matches(filter, table[j])
  {
    if |table| == 0 then None
    else if Matches(filter, table[0]) then Some(0)
    else match FirstMatch(table[1..], filter)
      case None => None
      case Some(k) => Some(k + 1)
  }

  /** No two documents of the table agree on the field (a unique index; missing reads as null). */
  ghost predicate UniqueOn(table: seq<Doc>, field: string)
  {
    forall i, j :: 0 <= i < j < |table| ==> KeyOf(table[i], field) != KeyOf(table[j], field)
  }

  /** Every document has an `_id`, and every object id in the table is below `next`. */
  ghost predicate IdsBelow(table: seq<Doc>, next: nat)
  {
    forall i :: 0 <= i < |table| ==> ID in table[i] && (table[i][ID].Oid? ==> table[i][ID].id < next)
  }

  /** A JSON object of strings as a document. */
  function FromJson(j: Json): (d: Doc)
    ensures d.Keys == j.Keys
    ensures forall k :: k in j ==> d[k] == Str(j[k])
  {
    map k | k in j :: Str(j[k])
  }

  /** In a table with a unique field, a document holding a value of that field is the first match for it. */
  lemma {:induction false} UniqueFirstMatch(table: seq<Doc>, field: string, i: nat)
    requires UniqueOn(table, field) && i < |table|
    ensures FirstMatch(table, map[field := KeyOf(table[i], field)]) == Some(i)
  {
    var filter := map[field := KeyOf(table[i], field)];
    assert Matches(filter, table[i]);
  }
}
