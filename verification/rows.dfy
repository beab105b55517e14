/** A JavaScript `Map` from ids to values: entries in order of insertion, one for each id. */
module Rows {

  datatype Entry<V> = Entry(id: string, value: V)

  /** The index of the entry with the given id, or the number of entries. */
  function Find<V>(rows: seq<Entry<V>>, id: string): (i: nat)
    ensures i <= |rows| && (i < |rows| ==> rows[i].id == id)
    ensures forall k :: 0 <= k < i ==> rows[k].id != id
  {
    if rows == [] || rows[0].id == id then 0 else 1 + Find(rows[1..], id)
  }

  predicate Has<V>(rows: seq<Entry<V>>, id: string) { Find(rows, id) < |rows| }

  function Get<V>(rows: seq<Entry<V>>, id: string): V
    requires Has(rows, id)
  {
    rows[Find(rows, id)].value
  }

  /** `map.set(id, value)`: an existing id keeps its place. */
  function Put<V>(rows: seq<Entry<V>>, id: string, value: V): seq<Entry<V>> {
    if Has(rows, id) then rows[Find(rows, id) := Entry(id, value)] else rows + [Entry(id, value)]
  }

  predicate Distinct<V>(rows: seq<Entry<V>>) {
    forall i, j :: 0 <= i < j < |rows| ==> rows[i].id != rows[j].id
  }

  /** Only the entry with the id may differ, and every entry keeps its place. */
  ghost predicate ChangedAt<V>(rows: seq<Entry<V>>, later: seq<Entry<V>>, id: string) {
    |later| == |rows|
    && forall k :: 0 <= k < |rows| ==> later[k].id == rows[k].id && (rows[k].id != id ==> later[k] == rows[k])
  }

  lemma FindIs<V>(rows: seq<Entry<V>>, i: nat)
    requires Distinct(rows) && i < |rows|
    ensures Find(rows, rows[i].id) == i
  {}

  /** A new id is added at the end; an existing one gets the value where it stands. */
  lemma PutPlaces<V>(rows: seq<Entry<V>>, id: string, value: V)
    requires Distinct(rows)
    ensures (forall k :: 0 <= k < |rows| ==> rows[k].id != id) ==> Put(rows, id, value) == rows + [Entry(id, value)]
    ensures forall k :: 0 <= k < |rows| && rows[k].id == id ==>
              ChangedAt(rows, Put(rows, id, value), id) && Put(rows, id, value)[k].value == value
  {
    forall k | 0 <= k < |rows| && rows[k].id == id
      ensures ChangedAt(rows, Put(rows, id, value), id) && Put(rows, id, value)[k].value == value
    {
      FindIs(rows, k);
    }
  }

  /** The lookup finds the one entry with the id. */
  lemma GetIs<V>(rows: seq<Entry<V>>, k: nat)
    requires Distinct(rows) && k < |rows|
    ensures Has(rows, rows[k].id) && Get(rows, rows[k].id) == rows[k].value
  {
    FindIs(rows, k);
  }

  /** Setting an entry changes what is found under its id and under no other. */
  lemma PutGet<V>(rows: seq<Entry<V>>, id: string, value: V, other: string)
    requires Distinct(rows)
    ensures Distinct(Put(rows, id, value)) && Has(Put(rows, id, value), id) && Get(Put(rows, id, value), id) == value
    ensures other != id ==> Has(Put(rows, id, value), other) == Has(rows, other)
    ensures other != id && Has(rows, other) ==> Get(Put(rows, id, value), other) == Get(rows, other)
  {
    var later := Put(rows, id, value);
    FindIs(later, if Has(rows, id) then Find(rows, id) else |rows|);
    if Has(rows, other) {
      FindIs(later, Find(rows, other));
    }
  }
}
