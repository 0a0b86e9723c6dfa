/**
 * A document table of the backing store: rows keyed by document id. Ids are
 * handed out in increasing order, so the order of ids is the order in which
 * rows were inserted. The store's indexes return rows with equal keys in
 * insertion order; a lookup through an index is therefore "the matching row
 * with the smallest id", and collecting through an index lists the matching
 * rows by increasing id.
 */
module Tables {
  import opened Wrappers

  /** A stored row together with its id, as the store returns it. */
  datatype Doc<R> = Doc(id: nat, value: R)

  datatype Table<R> = Table(rows: map<nat, R>, nextId: nat)

  /** Every stored id was handed out before the next free id. */
  ghost predicate Valid<R>(t: Table<R>) {
    forall id :: id in t.rows ==> id < t.nextId
  }

  /** `db.insert`: a new row under a fresh id; no existing row changes. */
  function Insert<R>(t: Table<R>, r: R): (res: (Table<R>, nat))
    requires Valid(t)
    ensures Valid(res.0)
    ensures res.1 !in t.rows
    ensures forall id :: id in t.rows ==> id < res.1
    ensures res.0.rows.Keys == t.rows.Keys + {res.1}
    ensures res.0.rows[res.1] == r
    ensures forall id :: id in t.rows ==> res.0.rows[id] == t.rows[id]
  {
    (Table(t.rows[t.nextId := r], t.nextId + 1), t.nextId)
  }

  /** `db.delete`: that one row goes, every other row stays. */
  function Delete<R>(t: Table<R>, id: nat): (t': Table<R>)
    ensures Valid(t) ==> Valid(t')
    ensures t'.rows.Keys == t.rows.Keys - {id}
    ensures forall k :: k in t'.rows ==> t'.rows[k] == t.rows[k]
    ensures t'.nextId == t.nextId
  {
    Table(t.rows - {id}, t.nextId)
  }

  /** `db.patch` / `db.replace` of an existing row. */
  function Put<R>(t: Table<R>, id: nat, r: R): (t': Table<R>)
    requires id in t.rows
    ensures Valid(t) ==> Valid(t')
    ensures t'.rows.Keys == t.rows.Keys
    ensures t'.rows[id] == r
    ensures forall k :: k in t.rows && k != id ==> t'.rows[k] == t.rows[k]
  {
    Table(t.rows[id := r], t.nextId)
  }

  /** The matching row with the smallest id at or above `from`. */
  function FirstFrom<R>(t: Table<R>, p: R -> bool, from: nat): (r: Option<nat>)
    requires from <= t.nextId
    ensures r.Some? ==> from <= r.value && r.value in t.rows && p(t.rows[r.value])
    ensures r.Some? ==> forall id :: from <= id < r.value && id in t.rows ==> !p(t.rows[id])
    ensures r.None? ==> forall id :: from <= id < t.nextId && id in t.rows ==> !p(t.rows[id])
    decreases t.nextId - from
  {
    if from == t.nextId then None
    else if from in t.rows && p(t.rows[from]) then Some(from)
    else FirstFrom(t, p, from + 1)
  }

  /**
   * `.withIndex(...).first()`: the earliest-inserted row satisfying `p`, or
   * `None` exactly when no row does. Nothing makes the match unique.
   */
  function First<R>(t: Table<R>, p: R -> bool): (r: Option<nat>)
    requires Valid(t)
    ensures r.Some? ==> r.value in t.rows && p(t.rows[r.value])
    ensures r.Some? ==> forall id :: id in t.rows && p(t.rows[id]) ==> r.value <= id
    ensures r.None? <==> forall id :: id in t.rows ==> !p(t.rows[id])
  {
    FirstFrom(t, p, 0)
  }

  /** Ids strictly increase along the sequence. */
  predicate IncreasingIds<R>(docs: seq<Doc<R>>) {
    forall i, j :: 0 <= i < j < |docs| ==> docs[i].id < docs[j].id
  }

  /** The ids of a sequence of documents. */
  function Ids<R>(docs: seq<Doc<R>>): set<nat> {
    set i | 0 <= i < |docs| :: docs[i].id
  }

  /** The ids of the rows satisfying `p`, at or above `from`. */
  function MatchingIds<R>(t: Table<R>, p: R -> bool, from: nat): set<nat> {
    set id | id in t.rows && from <= id && p(t.rows[id])
  }

  lemma IdsCons<R>(d: Doc<R>, docs: seq<Doc<R>>)
    ensures Ids([d] + docs) == {d.id} + Ids(docs)
  {
    var all := [d] + docs;
    forall x | x in Ids(all)
      ensures x in {d.id} + Ids(docs)
    {
      var i :| 0 <= i < |all| && all[i].id == x;
      if i > 0 {
        assert docs[i - 1].id == x;
      }
    }
    forall x | x in {d.id} + Ids(docs)
      ensures x in Ids(all)
    {
      if x == d.id {
        assert all[0].id == x;
      } else {
        var i :| 0 <= i < |docs| && docs[i].id == x;
        assert all[i + 1].id == x;
      }
    }
  }

  /** Row documents are the stored rows under their ids. */
  predicate StoredDocs<R(==)>(t: Table<R>, p: R -> bool, docs: seq<Doc<R>>) {
    forall i :: 0 <= i < |docs| ==>
      docs[i].id in t.rows && docs[i].value == t.rows[docs[i].id] && p(docs[i].value)
  }

  /** The rows satisfying `p` with id at or above `from`, by increasing id. */
  function CollectFrom<R(==)>(t: Table<R>, p: R -> bool, from: nat): (docs: seq<Doc<R>>)
    requires from <= t.nextId
    requires Valid(t)
    ensures IncreasingIds(docs)
    ensures StoredDocs(t, p, docs)
    ensures Ids(docs) == MatchingIds(t, p, from)
    ensures forall i :: 0 <= i < |docs| ==> from <= docs[i].id
    decreases t.nextId - from
  {
    if from == t.nextId then
      MatchingIdsPast(t, p, from);
      []
    else
      var rest := CollectFrom(t, p, from + 1);
      MatchingIdsStep(t, p, from);
      if from in t.rows && p(t.rows[from]) then
        var docs := [Doc(from, t.rows[from])] + rest;
        assert forall i :: 1 <= i < |docs| ==> docs[i] == rest[i - 1];
        IdsCons(Doc(from, t.rows[from]), rest);
        docs
      else
        rest
  }

  /** No stored id lies at or past the next free id. */
  lemma MatchingIdsPast<R>(t: Table<R>, p: R -> bool, from: nat)
    requires Valid(t) && t.nextId <= from
    ensures MatchingIds(t, p, from) == {}
  {
  }

  /** The matching ids from `from` are those from `from + 1`, plus `from` when it matches. */
  lemma MatchingIdsStep<R>(t: Table<R>, p: R -> bool, from: nat)
    ensures MatchingIds(t, p, from) ==
      (if from in t.rows && p(t.rows[from]) then {from} else {}) + MatchingIds(t, p, from + 1)
  {
  }

  /**
   * `.withIndex(...).collect()`: exactly the rows satisfying `p`, each once,
   * by increasing id.
   */
  function Collect<R(==)>(t: Table<R>, p: R -> bool): (docs: seq<Doc<R>>)
    requires Valid(t)
    ensures IncreasingIds(docs)
    ensures StoredDocs(t, p, docs)
    ensures Ids(docs) == MatchingIds(t, p, 0)
  {
    CollectFrom(t, p, 0)
  }
}
