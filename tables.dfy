/**
 * A document collection of the persistence layer, as a value: the stored
 * documents keyed by their server-assigned id, together with the order in
 * which they were inserted (the store's natural order, which `find`,
 * `findOne` and a single-document `update` follow).
 */
module Tables {

  type Id = nat

  datatype Option<T> = None | Some(value: T)

  /** One stored document: its id and its fields. */
  datatype Entry<T> = Entry(id: Id, value: T)

  /** No id occurs twice in `s`. */
  ghost predicate Distinct(s: seq<Id>) {
    forall i, j :: 0 <= i < j < |s| ==> s[i] != s[j]
  }

  /** The position of `x` in `s`; the first one, if `x` occurs more than once. */
  function IndexOf(s: seq<Id>, x: Id): (k: nat)
    requires x in s
    ensures k < |s| && s[k] == x
    ensures forall j :: 0 <= j < k ==> s[j] != x
  {
    if s[0] == x then 0 else 1 + IndexOf(s[1..], x)
  }

  /** In a sequence without repetitions the position of `s[k]` is `k`. */
  lemma IndexOfDistinct(s: seq<Id>, k: nat)
    requires Distinct(s) && k < |s|
    ensures IndexOf(s, s[k]) == k
  {
    var i := IndexOf(s, s[k]);
    assert s[i] == s[k];
  }

  /** `s` without the element at position `k`. */
  function RemoveAt<T>(s: seq<T>, k: nat): (r: seq<T>)
    requires k < |s|
    ensures |r| == |s| - 1
    ensures forall i :: 0 <= i < |r| ==> r[i] == s[if i < k then i else i + 1]
  {
    s[..k] + s[k + 1..]
  }

  /** Removing one position of a sequence without repetitions removes exactly that id. */
  lemma RemoveAtDistinct(s: seq<Id>, k: nat)
    requires Distinct(s) && k < |s|
    ensures Distinct(RemoveAt(s, k))
    ensures forall y :: y in RemoveAt(s, k) <==> y in s && y != s[k]
  {
    var r := RemoveAt(s, k);
    forall i, j | 0 <= i < j < |r| ensures r[i] != r[j] {
      var i', j' := if i < k then i else i + 1, if j < k then j else j + 1;
      assert i' < j' && r[i] == s[i'] && r[j] == s[j'];
    }
    forall y ensures y in r <==> y in s && y != s[k] {
      if y in r {
        var i :| 0 <= i < |r| && r[i] == y;
        var i' := if i < k then i else i + 1;
        assert s[i'] == y && i' != k;
        if i' < k { assert s[i'] != s[k]; } else { assert s[k] != s[i']; }
      }
      if y in s && y != s[k] {
        var j := IndexOf(s, y);
        assert j != k;
        var i := if j < k then j else j - 1;
        assert r[i] == y;
      }
    }
  }

  datatype Table<T> = Table(rows: map<Id, T>, order: seq<Id>)
  {
    /** Every stored document occurs exactly once in the order, and nothing else does. */
    ghost predicate Valid() {
      && Distinct(order)
      && (forall id :: id in rows <==> id in order)
    }

    /** The stored documents in natural order. */
    function Entries(): (r: seq<Entry<T>>)
      requires Valid()
      ensures |r| == |order| == |rows|
      ensures forall k :: 0 <= k < |r| ==> r[k] == Entry(order[k], rows[order[k]])
    {
      DistinctCard(order, rows.Keys);
      seq(|order|, k requires 0 <= k < |order| => Entry(order[k], rows[order[k]]))
    }

    /** Stores `v` under an id not used before; it comes last in natural order. */
    function Insert(id: Id, v: T): (t: Table<T>)
      requires Valid() && id !in rows
      ensures t.Valid()
      ensures t.rows == rows[id := v]
      ensures t.Entries() == Entries() + [Entry(id, v)]
    {
      var t := Table(rows[id := v], order + [id]);
      assert t.Valid() by {
        forall i, j | 0 <= i < j < |t.order| ensures t.order[i] != t.order[j] {
          if j == |order| { assert t.order[i] in order; }
        }
      }
      assert t.Entries() == Entries() + [Entry(id, v)];
      t
    }

    /** Overwrites the stored document `id`; its place in natural order stays. */
    function Put(id: Id, v: T): (t: Table<T>)
      requires Valid() && id in rows
      ensures t.Valid() && t.order == order
      ensures t.rows == rows[id := v]
      ensures t.Entries() == Entries()[IndexOf(order, id) := Entry(id, v)]
    {
      var t := Table(rows[id := v], order);
      var p := IndexOf(order, id);
      assert t.Entries() == Entries()[p := Entry(id, v)] by {
        forall k | 0 <= k < |order| ensures t.Entries()[k] == Entries()[p := Entry(id, v)][k] {
          if k != p { assert order[k] != id by { IndexOfDistinct(order, k); } }
        }
      }
      t
    }

    /** Deletes the stored document `id`, if there is one; the others keep their order. */
    function Remove(id: Id): (t: Table<T>)
      requires Valid()
      ensures t.Valid()
      ensures t.rows == rows - {id}
      ensures id in rows ==> t.Entries() == RemoveAt(Entries(), IndexOf(order, id))
      ensures id !in rows ==> t == this
    {
      if id !in rows then this
      else
        var p := IndexOf(order, id);
        RemoveAtDistinct(order, p);
        var t := Table(rows - {id}, RemoveAt(order, p));
        EntriesRemoveAt(this, t, p);
        t
    }

    /** The documents a listing returns once the first `skip` are passed over. */
    function Listing(skip: nat): (r: seq<Entry<T>>)
      requires Valid()
      ensures |r| == if skip < |order| then |order| - skip else 0
      ensures forall k :: 0 <= k < |r| ==> r[k] == Entry(order[skip + k], rows[order[skip + k]])
      ensures skip == 0 ==> r == Entries()
    {
      if skip < |order| then Entries()[skip..] else []
    }

    /** The first position from `i` on whose document satisfies `p`, or `|order|`. */
    function FirstFrom(p: T -> bool, i: nat): (k: nat)
      requires Valid() && i <= |order|
      ensures i <= k <= |order|
      ensures forall j :: i <= j < k ==> !p(rows[order[j]])
      ensures k < |order| ==> p(rows[order[k]])
      decreases |order| - i
    {
      if i == |order| then i
      else if p(rows[order[i]]) then i
      else FirstFrom(p, i + 1)
    }

    /** The first document in natural order satisfying `p`, as a single-document
        query (`findOne`, an `update` without the multi option) picks it. */
    function FirstWhere(p: T -> bool): (r: Option<Id>)
      requires Valid()
      ensures r.Some? ==> r.value in rows && p(rows[r.value])
      ensures r.Some? ==> forall j :: 0 <= j < IndexOf(order, r.value) ==> !p(rows[order[j]])
      ensures r.None? ==> forall id :: id in rows ==> !p(rows[id])
    {
      var k := FirstFrom(p, 0);
      if k < |order| then
        IndexOfDistinct(order, k);
        Some(order[k])
      else
        assert forall id :: id in rows ==> !p(rows[id]) by {
          forall id | id in rows ensures !p(rows[id]) {
            var j := IndexOf(order, id);
          }
        }
        None
    }
  }

  /** The listing of a table whose order lost position `p` lost the entry at `p`. */
  lemma EntriesRemoveAt<T>(t: Table<T>, u: Table<T>, p: nat)
    requires t.Valid() && u.Valid() && p < |t.order|
    requires u.order == RemoveAt(t.order, p)
    requires forall id :: id in u.rows ==> id in t.rows && u.rows[id] == t.rows[id]
    ensures u.Entries() == RemoveAt(t.Entries(), p)
  {
    var a, b := u.Entries(), RemoveAt(t.Entries(), p);
    forall i | 0 <= i < |a| ensures a[i] == b[i] {
      var i' := if i < p then i else i + 1;
      assert u.order[i] == t.order[i'];
    }
  }

  /** A table with no documents. */
  function EmptyTable<T>(): (t: Table<T>)
    ensures t.Valid() && t.rows == map[] && t.Entries() == []
  {
    Table(map[], [])
  }

  /** A sequence without repetitions listing exactly a set has as many elements as the set. */
  lemma {:induction false} DistinctCard(s: seq<Id>, keys: set<Id>)
    requires Distinct(s) && (forall id :: id in keys <==> id in s)
    ensures |s| == |keys|
  {
    if s != [] {
      var rest := s[1..];
      assert Distinct(rest) by {
        forall i, j | 0 <= i < j < |rest| ensures rest[i] != rest[j] {
          assert s[i + 1] != s[j + 1];
        }
      }
      forall id ensures id in keys - {s[0]} <==> id in rest {
        if id in rest {
          var j :| 0 <= j < |rest| && rest[j] == id;
          assert s[j + 1] == id && s[0] != s[j + 1];
        }
        if id in keys - {s[0]} {
          assert id in s;
          var j := IndexOf(s, id);
          assert j != 0 && rest[j - 1] == id;
        }
      }
      DistinctCard(rest, keys - {s[0]});
    }
  }

  /** The single-document query meets a document only after the ones it passed over. */
  lemma FirstFromUnique<T>(t: Table<T>, p: T -> bool, k: nat)
    requires t.Valid() && k <= |t.order|
    requires forall j :: 0 <= j < k ==> !p(t.rows[t.order[j]])
    requires k < |t.order| ==> p(t.rows[t.order[k]])
    ensures t.FirstFrom(p, 0) == k
  {
    var k' := t.FirstFrom(p, 0);
  }

  /** Inserting a document changes the single-document query's answer only when
      nothing matched before and the new document matches. */
  lemma FirstWhereInsert<T>(t: Table<T>, p: T -> bool, id: Id, v: T)
    requires t.Valid() && id !in t.rows
    ensures t.Insert(id, v).FirstWhere(p) == (
      if t.FirstWhere(p).Some? then t.FirstWhere(p)
      else if p(v) then Some(id) else None)
  {
    var u := t.Insert(id, v);
    var k := t.FirstFrom(p, 0);
    assert forall j :: 0 <= j < |t.order| ==>
      u.order[j] == t.order[j] && t.order[j] != id && u.rows[u.order[j]] == t.rows[t.order[j]];
    if k < |t.order| {
      FirstFromUnique(u, p, k);
    } else {
      assert u.order[k] == id;
      if p(v) {
        FirstFromUnique(u, p, k);
      } else {
        FirstFromUnique(u, p, k + 1);
      }
    }
  }

  /** When exactly one document satisfies `p`, the single-document query finds it. */
  lemma FirstWhereSole<T>(t: Table<T>, p: T -> bool, id: Id)
    requires t.Valid() && id in t.rows && p(t.rows[id])
    requires forall other :: other in t.rows && other != id ==> !p(t.rows[other])
    ensures t.FirstWhere(p) == Some(id)
  {
  }
}
