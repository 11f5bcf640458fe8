/**
 * The document collection behind a router: documents keyed by id, plus the
 * order in which `find({})` returns them (insertion order).
 */
module Store {
  import opened Common

  /** A document id. Only its equality matters here; its format is the store's business. */
  type Id = nat

  /** `order` lists every key of the collection exactly once, and nothing else. */
  ghost predicate Lists(order: seq<Id>, keys: set<Id>)
  {
    Distinct(order) && forall id :: id in order <==> id in keys
  }

  /** `order` with `id` taken out, the others keeping their relative order. */
  function Without(order: seq<Id>, id: Id): (r: seq<Id>)
    ensures forall x :: x in r <==> x in order && x != id
    ensures id !in order ==> r == order
    ensures Distinct(order) ==> Distinct(r)
    ensures Distinct(order) ==> forall i :: 0 <= i < |order| && order[i] == id ==> r == order[..i] + order[i + 1..]
  {
    if order == [] then []
    else if order[0] == id then Without(order[1..], id)
    else [order[0]] + Without(order[1..], id)
  }

  /** Appending a fresh id and taking it out again gives back the original order. */
  lemma {:induction false} WithoutAppended(order: seq<Id>, id: Id)
    requires id !in order
    ensures Without(order + [id], id) == order
  {
    if order != [] {
      assert (order + [id])[1..] == order[1..] + [id];
      WithoutAppended(order[1..], id);
    } else {
      assert order + [id] == [id];
    }
  }

  /** A listing of a key set has as many entries as the set. */
  lemma {:induction false} ListsSize(order: seq<Id>, keys: set<Id>)
    requires Lists(order, keys)
    ensures |order| == |keys|
  {
    if order != [] {
      var rest := keys - {order[0]};
      assert Lists(order[1..], rest) by {
        forall x ensures x in order[1..] <==> x in rest {
          if x in order[1..] {
            var k :| 0 <= k < |order[1..]| && order[1..][k] == x;
            assert order[k + 1] == x;
          }
          if x in rest {
            var k :| 0 <= k < |order| && order[k] == x;
            assert k != 0;
            assert order[1..][k - 1] == x;
          }
        }
      }
      ListsSize(order[1..], rest);
    } else {
      assert forall x :: x !in keys;
      assert keys == {};
    }
  }

  /** The response of `find({})`: every stored document once, with its id, in storage order. */
  function Snapshot<V>(order: seq<Id>, docs: map<Id, V>): (r: seq<(Id, V)>)
    requires Lists(order, docs.Keys)
    ensures |r| == |order| == |docs|
    ensures forall i :: 0 <= i < |r| ==> r[i].0 == order[i] && r[i].0 in docs && r[i].1 == docs[r[i].0]
    ensures forall id :: id in docs ==> exists i :: 0 <= i < |r| && r[i].0 == id
    ensures forall i, j :: 0 <= i < j < |r| ==> r[i].0 != r[j].0
  {
    ListsSize(order, docs.Keys);
    seq(|order|, i requires 0 <= i < |order| && order[i] in docs => (order[i], docs[order[i]]))
  }
}
