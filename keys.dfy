/**
 * Element keys of the node join in `update`: `d => d.id || (d.id = ++i)`
 * (assets/js/taxonomy.js:64, 109) gives each node a number the first time it
 * is joined and keeps it afterwards; links are keyed by their target's number
 * (line 237).
 */
module Keys {
  import opened Reconcile

  /** Every numbered node has a number in 1..counter. */
  predicate IdsBelow(id: map<nat, nat>, counter: nat)
  {
    forall n :: n in id ==> 1 <= id[n] <= counter
  }

  predicate Injective(id: map<nat, nat>)
  {
    forall m, n :: m in id && n in id && m != n ==> id[m] != id[n]
  }

  /**
   * The key function applied to the nodes of `order` in turn: a node without
   * a number gets `++counter`. Numbers are never 0, so `d.id ||` is a test for
   * presence.
   */
  function AssignIds(id: map<nat, nat>, counter: nat, order: seq<nat>): (r: (map<nat, nat>, nat))
    ensures r.1 >= counter
    decreases |order|
  {
    if order == [] then (id, counter)
    else if order[0] in id then AssignIds(id, counter, order[1..])
    else AssignIds(id[order[0] := counter + 1], counter + 1, order[1..])
  }

  /**
   * Numbers once given never change, exactly the joined nodes gain one, and
   * every fresh number lies above the old counter and at most the new one.
   */
  lemma {:induction false} AssignIdsSpec(id: map<nat, nat>, counter: nat, order: seq<nat>)
    ensures var r := AssignIds(id, counter, order);
      && (forall n :: n in id ==> n in r.0 && r.0[n] == id[n])
      && (forall n :: n in r.0 <==> n in id || n in order)
      && (forall n :: n in r.0 && n !in id ==> counter < r.0[n] <= r.1)
    decreases |order|
  {
    if order != [] {
      var rest := order[1..];
      assert forall n :: n in order <==> n == order[0] || n in rest;
      if order[0] in id {
        AssignIdsSpec(id, counter, rest);
      } else {
        AssignIdsSpec(id[order[0] := counter + 1], counter + 1, rest);
      }
    }
  }

  /** `d.id = ++i` on a node without a number. */
  lemma NumberFresh(id: map<nat, nat>, counter: nat, n: nat)
    requires IdsBelow(id, counter) && Injective(id) && n !in id
    ensures IdsBelow(id[n := counter + 1], counter + 1) && Injective(id[n := counter + 1])
  {
    var id1 := id[n := counter + 1];
    forall a, b | a in id1 && b in id1 && a != b ensures id1[a] != id1[b] {
      if a == n {
        assert id1[b] == id[b] <= counter;
      } else if b == n {
        assert id1[a] == id[a] <= counter;
      }
    }
  }

  /** Fresh numbers are distinct from each other and from the old ones. */
  lemma {:induction false} AssignIdsInjective(id: map<nat, nat>, counter: nat, order: seq<nat>)
    requires IdsBelow(id, counter) && Injective(id)
    ensures var r := AssignIds(id, counter, order); IdsBelow(r.0, r.1) && Injective(r.0)
    decreases |order|
  {
    if order != [] && order[0] !in id {
      var id1 := id[order[0] := counter + 1];
      NumberFresh(id, counter, order[0]);
      AssignIdsInjective(id1, counter + 1, order[1..]);
      assert AssignIds(id, counter, order) == AssignIds(id1, counter + 1, order[1..]);
    } else if order != [] {
      AssignIdsInjective(id, counter, order[1..]);
      assert AssignIds(id, counter, order) == AssignIds(id, counter, order[1..]);
    }
  }

  /** Along the join order the fresh numbers increase. */
  lemma {:induction false} AssignIdsOrdered(id: map<nat, nat>, counter: nat, order: seq<nat>, i: nat, j: nat)
    requires forall p, q :: 0 <= p < q < |order| ==> order[p] != order[q]
    requires i < j < |order| && order[i] !in id && order[j] !in id
    ensures var r := AssignIds(id, counter, order);
      order[i] in r.0 && order[j] in r.0 && r.0[order[i]] < r.0[order[j]]
    decreases |order|
  {
    AssignIdsSpec(id, counter, order);
    var rest := order[1..];
    assert order[j] == rest[j - 1];
    if order[0] in id {
      AssignIdsOrdered(id, counter, rest, i - 1, j - 1);
    } else {
      var id1 := id[order[0] := counter + 1];
      if i == 0 {
        // order[i] got counter + 1; order[j] is fresh in the rest of the walk
        assert order[j] !in id1;
        AssignIdsSpec(id1, counter + 1, rest);
      } else {
        assert order[i] == rest[i - 1] && order[i] != order[0] && order[j] != order[0];
        AssignIdsOrdered(id1, counter + 1, rest, i - 1, j - 1);
      }
    }
  }

  /** Once every node of `order` has a number, joining them again assigns nothing. */
  lemma {:induction false} AssignIdsIdempotent(id: map<nat, nat>, counter: nat, order: seq<nat>)
    requires forall i :: 0 <= i < |order| ==> order[i] in id
    ensures AssignIds(id, counter, order) == (id, counter)
    decreases |order|
  {
    if order != [] {
      assert order[0] in id;
      AssignIdsIdempotent(id, counter, order[1..]);
    }
  }

  /** The keys of a set of nodes. */
  function Image(id: map<nat, nat>, nodes: set<nat>): set<nat>
    requires nodes <= id.Keys
  {
    set n | n in nodes :: id[n]
  }

  /** A key is in the image exactly when some node of the set carries it. */
  lemma ImageMembers(id: map<nat, nat>, nodes: set<nat>)
    requires nodes <= id.Keys
    ensures forall n :: n in nodes ==> id[n] in Image(id, nodes)
    ensures forall k :: k in Image(id, nodes) ==> exists n :: n in nodes && id[n] == k
  {
  }

  /** Numbers already given do not change, so neither do the keys of nodes that had one. */
  lemma ImageStable(id: map<nat, nat>, id1: map<nat, nat>, nodes: set<nat>)
    requires nodes <= id.Keys
    requires forall n :: n in id ==> n in id1 && id1[n] == id[n]
    ensures Image(id1, nodes) == Image(id, nodes)
  {
  }

  /**
   * With distinct keys the enter, update and exit sets of the join are the
   * keys of the nodes that appear, stay and disappear.
   */
  lemma DiffByNode(id: map<nat, nat>, before: set<nat>, after: set<nat>)
    requires Injective(id) && before <= id.Keys && after <= id.Keys
    ensures Classify(Image(id, before), Image(id, after))
      == Diff(Image(id, after - before), Image(id, after * before), Image(id, before - after))
  {
    var b, a := Image(id, before), Image(id, after);
    ImageMembers(id, before);
    ImageMembers(id, after);
    ImageMembers(id, after - before);
    ImageMembers(id, after * before);
    ImageMembers(id, before - after);
    forall k | k in a - b ensures k in Image(id, after - before) {
      var n :| n in after && id[n] == k;
    }
    forall k | k in Image(id, after - before) ensures k in a - b {
      var n :| n in after - before && id[n] == k;
    }
    forall k | k in a * b ensures k in Image(id, after * before) {
      var n :| n in after && id[n] == k;
      var m :| m in before && id[m] == k;
    }
    forall k | k in b - a ensures k in Image(id, before - after) {
      var n :| n in before && id[n] == k;
    }
    forall k | k in Image(id, before - after) ensures k in b - a {
      var n :| n in before - after && id[n] == k;
    }
  }
}
