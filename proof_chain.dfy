/**
 * `ProofChain`: the nodes of the proof tree, each with an optional parent fixed when
 * it is created.  Nodes are objects compared by identity; here they live in an arena
 * and a node is its index, so two nodes with the same parent are still two indices.
 */
module ProofChains {
  import opened Wrappers

  /** Every parent is an earlier node: a node is created after its parent. */
  predicate ValidParents(parents: seq<Option<nat>>) {
    forall i :: 0 <= i < |parents| && parents[i].Some? ==> parents[i].value < i
  }

  /** The node and all its ancestors. */
  function Chain(parents: seq<Option<nat>>, id: nat): (r: set<nat>)
    requires ValidParents(parents) && id < |parents|
    ensures id in r && forall j :: j in r ==> j <= id
    decreases id
  {
    {id} + if parents[id].Some? then Chain(parents, parents[id].value) else {}
  }

  /** `Parent` applied `k` times, `None` once the root is passed. */
  function Follow(parents: seq<Option<nat>>, id: nat, k: nat): Option<nat>
    requires ValidParents(parents) && id < |parents|
    decreases k
  {
    if k == 0 then Some(id)
    else if parents[id].None? then None
    else Follow(parents, parents[id].value, k - 1)
  }

  /** Every node of the chain is reached by following `Parent`. */
  lemma {:induction false} ChainNodesReachable(parents: seq<Option<nat>>, id: nat, j: nat)
    requires ValidParents(parents) && id < |parents| && j in Chain(parents, id)
    ensures exists k: nat :: Follow(parents, id, k) == Some(j)
    decreases id
  {
    if j == id {
      assert Follow(parents, id, 0) == Some(j);
    } else {
      var p := parents[id].value;
      ChainNodesReachable(parents, p, j);
      var k: nat :| Follow(parents, p, k) == Some(j);
      assert Follow(parents, id, k + 1) == Some(j);
    }
  }

  /** Following `Parent` never leaves the chain. */
  lemma {:induction false} ReachableInChain(parents: seq<Option<nat>>, id: nat, k: nat)
    requires ValidParents(parents) && id < |parents| && Follow(parents, id, k).Some?
    ensures Follow(parents, id, k).value in Chain(parents, id)
    decreases k
  {
    if k > 0 {
      ReachableInChain(parents, parents[id].value, k - 1);
    }
  }

  /** The chain holds exactly the nodes reached by following `Parent` some number of times. */
  lemma ChainIsReachable(parents: seq<Option<nat>>, id: nat, j: nat)
    requires ValidParents(parents) && id < |parents|
    ensures j in Chain(parents, id) <==> exists k: nat :: Follow(parents, id, k) == Some(j)
  {
    if j in Chain(parents, id) {
      ChainNodesReachable(parents, id, j);
    }
    if exists k: nat :: Follow(parents, id, k) == Some(j) {
      var k: nat :| Follow(parents, id, k) == Some(j);
      ReachableInChain(parents, id, k);
    }
  }

  /** Adding a node changes no existing chain. */
  lemma {:induction false} ChainAppend(parents: seq<Option<nat>>, p: Option<nat>, id: nat)
    requires ValidParents(parents) && ValidParents(parents + [p]) && id < |parents|
    ensures Chain(parents + [p], id) == Chain(parents, id)
    decreases id
  {
    assert (parents + [p])[id] == parents[id];
    if parents[id].Some? {
      ChainAppend(parents, p, parents[id].value);
    }
  }

  /** All the `ProofChain` nodes created so far. */
  class ProofChainArena {
    var parents: seq<Option<nat>>

    ghost predicate Valid()
      reads this
    {
      ValidParents(parents)
    }

    constructor()
      ensures Valid() && parents == []
    {
      parents := [];
    }

    /** `new ProofChain(parent)`: a new node; no existing node's parent changes. */
    method New(parent: Option<nat>) returns (id: nat)
      requires Valid() && (parent.Some? ==> parent.value < |parents|)
      modifies this
      ensures Valid() && parents == old(parents) + [parent] && id == |old(parents)|
    {
      id := |parents|;
      parents := parents + [parent];
    }

    /** `Parent` */
    function Parent(id: nat): (p: Option<nat>)
      reads this
      requires Valid() && id < |parents|
      ensures p.Some? ==> p.value < id
    {
      parents[id]
    }

    /** `GetChainLink()`: walks `chain = chain.Parent` from the node to the root, collecting every node. */
    method GetChainLink(id: nat) returns (r: set<nat>)
      requires Valid() && id < |parents|
      ensures r == Chain(parents, id)
    {
      r := {};
      var chain: Option<nat> := Some(id);
      while chain.Some?
        invariant chain.Some? ==> chain.value < |parents|
        invariant r + (if chain.Some? then Chain(parents, chain.value) else {}) == Chain(parents, id)
        decreases if chain.Some? then chain.value + 1 else 0
      {
        r := r + {chain.value};
        chain := Parent(chain.value);
      }
    }
  }
}
