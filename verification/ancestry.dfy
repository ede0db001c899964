/** The ancestor walk of the scene graph utilities: the non-identity local
    matrices met while climbing from an object to the ancestor with a given
    id. The chain of ancestors is a sequence, the object first and each
    further entry the parent of the one before; the last entry has no
    parent. Matrices are compared with `==`, as `Matrix4.equals` compares
    their entries. */
module Ancestry {
  import opened Options

  /** An object of the scene: its id and its local matrix. */
  datatype Node<M> = Node(id: string, matrix: M)

  /** The walk with the matrices gathered so far: the node's matrix is
      added unless it is the identity; the walk ends with what it gathered
      at the node with the wanted id, and with nothing when it runs out of
      parents first. */
  function Walk<M(==)>(chain: seq<Node<M>>, target: string, identity: M, gathered: seq<M>): seq<M>
    requires |chain| > 0
    decreases |chain|
  {
    var node := chain[0];
    var now := if node.matrix != identity then gathered + [node.matrix] else gathered;
    if node.id == target then now
    else if |chain| == 1 then []
    else Walk(chain[1..], target, identity, now)
  }

  /** What the walk returns is either nothing or what was gathered followed
      by more, never an identity matrix that was not gathered, and at most
      one matrix per node. */
  lemma {:induction false} WalkShape<M>(chain: seq<Node<M>>, target: string, identity: M, gathered: seq<M>)
    requires |chain| > 0
    ensures var r := Walk(chain, target, identity, gathered);
            (r == [] || gathered <= r) &&
            (identity !in gathered ==> identity !in r) &&
            |r| <= |gathered| + |chain|
    decreases |chain|
  {
    var node := chain[0];
    var now := if node.matrix != identity then gathered + [node.matrix] else gathered;
    if node.id != target && |chain| > 1 {
      WalkShape(chain[1..], target, identity, now);
    }
  }

  /** `getAncestralTransformations`: the walk from the object with nothing
      gathered. It returns no identity matrix, and at most one matrix per
      node of the chain. */
  function AncestralTransformations<M(==)>(chain: seq<Node<M>>, target: string, identity: M): (r: seq<M>)
    requires |chain| > 0
    ensures identity !in r
    ensures |r| <= |chain|
  {
    WalkShape(chain, target, identity, []);
    Walk(chain, target, identity, [])
  }

  /** The position of the first node with the wanted id. */
  function FindNode<M>(chain: seq<Node<M>>, target: string): (r: Option<nat>)
    ensures r.Some? ==> r.value < |chain|
  {
    if |chain| == 0 then None
    else if chain[0].id == target then Some(0)
    else match FindNode(chain[1..], target)
      case Some(k) => Some(k + 1)
      case None => None
  }

  /** The node found has the wanted id and no node before it has; nothing
      is found exactly when no node has it. */
  lemma {:induction false} FindNodeFirst<M>(chain: seq<Node<M>>, target: string)
    ensures var r := FindNode(chain, target);
            (r.Some? ==> r.value < |chain| && chain[r.value].id == target &&
                         forall i :: 0 <= i < r.value ==> chain[i].id != target) &&
            (r.None? <==> forall i :: 0 <= i < |chain| ==> chain[i].id != target)
  {
    if |chain| > 0 && chain[0].id != target {
      FindNodeFirst(chain[1..], target);
      assert forall i :: 1 <= i < |chain| ==> chain[1..][i - 1] == chain[i];
    }
  }

  /** The non-identity matrices of some nodes, in order: the reference the
      walk is measured against. */
  function Matrices<M(==)>(nodes: seq<Node<M>>, identity: M): seq<M> {
    if |nodes| == 0 then []
    else Own(nodes[0], identity) + Matrices(nodes[1..], identity)
  }

  /** A node's matrix unless it is the identity. */
  function Own<M(==)>(node: Node<M>, identity: M): seq<M> {
    if node.matrix != identity then [node.matrix] else []
  }

  /** A matrix is kept exactly when it is not the identity and some node
      carries it, and no more matrices are kept than there are nodes. */
  lemma {:induction false} MatricesElements<M>(nodes: seq<Node<M>>, identity: M)
    ensures |Matrices(nodes, identity)| <= |nodes|
    ensures forall m :: m in Matrices(nodes, identity) <==>
              m != identity && exists i :: 0 <= i < |nodes| && nodes[i].matrix == m
  {
    if |nodes| > 0 {
      MatricesElements(nodes[1..], identity);
      assert forall i :: 1 <= i < |nodes| ==> nodes[1..][i - 1] == nodes[i];
      forall m | m != identity && exists i :: 0 <= i < |nodes| && nodes[i].matrix == m
        ensures m in Matrices(nodes, identity)
      {
        var i :| 0 <= i < |nodes| && nodes[i].matrix == m;
        if i > 0 {
          assert nodes[1..][i - 1].matrix == m;
        }
      }
    }
  }

  /** The walk from any gathered matrices, when a node has the wanted id:
      those matrices followed by the non-identity matrices up to and
      including the first such node. */
  lemma {:induction false} WalkFound<M>(chain: seq<Node<M>>, target: string, identity: M, gathered: seq<M>, f: nat)
    requires |chain| > 0 && FindNode(chain, target) == Some(f)
    ensures Walk(chain, target, identity, gathered) == gathered + Matrices(chain[..f + 1], identity)
  {
    var own := Own(chain[0], identity);
    MatricesFront(chain, f + 1, identity);
    if chain[0].id == target {
      assert Walk(chain, target, identity, gathered) == gathered + own;
      assert Matrices(chain[1..][..0], identity) == [];
    } else {
      WalkStep(chain, target, identity, gathered);
      WalkFound(chain[1..], target, identity, gathered + own, f - 1);
      assert (gathered + own) + Matrices(chain[1..][..f], identity) ==
             gathered + (own + Matrices(chain[1..][..f], identity));
    }
  }

  /** Past a node without the wanted id, the walk goes on to its parent
      with the node's matrix gathered unless it is the identity. */
  lemma WalkStep<M>(chain: seq<Node<M>>, target: string, identity: M, gathered: seq<M>)
    requires |chain| > 0 && chain[0].id != target && FindNode(chain, target).Some?
    ensures |chain| > 1 && FindNode(chain[1..], target) == Some(FindNode(chain, target).value - 1)
    ensures Walk(chain, target, identity, gathered) == Walk(chain[1..], target, identity, gathered + Own(chain[0], identity))
  {
    var node := chain[0];
    assert (if node.matrix != identity then gathered + [node.matrix] else gathered) == gathered + Own(node, identity);
  }

  /** The walk returns nothing when no node has the wanted id. */
  lemma {:induction false} WalkNotFound<M>(chain: seq<Node<M>>, target: string, identity: M, gathered: seq<M>)
    requires |chain| > 0 && FindNode(chain, target).None?
    ensures Walk(chain, target, identity, gathered) == []
  {
    if |chain| > 1 {
      var node := chain[0];
      var now := if node.matrix != identity then gathered + [node.matrix] else gathered;
      WalkNotFound(chain[1..], target, identity, now);
    }
  }

  /** The non-identity matrices of the first `n` nodes are those of the
      first node followed by those of the next `n - 1`. */
  lemma MatricesFront<M>(chain: seq<Node<M>>, n: nat, identity: M)
    requires 0 < n <= |chain|
    ensures Matrices(chain[..n], identity) == Own(chain[0], identity) + Matrices(chain[1..][..n - 1], identity)
  {
    assert chain[..n][1..] == chain[1..][..n - 1];
  }

  /** The ancestral transformations are the non-identity matrices from the
      object up to and including the first ancestor with the wanted id, in
      climbing order; when no ancestor has that id there are none. */
  lemma AncestralTransformationsAreFiltered<M>(chain: seq<Node<M>>, target: string, identity: M)
    requires |chain| > 0
    ensures AncestralTransformations(chain, target, identity) ==
              match FindNode(chain, target)
              case Some(f) => Matrices(chain[..f + 1], identity)
              case None => []
  {
    match FindNode(chain, target)
    case Some(f) => WalkFound(chain, target, identity, [], f);
    case None => WalkNotFound(chain, target, identity, []);
  }

  /** No identity matrix is returned; every returned matrix belongs to a
      node at or below the first node with the wanted id, every
      non-identity matrix of such a node is returned, and there are at most
      as many as those nodes. */
  lemma AncestralTransformationsContents<M>(chain: seq<Node<M>>, target: string, identity: M)
    requires |chain| > 0
    ensures var r := AncestralTransformations(chain, target, identity);
            identity !in r &&
            match FindNode(chain, target)
            case Some(f) =>
              |r| <= f + 1 &&
              forall m :: m in r <==> m != identity && exists i :: 0 <= i < |chain| && i <= f && chain[i].matrix == m
            case None => r == []
  {
    AncestralTransformationsAreFiltered(chain, target, identity);
    FindNodeFirst(chain, target);
    match FindNode(chain, target)
    case Some(f) =>
      var below := chain[..f + 1];
      MatricesElements(below, identity);
      assert forall i :: 0 <= i <= f ==> below[i] == chain[i];
    case None =>
  }
}
