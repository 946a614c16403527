/**
 * ProcessNode: the lockstep pre-order walk of two scene trees that pairs
 * child i with child i and calls ProcessMesh on every pair of mesh nodes it
 * reaches. A pair whose attribute types differ, or whose child counts differ,
 * is not descended into; the walk then goes on with the parent's next child.
 *
 * `MeshCalls` is the specification: the node pairs handed to ProcessMesh, in
 * call order. `ProcessNode` is proved to make exactly those calls, and the
 * lemmas characterise them by position in the trees.
 */
module SceneWalk {

  import opened Options
  import opened LayerElements
  import opened Scene
  import opened TangentTransfer

  /** Both nodes carry an attribute and the attribute types differ. */
  predicate AttributesClash<V>(a: Node<V>, b: Node<V>)
  {
    a.attribute.Some? && b.attribute.Some? && a.attribute.value.kind != b.attribute.value.kind
  }

  /** Both nodes carry a mesh attribute. */
  predicate MeshPair<V>(a: Node<V>, b: Node<V>)
  {
    a.attribute.Some? && b.attribute.Some? &&
    a.attribute.value.kind == MeshType && b.attribute.value.kind == MeshType
  }

  /** The ProcessMesh calls made by ProcessNode(a, b), in order. */
  function MeshCalls<V>(a: Node<V>, b: Node<V>): seq<(Node<V>, Node<V>)>
    decreases a, |a.children| + 1
  {
    if AttributesClash(a, b) then []
    else
      (if MeshPair(a, b) then [(a, b)] else []) +
      (if |a.children| == |b.children| then ChildCalls(a, b, 0) else [])
  }

  /** The ProcessMesh calls made for children i, i+1, ... of a pair with equal child counts. */
  function ChildCalls<V>(a: Node<V>, b: Node<V>, i: nat): seq<(Node<V>, Node<V>)>
    requires |a.children| == |b.children| && i <= |a.children|
    decreases a, |a.children| - i
  {
    if i == |a.children| then []
    else MeshCalls(a.children[i], b.children[i]) + ChildCalls(a, b, i + 1)
  }

  /**
   * The pair at `path` (a sequence of child indices) is reached by the walk:
   * every pair strictly above it has no attribute clash and equal child counts.
   */
  predicate Reached<V>(a: Node<V>, b: Node<V>, path: seq<nat>)
    decreases |path|
  {
    path == [] ||
    (!AttributesClash(a, b) && |a.children| == |b.children| && path[0] < |a.children| &&
     Reached(a.children[path[0]], b.children[path[0]], path[1..]))
  }

  /** The pair of nodes at a reached path. */
  function PairAt<V>(a: Node<V>, b: Node<V>, path: seq<nat>): (Node<V>, Node<V>)
    requires Reached(a, b, path)
    decreases |path|
  {
    if path == [] then (a, b)
    else PairAt(a.children[path[0]], b.children[path[0]], path[1..])
  }

  lemma {:induction false} ChildCallsMember<V>(a: Node<V>, b: Node<V>, i: nat, p: (Node<V>, Node<V>))
    requires |a.children| == |b.children| && i <= |a.children|
    ensures p in ChildCalls(a, b, i) <==>
      exists j :: i <= j < |a.children| && p in MeshCalls(a.children[j], b.children[j])
    decreases |a.children| - i
  {
    if i < |a.children| {
      var here := MeshCalls(a.children[i], b.children[i]);
      ChildCallsMember(a, b, i + 1, p);
      assert ChildCalls(a, b, i) == here + ChildCalls(a, b, i + 1);
      assert p in ChildCalls(a, b, i) <==> p in here || p in ChildCalls(a, b, i + 1);
      if p in here {
        assert i <= i < |a.children| && p in MeshCalls(a.children[i], b.children[i]);
      }
    }
  }

  /** Every call is made on the pair at some reached path, and that pair is a mesh pair. */
  lemma {:induction false} CalledIsReached<V>(a: Node<V>, b: Node<V>, p: (Node<V>, Node<V>))
    requires p in MeshCalls(a, b)
    ensures MeshPair(p.0, p.1)
    ensures exists path :: Reached(a, b, path) && PairAt(a, b, path) == p
    decreases a
  {
    if MeshPair(a, b) && p == (a, b) {
      assert Reached(a, b, []) && PairAt(a, b, []) == p;
    } else {
      assert |a.children| == |b.children| && p in ChildCalls(a, b, 0);
      ChildCallsMember(a, b, 0, p);
      var j :| 0 <= j < |a.children| && p in MeshCalls(a.children[j], b.children[j]);
      CalledIsReached(a.children[j], b.children[j], p);
      var rest :| Reached(a.children[j], b.children[j], rest) && PairAt(a.children[j], b.children[j], rest) == p;
      var path := [j] + rest;
      assert path[0] == j && path[1..] == rest;
      assert Reached(a, b, path) && PairAt(a, b, path) == p;
    }
  }

  /** The mesh pair at every reached path is called. */
  lemma {:induction false} ReachedIsCalled<V>(a: Node<V>, b: Node<V>, path: seq<nat>)
    requires Reached(a, b, path) && MeshPair(PairAt(a, b, path).0, PairAt(a, b, path).1)
    ensures PairAt(a, b, path) in MeshCalls(a, b)
    decreases |path|
  {
    if path != [] {
      var j := path[0];
      ReachedIsCalled(a.children[j], b.children[j], path[1..]);
      ChildCallsMember(a, b, 0, PairAt(a, b, path));
    }
  }

  /**
   * ProcessMesh is called on a pair exactly when the pair sits at the same
   * path in both trees, that path is reached, and both nodes carry a mesh
   * attribute (so their types agree). A clash or a child-count mismatch
   * therefore hides only the pair's own descendants, never its siblings'.
   */
  lemma CallsExactly<V>(a: Node<V>, b: Node<V>, p: (Node<V>, Node<V>))
    ensures p in MeshCalls(a, b) <==>
      exists path :: Reached(a, b, path) && PairAt(a, b, path) == p && MeshPair(p.0, p.1)
  {
    if p in MeshCalls(a, b) {
      CalledIsReached(a, b, p);
    }
    if exists path :: Reached(a, b, path) && PairAt(a, b, path) == p && MeshPair(p.0, p.1) {
      var path :| Reached(a, b, path) && PairAt(a, b, path) == p && MeshPair(p.0, p.1);
      ReachedIsCalled(a, b, path);
    }
  }

  /** A path of child indices that exists in the tree `a`. */
  predicate PathIn<V>(a: Node<V>, path: seq<nat>)
    decreases |path|
  {
    path == [] || (path[0] < |a.children| && PathIn(a.children[path[0]], path[1..]))
  }

  /** The two trees have the same shape and the same attribute type (or none) at every position. */
  predicate Matching<V>(a: Node<V>, b: Node<V>)
    decreases a
  {
    a.attribute.Some? == b.attribute.Some? &&
    (a.attribute.Some? ==> a.attribute.value.kind == b.attribute.value.kind) &&
    |a.children| == |b.children| &&
    forall i :: 0 <= i < |a.children| ==> Matching(a.children[i], b.children[i])
  }

  /**
   * On matching trees the walk reaches every position, so (by CallsExactly)
   * every mesh node of the first tree is processed with the node at the same
   * position of the second.
   */
  lemma {:induction false} MatchingReachesAll<V>(a: Node<V>, b: Node<V>, path: seq<nat>)
    requires Matching(a, b) && PathIn(a, path)
    ensures Reached(a, b, path)
    ensures MeshPair(PairAt(a, b, path).0, PairAt(a, b, path).1) <==>
      var n := PairAt(a, b, path).0; n.attribute.Some? && n.attribute.value.kind == MeshType
    decreases |path|
  {
    if path != [] {
      MatchingReachesAll(a.children[path[0]], b.children[path[0]], path[1..]);
    }
  }

  /** Unless the attributes clash, the node's own call comes first and the children's calls follow. */
  lemma OwnCallFirst<V>(a: Node<V>, b: Node<V>)
    requires !AttributesClash(a, b) && |a.children| == |b.children|
    ensures MeshCalls(a, b) == (if MeshPair(a, b) then [(a, b)] else []) + ChildCalls(a, b, 0)
  {
  }

  /** The calls for children i, i+1, ... are child i's calls followed by those for i+1, ... */
  lemma ChildCallsUnfold<V>(a: Node<V>, b: Node<V>, i: nat)
    requires |a.children| == |b.children| && i < |a.children|
    ensures ChildCalls(a, b, i) == MeshCalls(a.children[i], b.children[i]) + ChildCalls(a, b, i + 1)
    ensures forall p | p in MeshCalls(a.children[i], b.children[i]) :: p in ChildCalls(a, b, i)
  {
  }

  lemma AppendAssoc<T>(x: seq<T>, y: seq<T>, z: seq<T>)
    ensures (x + y) + z == x + (y + z)
  {
  }

  /** The meshes of the first tree that the calls hand to ProcessMesh as destination. */
  ghost function DestMeshes<V>(calls: seq<(Node<V>, Node<V>)>): set<Mesh<V>>
  {
    set p | p in calls && GetMesh(p.0) != null :: GetMesh(p.0)
  }

  /**
   * ProcessNode on a node of the first scene and a node of the second. It
   * makes exactly the ProcessMesh calls of `MeshCalls(a, b)`, in that order
   * (each call records itself in `log`), and changes no mesh but their
   * destinations. Afterwards the destination of every call whose two meshes
   * exist carries its normal element's modes on its tangent and binormal
   * elements. `ready` holds node pairs whose meshes are ready for a transfer,
   * this walk's own calls among them; all of them are still ready afterwards,
   * and a destination mesh among them that carried its normal's modes still
   * does.
   */
  method ProcessNode<V>(a: Node<V>, b: Node<V>, ops: VectorOps<V>, blank: V,
                        ghost ready: set<(Node<V>, Node<V>)>, ghost log: CallLog<V>)
    requires forall p | p in MeshCalls(a, b) :: p in ready
    requires forall p | p in ready :: allocated(GetMesh(p.0)) && allocated(GetMesh(p.1))
    requires forall p | p in ready :: Ready(GetMesh(p.0), GetMesh(p.1))
    modifies DestMeshes(MeshCalls(a, b)), log
    ensures log.calls == old(log.calls) + MeshCalls(a, b)
    ensures forall p | p in MeshCalls(a, b) && GetMesh(p.0) != null && GetMesh(p.1) != null ::
      TakesNormalModes(GetMesh(p.0))
    ensures forall p | p in ready :: Ready(GetMesh(p.0), GetMesh(p.1))
    ensures forall p | p in ready && GetMesh(p.0) != null && old(TakesNormalModes(GetMesh(p.0))) ::
      TakesNormalModes(GetMesh(p.0))
    decreases a, |a.children| + 1
  {
    ghost var done: seq<(Node<V>, Node<V>)> := [];
    if a.attribute.Some? && b.attribute.Some? {
      if a.attribute.value.kind != b.attribute.value.kind {
        assert old(log.calls) + [] == old(log.calls);
        return;
      }
      if a.attribute.value.kind == MeshType {
        assert (a, b) in MeshCalls(a, b);
        ProcessMesh(a, b, ops, blank, log);
        done := [(a, b)];
      }
    }
    if |a.children| != |b.children| {
      return;
    }
    OwnCallFirst(a, b);
    var i := 0;
    while i < |a.children|
      invariant i <= |a.children|
      invariant log.calls == old(log.calls) + done
      invariant done + ChildCalls(a, b, i) == MeshCalls(a, b)
      invariant forall p | p in done :: p in ready
      invariant forall p | p in done && GetMesh(p.0) != null && GetMesh(p.1) != null ::
        TakesNormalModes(GetMesh(p.0))
      invariant forall p | p in ready :: Ready(GetMesh(p.0), GetMesh(p.1))
      invariant forall p | p in ready && GetMesh(p.0) != null && old(TakesNormalModes(GetMesh(p.0))) ::
        TakesNormalModes(GetMesh(p.0))
    {
      ChildCallsUnfold(a, b, i);
      assert forall p | p in ChildCalls(a, b, i) :: p in MeshCalls(a, b);
      assert DestMeshes(MeshCalls(a.children[i], b.children[i])) <= DestMeshes(MeshCalls(a, b));
      ghost var before := done;
      ghost var childCalls := MeshCalls(a.children[i], b.children[i]);
      ProcessNode(a.children[i], b.children[i], ops, blank, ready, log);
      done := done + childCalls;
      AppendAssoc(old(log.calls), before, childCalls);
      AppendAssoc(before, childCalls, ChildCalls(a, b, i + 1));
      i := i + 1;
    }
  }
}
