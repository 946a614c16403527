/**
 * The tangent transfer of ProcessMesh: the destination mesh's tangent and
 * binormal elements are resized to the source normal element's direct-array
 * count, take the destination normal element's modes, and then receive, for
 * every position walked, the normalized source normal and the destination
 * normal crossed with it (normal on the left).
 *
 * The specification is a fold over the walked positions (`TangentsAfter`,
 * `BinormalsAfter`); the method `ProcessMesh` is proved to produce exactly it,
 * and the lemmas say what the fold leaves in every slot.
 */
module TangentTransfer {

  import opened Options
  import opened LayerElements
  import opened Scene

  /** The number of polygon-vertex occurrences of a mesh: the sum of its polygon sizes. */
  function PolygonVertexCount(sizes: seq<nat>): nat
  {
    if sizes == [] then 0 else PolygonVertexCount(sizes[..|sizes| - 1]) + sizes[|sizes| - 1]
  }

  /**
   * The number of positions the transfer walks on `dst`: its control points when
   * the source normals are mapped by control point, its polygon-vertex
   * occurrences when they are mapped by polygon vertex, and none otherwise.
   */
  function OccurrenceCount<V>(srcMapping: MappingMode, dst: Mesh<V>): nat
  {
    if srcMapping == ByControlPoint then dst.controlPointCount
    else if srcMapping == ByPolygonVertex then PolygonVertexCount(dst.polygonSizes)
    else 0
  }

  /**
   * What the transfer reads: the source normal element's reference mode,
   * index array and direct array, the destination normal element's direct
   * array, and the reference mode and index array that resolve write slots.
   */
  datatype Transfer<V> = Transfer(
    srcRef: ReferenceMode, srcIndex: seq<int>, srcNormals: seq<V>,
    dstNormals: seq<V>,
    slotRef: ReferenceMode, slotIndex: seq<int>)

  /**
   * Position `k` can be processed: both index arrays are long enough where
   * they are consulted, the resolved normal index is inside both normal direct
   * arrays, and the resolved slot is inside the resized tangent array.
   */
  predicate Addressable<V>(t: Transfer<V>, k: nat)
  {
    (t.srcRef == IndexToDirect ==> k < |t.srcIndex|) &&
    (t.slotRef == IndexToDirect ==> k < |t.slotIndex|) &&
    0 <= ResolveIndex(t.srcRef, t.srcIndex, k) < |t.srcNormals| &&
    ResolveIndex(t.srcRef, t.srcIndex, k) < |t.dstNormals| &&
    0 <= ResolveIndex(t.slotRef, t.slotIndex, k) < |t.srcNormals|
  }

  predicate AllAddressable<V>(t: Transfer<V>, count: nat)
  {
    forall k: nat :: k < count ==> Addressable(t, k)
  }

  /** The normal index read at position `k`. */
  function NormalAt<V>(t: Transfer<V>, k: nat): nat
    requires Addressable(t, k)
  {
    ResolveIndex(t.srcRef, t.srcIndex, k)
  }

  /** The tangent/binormal slot written at position `k`. */
  function SlotAt<V>(t: Transfer<V>, k: nat): nat
    requires Addressable(t, k)
  {
    ResolveIndex(t.slotRef, t.slotIndex, k)
  }

  /** The tangent written at position `k`: the source normal, normalized. */
  function TangentAt<V>(t: Transfer<V>, ops: VectorOps<V>, k: nat): V
    requires Addressable(t, k)
  {
    ops.normalize(t.srcNormals[NormalAt(t, k)])
  }

  /** The binormal written at position `k`: destination normal cross tangent, normal on the left. */
  function BinormalAt<V>(t: Transfer<V>, ops: VectorOps<V>, k: nat): V
    requires Addressable(t, k)
  {
    ops.cross(t.dstNormals[NormalAt(t, k)], TangentAt(t, ops, k))
  }

  /** The tangent direct array after positions 0 .. count-1 have been written, in order. */
  function TangentsAfter<V>(t: Transfer<V>, ops: VectorOps<V>, tangents: seq<V>, count: nat): (r: seq<V>)
    requires AllAddressable(t, count) && |tangents| == |t.srcNormals|
    ensures |r| == |tangents|
  {
    if count == 0 then tangents
    else TangentsAfter(t, ops, tangents, count - 1)[SlotAt(t, count - 1) := TangentAt(t, ops, count - 1)]
  }

  /** The binormal direct array after positions 0 .. count-1 have been written, in order. */
  function BinormalsAfter<V>(t: Transfer<V>, ops: VectorOps<V>, binormals: seq<V>, count: nat): (r: seq<V>)
    requires AllAddressable(t, count) && |binormals| == |t.srcNormals|
    ensures |r| == |binormals|
  {
    if count == 0 then binormals
    else BinormalsAfter(t, ops, binormals, count - 1)[SlotAt(t, count - 1) := BinormalAt(t, ops, count - 1)]
  }

  /**
   * The last of positions 0 .. count-1 that writes slot `s`, if any: when
   * several positions share a slot through the index array, the last one wins.
   */
  function LastWrite<V>(t: Transfer<V>, s: int, count: nat): (w: Option<nat>)
    requires AllAddressable(t, count)
    ensures w.Some? ==> w.value < count && SlotAt(t, w.value) == s
    ensures w.Some? ==> forall j: nat :: w.value < j < count ==> SlotAt(t, j) != s
    ensures w.None? ==> forall j: nat :: j < count ==> SlotAt(t, j) != s
  {
    if count == 0 then None
    else if SlotAt(t, count - 1) == s then Some(count - 1)
    else LastWrite(t, s, count - 1)
  }

  /**
   * Every slot of the result: a slot no position writes keeps its resized
   * value; a written slot holds the normalized source normal of its last
   * writer `j`, and the binormal in the SAME slot is the cross product of the
   * destination normal read at `j`'s normal index with that very tangent.
   */
  lemma {:induction false} SlotContents<V>(t: Transfer<V>, ops: VectorOps<V>, tangents: seq<V>, binormals: seq<V>, count: nat, s: nat)
    requires AllAddressable(t, count)
    requires |tangents| == |t.srcNormals| && |binormals| == |t.srcNormals| && s < |t.srcNormals|
    ensures LastWrite(t, s, count).None? ==>
      TangentsAfter(t, ops, tangents, count)[s] == tangents[s] &&
      BinormalsAfter(t, ops, binormals, count)[s] == binormals[s]
    ensures LastWrite(t, s, count).Some? ==>
      var j := LastWrite(t, s, count).value;
      TangentsAfter(t, ops, tangents, count)[s] == ops.normalize(t.srcNormals[NormalAt(t, j)]) &&
      BinormalsAfter(t, ops, binormals, count)[s] ==
        ops.cross(t.dstNormals[NormalAt(t, j)], TangentsAfter(t, ops, tangents, count)[s])
  {
    if count > 0 {
      SlotContents(t, ops, tangents, binormals, count - 1, s);
    }
  }

  /**
   * Direct source reference and direct slot reference: position `v` reads
   * normal `v` and writes slot `v`, so slot `v` holds the normalized source
   * normal at `v` and the cross product of the destination normal at `v` with it.
   */
  lemma DirectAddressing<V>(t: Transfer<V>, ops: VectorOps<V>, tangents: seq<V>, binormals: seq<V>, count: nat, v: nat)
    requires t.srcRef == Direct && t.slotRef == Direct
    requires AllAddressable(t, count) && v < count
    requires |tangents| == |t.srcNormals| && |binormals| == |t.srcNormals|
    ensures v < |t.srcNormals| && v < |t.dstNormals|
    ensures TangentsAfter(t, ops, tangents, count)[v] == ops.normalize(t.srcNormals[v])
    ensures BinormalsAfter(t, ops, binormals, count)[v] == ops.cross(t.dstNormals[v], ops.normalize(t.srcNormals[v]))
  {
    assert Addressable(t, v);
    SlotContents(t, ops, tangents, binormals, count, v);
  }

  /**
   * The transfer inputs of a mesh pair: the source normal element, the
   * destination normal direct array (read at the SOURCE's resolved index), and
   * the destination normal element's reference mode, which the tangent element
   * takes over, with the tangent element's own index array.
   */
  function TransferOf<V>(dst: Mesh<V>, src: Mesh<V>): Transfer<V>
    requires dst.normal.Some? && src.normal.Some?
    reads dst
  {
    Transfer(src.normal.value.reference, src.normal.value.index, src.normal.value.direct,
             dst.normal.value.direct,
             dst.normal.value.reference, dst.TangentIndex())
  }

  /** The same inputs, read from the element values while the transfer runs. */
  function TransferFrom<V>(srcNormal: LayerElement<V>, dstNormal: LayerElement<V>, tangent: LayerElement<V>): Transfer<V>
  {
    Transfer(srcNormal.reference, srcNormal.index, srcNormal.direct,
             dstNormal.direct,
             tangent.reference, tangent.index)
  }

  /**
   * What ProcessMesh needs of a mesh pair: when both meshes exist, both normal
   * elements exist and every read and write is in bounds. A missing mesh
   * needs nothing.
   */
  ghost predicate Ready<V>(dst: Mesh?<V>, src: Mesh?<V>)
    reads dst
  {
    dst != null && src != null ==>
      dst.normal.Some? && src.normal.Some? &&
      AllAddressable(TransferOf(dst, src), OccurrenceCount(src.normal.value.mapping, dst))
  }

  lemma {:induction false} PolygonPrefixBound(sizes: seq<nat>, p: nat)
    requires p < |sizes|
    ensures PolygonVertexCount(sizes[..p]) + sizes[p] <= PolygonVertexCount(sizes)
    decreases |sizes|
  {
    var n := |sizes|;
    assert sizes[..n][..p + 1] == sizes[..p + 1];
    assert sizes[..p + 1][..p] == sizes[..p];
    if p + 1 < n {
      PolygonPrefixBound(sizes[..n - 1], p);
      assert sizes[..n - 1][..p] == sizes[..p];
    } else {
      assert sizes[..p + 1] == sizes;
    }
  }

  /** One position: resolve the normal index and the slot, then write tangent and binormal there. */
  method WriteOccurrence<V>(dst: Mesh<V>, srcNormal: LayerElement<V>, dstNormal: LayerElement<V>,
                            ops: VectorOps<V>, ghost t: Transfer<V>, k: nat)
    requires dst.tangent.Some? && dst.binormal.Some?
    requires TransferFrom(srcNormal, dstNormal, dst.tangent.value) == t && Addressable(t, k)
    requires |dst.tangent.value.direct| == |t.srcNormals| && |dst.binormal.value.direct| == |t.srcNormals|
    modifies dst`tangent, dst`binormal
    ensures dst.tangent == Some(old(dst.tangent.value).(
      direct := old(dst.tangent.value.direct)[SlotAt(t, k) := TangentAt(t, ops, k)]))
    ensures dst.binormal == Some(old(dst.binormal.value).(
      direct := old(dst.binormal.value.direct)[SlotAt(t, k) := BinormalAt(t, ops, k)]))
  {
    var n := ResolveIndex(srcNormal.reference, srcNormal.index, k);
    var normal := dstNormal.direct[n];
    var tan := ops.normalize(srcNormal.direct[n]);
    var bitangent := ops.cross(normal, tan);
    var tangent := dst.tangent.value;
    var slot := ResolveIndex(tangent.reference, tangent.index, k);
    dst.tangent := Some(tangent.(direct := tangent.direct[slot := tan]));
    var binormal := dst.binormal.value;
    dst.binormal := Some(binormal.(direct := binormal.direct[slot := bitangent]));
  }

  /** The by-control-point walk: positions 0 .. controlPointCount-1 of the destination mesh. */
  method FillByControlPoint<V>(dst: Mesh<V>, srcNormal: LayerElement<V>, dstNormal: LayerElement<V>,
                               ops: VectorOps<V>, ghost t: Transfer<V>)
    requires dst.tangent.Some? && dst.binormal.Some?
    requires TransferFrom(srcNormal, dstNormal, dst.tangent.value) == t
    requires AllAddressable(t, dst.controlPointCount)
    requires |dst.tangent.value.direct| == |t.srcNormals| && |dst.binormal.value.direct| == |t.srcNormals|
    modifies dst`tangent, dst`binormal
    ensures dst.tangent == Some(old(dst.tangent.value).(
      direct := TangentsAfter(t, ops, old(dst.tangent.value.direct), dst.controlPointCount)))
    ensures dst.binormal == Some(old(dst.binormal.value).(
      direct := BinormalsAfter(t, ops, old(dst.binormal.value.direct), dst.controlPointCount)))
  {
    ghost var tangent0, binormal0 := dst.tangent.value, dst.binormal.value;
    var v := 0;
    while v < dst.controlPointCount
      invariant v <= dst.controlPointCount
      invariant dst.tangent == Some(tangent0.(direct := TangentsAfter(t, ops, tangent0.direct, v)))
      invariant dst.binormal == Some(binormal0.(direct := BinormalsAfter(t, ops, binormal0.direct, v)))
    {
      assert Addressable(t, v);
      WriteOccurrence(dst, srcNormal, dstNormal, ops, t, v);
      v := v + 1;
    }
  }

  /**
   * The by-polygon-vertex walk: a running counter starts at 0, is used as the
   * position for each vertex of each polygon in order, and is incremented
   * once per polygon vertex and never reset, so the positions written are
   * exactly 0 .. PolygonVertexCount(polygonSizes)-1.
   */
  method FillByPolygonVertex<V>(dst: Mesh<V>, srcNormal: LayerElement<V>, dstNormal: LayerElement<V>,
                                ops: VectorOps<V>, ghost t: Transfer<V>)
    requires dst.tangent.Some? && dst.binormal.Some?
    requires TransferFrom(srcNormal, dstNormal, dst.tangent.value) == t
    requires AllAddressable(t, PolygonVertexCount(dst.polygonSizes))
    requires |dst.tangent.value.direct| == |t.srcNormals| && |dst.binormal.value.direct| == |t.srcNormals|
    modifies dst`tangent, dst`binormal
    ensures dst.tangent == Some(old(dst.tangent.value).(
      direct := TangentsAfter(t, ops, old(dst.tangent.value.direct), PolygonVertexCount(dst.polygonSizes))))
    ensures dst.binormal == Some(old(dst.binormal.value).(
      direct := BinormalsAfter(t, ops, old(dst.binormal.value.direct), PolygonVertexCount(dst.polygonSizes))))
  {
    ghost var tangent0, binormal0 := dst.tangent.value, dst.binormal.value;
    var polygonSizes := dst.polygonSizes;
    var counter := 0;
    var p := 0;
    while p < |polygonSizes|
      invariant p <= |polygonSizes|
      invariant counter == PolygonVertexCount(polygonSizes[..p])
      invariant counter <= PolygonVertexCount(polygonSizes)
      invariant dst.tangent == Some(tangent0.(direct := TangentsAfter(t, ops, tangent0.direct, counter)))
      invariant dst.binormal == Some(binormal0.(direct := BinormalsAfter(t, ops, binormal0.direct, counter)))
    {
      PolygonPrefixBound(polygonSizes, p);
      counter := FillPolygon(dst, srcNormal, dstNormal, ops, t, tangent0, binormal0, counter, polygonSizes[p]);
      assert polygonSizes[..p + 1][..p] == polygonSizes[..p];
      p := p + 1;
    }
    assert polygonSizes[..p] == polygonSizes;
  }

  /**
   * The vertices of one polygon: positions `counter` .. `counter + size - 1`
   * are written in order, and the counter is returned advanced by `size`.
   */
  method FillPolygon<V>(dst: Mesh<V>, srcNormal: LayerElement<V>, dstNormal: LayerElement<V>,
                        ops: VectorOps<V>, ghost t: Transfer<V>,
                        ghost tangent0: LayerElement<V>, ghost binormal0: LayerElement<V>,
                        counter: nat, size: nat)
    returns (next: nat)
    requires |tangent0.direct| == |t.srcNormals| && |binormal0.direct| == |t.srcNormals|
    requires TransferFrom(srcNormal, dstNormal, tangent0) == t
    requires AllAddressable(t, counter + size)
    requires dst.tangent == Some(tangent0.(direct := TangentsAfter(t, ops, tangent0.direct, counter)))
    requires dst.binormal == Some(binormal0.(direct := BinormalsAfter(t, ops, binormal0.direct, counter)))
    modifies dst`tangent, dst`binormal
    ensures next == counter + size
    ensures dst.tangent == Some(tangent0.(direct := TangentsAfter(t, ops, tangent0.direct, next)))
    ensures dst.binormal == Some(binormal0.(direct := BinormalsAfter(t, ops, binormal0.direct, next)))
  {
    next := counter;
    var i := 0;
    while i < size
      invariant i <= size && next == counter + i
      invariant dst.tangent == Some(tangent0.(direct := TangentsAfter(t, ops, tangent0.direct, next)))
      invariant dst.binormal == Some(binormal0.(direct := BinormalsAfter(t, ops, binormal0.direct, next)))
    {
      assert Addressable(t, next);
      WriteOccurrence(dst, srcNormal, dstNormal, ops, t, next);
      next := next + 1;
      i := i + 1;
    }
  }

  /**
   * The part of ProcessMesh before the walk: a missing tangent or binormal
   * element is created empty, both direct arrays are resized to the source
   * normal direct-array count, and both elements take the destination normal
   * element's mapping and reference modes. Index arrays are untouched.
   */
  method PrepareElements<V>(dst: Mesh<V>, src: Mesh<V>, blank: V)
    requires dst.normal.Some? && src.normal.Some?
    modifies dst`tangent, dst`binormal
    ensures dst.tangent == Some(LayerElement(dst.normal.value.mapping, dst.normal.value.reference,
      old(dst.TangentIndex()), Resized(old(dst.TangentValues()), |src.normal.value.direct|, blank)))
    ensures dst.binormal == Some(LayerElement(dst.normal.value.mapping, dst.normal.value.reference,
      old(dst.BinormalIndex()), Resized(old(dst.BinormalValues()), |src.normal.value.direct|, blank)))
  {
    var srcNormal := src.normal.value;
    var dstNormal := dst.normal.value;
    if dst.tangent.None? {
      dst.tangent := Some(NewElement());
    }
    if dst.binormal.None? {
      dst.binormal := Some(NewElement());
    }
    var size := |srcNormal.direct|;
    dst.tangent := Some(dst.tangent.value.(direct := Resized(dst.tangent.value.direct, size, blank)));
    dst.binormal := Some(dst.binormal.value.(direct := Resized(dst.binormal.value.direct, size, blank)));
    dst.tangent := Some(dst.tangent.value.(mapping := dstNormal.mapping));
    dst.binormal := Some(dst.binormal.value.(mapping := dstNormal.mapping));
    dst.tangent := Some(dst.tangent.value.(reference := dstNormal.reference));
    dst.binormal := Some(dst.binormal.value.(reference := dstNormal.reference));
  }

  /**
   * The mesh's tangent and binormal elements exist and carry its normal
   * element's mapping and reference modes, as ProcessMesh leaves them.
   */
  predicate TakesNormalModes<V>(m: Mesh<V>)
    reads m
  {
    m.normal.Some? && m.tangent.Some? && m.binormal.Some? &&
    m.tangent.value.mapping == m.normal.value.mapping &&
    m.tangent.value.reference == m.normal.value.reference &&
    m.binormal.value.mapping == m.normal.value.mapping &&
    m.binormal.value.reference == m.normal.value.reference
  }

  /**
   * ProcessMesh on a node pair: `a` from the first scene gives the
   * destination mesh, `b` from the second the source mesh. The call is
   * recorded in `log`. A missing mesh changes nothing. Otherwise the
   * destination's tangent and binormal elements end up with the destination
   * normal element's modes, their own index arrays (none when created), and
   * direct arrays of the source normal direct-array count holding exactly the
   * in-order writes of every walked position. Only the destination mesh
   * changes, and its tangent index array is kept, so every mesh pair that
   * was ready for a transfer still is, and every mesh that carried its
   * normal's modes still does.
   */
  method ProcessMesh<V>(a: Node<V>, b: Node<V>, ops: VectorOps<V>, blank: V, ghost log: CallLog<V>)
    requires Ready(GetMesh(a), GetMesh(b))
    modifies GetMesh(a), log
    ensures log.calls == old(log.calls) + [(a, b)]
    ensures var dst, src := GetMesh(a), GetMesh(b);
      dst != null && src == null ==> unchanged(dst)
    ensures var dst, src := GetMesh(a), GetMesh(b);
      dst != null && src != null ==>
      dst.tangent == Some(LayerElement(dst.normal.value.mapping, dst.normal.value.reference,
        old(dst.TangentIndex()),
        TangentsAfter(old(TransferOf(dst, src)), ops,
                      Resized(old(dst.TangentValues()), |src.normal.value.direct|, blank),
                      OccurrenceCount(src.normal.value.mapping, dst)))) &&
      dst.binormal == Some(LayerElement(dst.normal.value.mapping, dst.normal.value.reference,
        old(dst.BinormalIndex()),
        BinormalsAfter(old(TransferOf(dst, src)), ops,
                       Resized(old(dst.BinormalValues()), |src.normal.value.direct|, blank),
                       OccurrenceCount(src.normal.value.mapping, dst))))
    ensures var dst, src := GetMesh(a), GetMesh(b);
      dst != null && src != null ==>
      TakesNormalModes(dst) &&
      |dst.TangentValues()| == |src.normal.value.direct| && |dst.BinormalValues()| == |src.normal.value.direct|
    ensures var dst, src := GetMesh(a), GetMesh(b);
      dst != null && src != null && OccurrenceCount(src.normal.value.mapping, dst) == 0 ==>
      dst.TangentValues() == Resized(old(dst.TangentValues()), |src.normal.value.direct|, blank) &&
      dst.BinormalValues() == Resized(old(dst.BinormalValues()), |src.normal.value.direct|, blank)
    ensures var dst := GetMesh(a); dst != null ==> dst.TangentIndex() == old(dst.TangentIndex())
    ensures forall m1: Mesh?<V>, m2: Mesh?<V> | old(allocated(m1)) && old(allocated(m2)) && old(Ready(m1, m2)) ::
      Ready(m1, m2)
    ensures forall m: Mesh<V> | old(allocated(m)) && old(TakesNormalModes(m)) :: TakesNormalModes(m)
  {
    log.calls := log.calls + [(a, b)];
    var dst := GetMesh(a);
    var src := GetMesh(b);
    if dst == null || src == null {
      return;
    }
    ghost var t := TransferOf(dst, src);
    PrepareElements(dst, src, blank);
    var srcNormal := src.normal.value;
    var dstNormal := dst.normal.value;
    if srcNormal.mapping == ByControlPoint {
      FillByControlPoint(dst, srcNormal, dstNormal, ops, t);
    } else if srcNormal.mapping == ByPolygonVertex {
      FillByPolygonVertex(dst, srcNormal, dstNormal, ops, t);
    }
  }
}
