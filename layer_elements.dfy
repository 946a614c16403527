/**
 * Layer elements: the per-mesh attribute arrays (normals, tangents, binormals)
 * that the tangent transfer reads and writes, and the rule by which a logical
 * position is resolved to a slot of an element's value array.
 */
module LayerElements {

  /** Which domain an element's values are attached to (the SDK's mapping modes). */
  datatype MappingMode = NoMapping | ByControlPoint | ByPolygonVertex | ByPolygon | ByEdge | AllSame

  /** How a position of the mapping domain reaches a value (the SDK's reference modes). */
  datatype ReferenceMode = Direct | Index | IndexToDirect

  /**
   * The SDK's vector operations on its opaque four-component vector type `V`.
   * Nothing is assumed about them: every property below holds for all choices.
   */
  datatype VectorOps<!V> = VectorOps(normalize: V -> V, cross: (V, V) -> V)

  /**
   * One geometry layer element (normal, tangent or binormal): its mapping and
   * reference modes, its index array and its direct (value) array.
   */
  datatype LayerElement<V> = LayerElement(mapping: MappingMode, reference: ReferenceMode,
                                          index: seq<int>, direct: seq<V>)

  /**
   * A newly created element. Only its empty index and direct arrays matter
   * here: the transfer resizes the direct array and sets both modes itself.
   */
  function NewElement<V>(): LayerElement<V>
  {
    LayerElement(NoMapping, Direct, [], [])
  }

  /**
   * The slot that position `k` of the mapping domain resolves to: `k` itself
   * under direct reference, `index[k]` under index-to-direct, and 0 for any
   * other reference mode (the variable's initial value in ProcessMesh).
   */
  function ResolveIndex(reference: ReferenceMode, index: seq<int>, k: nat): int
    requires reference == IndexToDirect ==> k < |index|
  {
    if reference == Direct then k
    else if reference == IndexToDirect then index[k]
    else 0
  }

  /**
   * The direct array after `SetCount(count)`: existing values up to `count`
   * are kept and new slots hold `blank`.
   */
  function Resized<V>(values: seq<V>, count: nat, blank: V): (r: seq<V>)
    ensures |r| == count
    ensures forall i :: 0 <= i < |r| ==> r[i] == if i < |values| then values[i] else blank
  {
    if count <= |values| then values[..count] else values + seq(count - |values|, _ => blank)
  }
}
