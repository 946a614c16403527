/**
 * The scene graph as the tree walk sees it: nodes with an optional attribute
 * and an ordered list of children, and the meshes that mesh attributes carry.
 */
module Scene {

  import opened Options
  import opened LayerElements

  /** The SDK's node attribute types. */
  datatype AttributeType =
    | UnknownType | NullType | MarkerType | SkeletonType | MeshType | NurbsType | PatchType
    | CameraType | CameraStereoType | CameraSwitcherType | LightType | OpticalReferenceType
    | OpticalMarkerType | NurbsCurveType | TrimNurbsSurfaceType | BoundaryType
    | NurbsSurfaceType | ShapeType | LODGroupType | SubDivType | CachedEffectType | LineType

  /**
   * A mesh: its topology, its first normal element, and its first tangent and
   * binormal elements, which the transfer creates when they are missing and
   * then updates in place.
   */
  class Mesh<V> {
    const controlPointCount: nat
    /** The number of vertices of each polygon, in polygon order. */
    const polygonSizes: seq<nat>
    const normal: Option<LayerElement<V>>
    var tangent: Option<LayerElement<V>>
    var binormal: Option<LayerElement<V>>

    /** The tangent element's index array; a missing element has none. */
    function TangentIndex(): seq<int>
      reads this
    {
      if tangent.None? then [] else tangent.value.index
    }

    /** The binormal element's index array; a missing element has none. */
    function BinormalIndex(): seq<int>
      reads this
    {
      if binormal.None? then [] else binormal.value.index
    }

    /** The tangent element's values; a missing element has none. */
    function TangentValues(): seq<V>
      reads this
    {
      if tangent.None? then [] else tangent.value.direct
    }

    /** The binormal element's values; a missing element has none. */
    function BinormalValues(): seq<V>
      reads this
    {
      if binormal.None? then [] else binormal.value.direct
    }
  }

  /** A node attribute: its type and, for a mesh attribute, the mesh. */
  datatype Attribute<V> = Attribute(kind: AttributeType, mesh: Mesh?<V>)

  /** A scene node: an optional attribute and its children in order. */
  datatype Node<V> = Node(attribute: Option<Attribute<V>>, children: seq<Node<V>>)

  /** The node's mesh, or null when its attribute is missing or is not a mesh. */
  function GetMesh<V>(n: Node<V>): Mesh?<V>
  {
    match n.attribute
    case Some(a) => if a.kind == MeshType then a.mesh else null
    case None => null
  }

  /**
   * The node pairs ProcessMesh has been entered with, in order. It exists for
   * the proofs only: ProcessMesh appends to it, so a contract about the log
   * is a contract about the calls actually made.
   */
  class CallLog<V> {
    ghost var calls: seq<(Node<V>, Node<V>)>
  }
}
