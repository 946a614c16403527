/**
 * ImportExport: load the scene to be written and the scene that supplies
 * the normals, transfer the second scene's mesh normals onto the first
 * scene's tangent and binormal layers with ProcessNode, then save the first
 * scene. The loads and the export itself are I/O of the SDK: whether each
 * load succeeded is a parameter, and the result reports the writer format
 * the export is attempted with, or None when no export is attempted.
 */
module ImportExportFlow {

  import opened Options
  import opened LayerElements
  import opened Scene
  import opened TangentTransfer
  import opened SceneWalk
  import opened PluginRegistry
  import opened WriterChoice

  /**
   * `first` and `second` are the root nodes of the two loaded scenes; `log`
   * records the ProcessMesh calls. A failed load ends the run before any
   * transfer and before the export. Otherwise the walk makes exactly the
   * calls of `MeshCalls(first, second)`, after which every destination mesh
   * of a call whose two meshes exist carries its normal element's modes, and
   * the export is attempted whatever the walk met (a mismatch ends only the
   * call that met it), with media not embedded.
   */
  method ImportExport<V>(firstLoaded: bool, secondLoaded: bool,
                         first: Node<V>, second: Node<V>,
                         ops: VectorOps<V>, blank: V,
                         registry: Registry, writeFormat: int, ghost log: CallLog<V>)
    returns (exportFormat: Option<int>)
    requires firstLoaded && secondLoaded ==>
      forall p | p in MeshCalls(first, second) ::
        allocated(GetMesh(p.0)) && allocated(GetMesh(p.1)) && Ready(GetMesh(p.0), GetMesh(p.1))
    modifies DestMeshes(MeshCalls(first, second)), log
    ensures !(firstLoaded && secondLoaded) ==> exportFormat == None
    ensures !(firstLoaded && secondLoaded) ==>
      unchanged(log) && forall m | m in DestMeshes(MeshCalls(first, second)) :: unchanged(m)
    ensures firstLoaded && secondLoaded ==>
      log.calls == old(log.calls) + MeshCalls(first, second) &&
      (forall p | p in MeshCalls(first, second) && GetMesh(p.0) != null && GetMesh(p.1) != null ::
        TakesNormalModes(GetMesh(p.0))) &&
      exportFormat.Some? && IsChosenFormat(registry, writeFormat, false, exportFormat.value)
  {
    exportFormat := None;
    if !firstLoaded {
      return;
    }
    if !secondLoaded {
      return;
    }
    ghost var ready := set p | p in MeshCalls(first, second);
    ProcessNode(first, second, ops, blank, ready, log);
    var chosen := ChooseWriterFormat(registry, writeFormat, false);
    exportFormat := Some(chosen);
  }
}
