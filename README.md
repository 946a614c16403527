# NormalMerger core in Dafny

NormalMerger loads two FBX scenes and walks their node trees in lockstep. For every pair of mesh nodes it meets, it writes the normals of the second scene's mesh into the tangent and binormal layers of the first scene's mesh. It then saves the first scene. This project models that core, `Common/ImportExport.cxx`, in four parts:

- **Tangent transfer** (`tangent_transfer.dfy`, module `TangentTransfer`). This is `ProcessMesh`. A missing tangent or binormal element is created. Both direct arrays are resized to the source normal count, and both elements take the destination normal element's mapping and reference modes. Then either the control points or the polygon-vertex occurrences are walked. At each position the method resolves a normal index and a write slot, and it writes the normalized source normal, and the destination normal crossed with it (normal on the left), into that slot.
  - The mesh is a class whose tangent and binormal fields the methods update.
  - The layer elements, the vector type and its operations are in `layer_elements.dfy`.
  - The scene tree is in `scene.dfy`.
  - The result is specified by a fold over the walked positions (`TangentsAfter`, `BinormalsAfter`). The lemmas say what the fold leaves in every slot.
- **Tree walk** (`scene_walk.dfy`, module `SceneWalk`). This is `ProcessNode`, the pre-order lockstep walk. `MeshCalls` specifies the sequence of `ProcessMesh` calls. Every `ProcessMesh` call appends its node pair to a proof-only log (`Scene.CallLog`) as part of its own contract. The walk is proved to leave exactly `MeshCalls` in that log, and to leave the destination mesh of every call whose two meshes exist carrying its normal element's modes. A mesh attribute without a mesh leaves the destination unchanged. The lemmas characterise the calls by their path in the trees.
- **Writer choice** (`writer_choice.dfy`, module `WriterChoice`). This is the format-selection block of `SaveScene`, a search over the writer registry (`registry.dfy`).
- **Dialog filters** (`format_filters.dfy`, module `FormatFilters`). These are `GetReaderOFNFilters` and `GetWriterSFNFilters`. Each builds `description|*.extension|` for every format, copies the text into a zero-filled buffer one character longer, and turns every pipe character into NUL.

`import_export.dfy` (module `ImportExportFlow`) strings these together the way `ImportExport` does.

Two behaviours of the code that a reader may not expect, both modelled as written:
- A structural mismatch in `ProcessNode` ends only the current call. The parent goes on with its next child, and the scene is still exported.
- The destination normal is read from its direct array at the index resolved through the *source* normal element, not through the destination's own index array.

## Model

| member | source | states |
|---|---|---|
| TangentTransfer.ProcessMesh | Common/ImportExport.cxx:386-505 | The call on node pair (a, b) is recorded in the log, and the meshes are taken from the nodes. If either mesh is missing, nothing changes. Otherwise the tangent and binormal elements get the destination normal's mapping and reference modes, keep their index arrays, have exactly the source normal count of values, and hold the in-order writes of every walked position. With no walked position, the values are just the resized old ones. Only the destination mesh changes. Every ready mesh pair stays ready, and every mesh whose tangent and binormal elements carried its normal's modes still does. |
| TangentTransfer.PrepareElements | Common/ImportExport.cxx:398-421 | A missing element is created empty. Both direct arrays are resized to the source normal count, keeping the old prefix. Both elements take the destination normal's modes, not the source's. Index arrays are untouched. |
| TangentTransfer.WriteOccurrence | Common/ImportExport.cxx:430-454 | One position reads the normal at the source-resolved index `n`. It writes the normalized source normal, and the destination normal at `n` crossed with that tangent (normal on the left), into the same slot of both arrays. Nothing else changes. |
| TangentTransfer.FillByControlPoint | Common/ImportExport.cxx:425-457 | Positions 0 to controlPointCount-1 are written in order. The arrays end equal to the specification fold over those positions. |
| TangentTransfer.FillByPolygonVertex | Common/ImportExport.cxx:459-501 | The running counter starts at 0, steps once per vertex of each polygon in order and is never reset. The positions written are exactly 0 to (sum of polygon sizes)-1, in order, and the arrays end equal to the fold. |
| TangentTransfer.PolygonVertexCount | Common/ImportExport.cxx:461-500 | Encodes the final value of the running counter: the sum of the polygon sizes, added polygon by polygon in order. |
| TangentTransfer.OccurrenceCount | Common/ImportExport.cxx:425-469 | Encodes how many positions the walk visits, chosen by the source normal's mapping mode but counted on the destination mesh: its control points under by-control-point mapping, its polygon-vertex total under by-polygon-vertex mapping, and no position (nothing written) under any other mapping mode. |
| TangentTransfer.TransferOf | Common/ImportExport.cxx:430-451 | Encodes which arrays the transfer reads. The normal index is resolved through the source normal's reference mode and index array. The source and the destination normal direct arrays are both read at that index. The write slot is resolved through the destination normal's reference mode, which the tangent element takes over, and the tangent element's own index array. |
| TangentTransfer.PolygonPrefixBound | Common/ImportExport.cxx:463-497 | The sizes of the polygons before p plus the size of p never exceed the total. Every counter value inside polygon p is therefore one of the positions the walk covers. |
| Scene.GetMesh | Common/ImportExport.cxx:389-390 | Encodes `GetMesh`: the node's mesh when its attribute is a mesh, and null otherwise. |
| TangentTransfer.FillPolygon | Common/ImportExport.cxx:469-499 | The vertices of one polygon write positions counter to counter+size-1, in order. The counter comes back advanced by exactly the polygon size. |
| TangentTransfer.TangentsAfter | Common/ImportExport.cxx:453 | Writing tangents never changes the length of the resized array. |
| TangentTransfer.BinormalsAfter | Common/ImportExport.cxx:454 | Writing binormals never changes the length of the resized array. |
| TangentTransfer.LastWrite | Common/ImportExport.cxx:447-454 | The last walked position whose slot is `s` is found: no later position writes `s`. None means no position writes `s`. |
| TangentTransfer.SlotContents | Common/ImportExport.cxx:441-454 | Every slot no position writes keeps its resized value. A written slot holds its last writer's normalized source normal. The binormal in the same slot is the destination normal at that writer's normal index crossed with that very tangent. |
| TangentTransfer.DirectAddressing | Common/ImportExport.cxx:430-454 | When both the source normal and the tangent element use direct reference, slot v holds the normalized source normal v and the cross product of destination normal v with it. |
| LayerElements.Resized | Common/ImportExport.cxx:414-416 | `SetCount` gives exactly `count` values. It keeps the old values below `count` and pads beyond them with the blank value. |
| LayerElements.ResolveIndex | Common/ImportExport.cxx:430-438 | Encodes the rule shared by the read index (lines 430-438, 471-478) and the write slot (lines 447-451, 488-492): the position itself under direct reference, the index array's entry under index-to-direct, and 0 under any other reference mode. |
| SceneWalk.ProcessNode | Common/ImportExport.cxx:348-384 | The log gains exactly `MeshCalls(a, b)`, in order. Because each `ProcessMesh` call appends its own pair, these are the calls actually made. After the walk, the destination mesh of every call whose two meshes exist has tangent and binormal elements carrying its normal's modes. No mesh changes except those destinations. Ready pairs stay ready, and meshes that carried their normal's modes still do. |
| SceneWalk.MeshCalls | Common/ImportExport.cxx:348-384 | Encodes the walk's call sequence. A clash of attribute types gives no calls. Otherwise the node's own call comes first if both are meshes. The children's calls follow, child i with child i, only when the child counts agree. |
| SceneWalk.ChildCalls | Common/ImportExport.cxx:379-382 | Encodes the child loop: the calls under child i, then those under children i+1 onward. |
| SceneWalk.CalledIsReached | Common/ImportExport.cxx:350-382 | Every pair handed to `ProcessMesh` is a pair of mesh nodes at the same path in both trees. No ancestor of that pair has an attribute clash or a child-count difference. |
| SceneWalk.ReachedIsCalled | Common/ImportExport.cxx:350-382 | Every mesh pair at such a reached path is handed to `ProcessMesh`. A mismatch therefore hides only the mismatched pair's descendants, never its siblings. |
| SceneWalk.CallsExactly | Common/ImportExport.cxx:350-382 | A pair is processed if and only if it sits at a reached common path and both nodes are meshes. |
| SceneWalk.ChildCallsMember | Common/ImportExport.cxx:379-382 | The calls made by the child loop from child i onward are exactly the calls made under the children from i on. |
| SceneWalk.MatchingReachesAll | Common/ImportExport.cxx:370-382 | On two trees of the same shape with the same attribute types, every path is reached. Every mesh node of the first tree is therefore processed with its counterpart. |
| WriterChoice.Find | Common/ImportExport.cxx:298 | Returns the first index where the pattern occurs, or -1 exactly when it occurs nowhere. |
| WriterChoice.ChooseWriterFormat | Common/ImportExport.cxx:276-306 | An index inside the writer list is kept. Otherwise the native writer is used, unless media are not embedded and some writer is FBX with "ascii" in its description (read as a C string, up to the first NUL), in which case the first such writer is used. |
| WriterChoice.IsChosenFormat | Common/ImportExport.cxx:276-306 | Encodes the selection rule declaratively. An in-range index is kept. Otherwise the native writer is chosen when media are embedded or no FBX writer mentions "ascii" before the first NUL of its description. Otherwise the first such writer is chosen. |
| WriterChoice.AsciiAfterNulIgnored | Common/ImportExport.cxx:292-300 | For every writer: when the description's part before its first NUL has no "ascii", the writer is not an ASCII FBX writer, whatever follows the NUL. |
| WriterChoice.ChosenFormatUnique | Common/ImportExport.cxx:276-306 | The selection rule admits at most one format for every request; `ChooseWriterFormat` supplies one, so it admits exactly one. |
| PluginRegistry.CStr | Common/ImportExport.cxx:519-523 | A registry string appended to the filter text contributes its characters before the first NUL. |
| FormatFilters.StrLen | Common/ImportExport.cxx:528 | `strlen` of NUL-free text is its length. |
| FormatFilters.EntryText | Common/ImportExport.cxx:519-524 | Encodes one format's entry: its description, a pipe character, `*.`, its extension and a final pipe character, with description and extension each read up to its first NUL. |
| FormatFilters.FilterText | Common/ImportExport.cxx:517-525 | The built text contains no NUL. For a non-empty registry it ends with the pipe character. |
| FormatFilters.PipesToNul | Common/ImportExport.cxx:534-540 | The result has the same length, every pipe character becomes NUL, and every other character is unchanged. |
| FormatFilters.ConcatEntries | Common/ImportExport.cxx:517-525 | The loop builds exactly the filter text of all formats, in registry order. |
| FormatFilters.ReplacePipes | Common/ImportExport.cxx:534-540 | Among the first n characters every pipe character becomes NUL and all others are kept. The rest of the buffer is unchanged. |
| FormatFilters.BuildFilter | Common/ImportExport.cxx:517-543 | The buffer is fresh, one character longer than the text, and holds the text with every pipe character replaced by NUL, followed by NUL. |
| FormatFilters.GetReaderOFNFilters | Common/ImportExport.cxx:509-544 | The open dialog's buffer is built as above over the reader formats. |
| FormatFilters.GetWriterSFNFilters | Common/ImportExport.cxx:548-583 | The save dialog's buffer is built as above over the writer formats. |
| FormatFilters.EntryIsTerminatedFields | Common/ImportExport.cxx:519-524 | With pipe-free strings, one entry becomes its description and its `*.ext` pattern, each NUL-terminated. |
| FormatFilters.FilterIsTerminatedFields | Common/ImportExport.cxx:517-540 | With pipe-free strings, the whole buffer text is the dialog's description and pattern strings, each NUL-terminated, in registry order. |
| FormatFilters.FilterRoundTrip | Common/ImportExport.cxx:517-543 | Reading the buffer back as NUL-terminated strings yields each format's description and `*.ext` pattern, in order. A non-empty list ends in a double NUL. |
| FormatFilters.DialogFieldsNulFree | Common/ImportExport.cxx:519-524 | The dialog strings contain no NUL. |
| ImportExportFlow.ImportExport | Common/ImportExport.cxx:34-92 | A failed load ends the run with no change to any mesh or to the log, and no export. Otherwise the log gains exactly `MeshCalls` of the two roots, and every destination mesh of a call whose two meshes exist carries its normal's modes. The export is then attempted whatever the walk met, with the writer format chosen with media not embedded. |

## Left out

- **SDK session lifecycle.** `InitializeSdkManager` and `DestroySdkObjects` are foreign object management. So are scene creation and destruction in `ImportExport`, including the first scene not being destroyed when the second load fails.
- **`LoadScene`.** Its importer calls, version reporting, IO-settings flags and password prompt are SDK I/O. Whether each load succeeded is a parameter of `ImportExport`.
- **The export call.** `Initialize`/`Export`, the export IO-settings flags and every `UI_Printf` diagnostic are I/O. `ImportExport` reports only the format the export is attempted with.
- SceneWalk.ProcessNode: it states no destination mesh's final tangent or binormal values. It states the calls made, in order, through the log; the modes those calls leave; and, through `ProcessMesh`'s contract, what each single call writes. A composed walk-level statement is left out because a mesh that several calls share is overwritten by the later calls.
- **Vector operations.** `FbxVector4::Normalize` and `CrossProduct` are floating point inside the SDK. They are parameters (`VectorOps`), so every property holds for any choice of them.
- **`SetCount` growth.** The SDK's growth behaviour is not visible. `Resized` keeps the old prefix and pads with a caller-given blank vector.
- **The source normal null check.** At line 414 the source normal element is dereferenced before the null check at line 423. Bounds checks on the index arrays and the direct arrays are also assumed, not performed. Both normal elements existing and every index read and write being in bounds are therefore a precondition (`Ready`), not an error path.
- TangentTransfer.ProcessMesh: layer elements are values inside the mesh, so it does not capture one element object shared by several meshes.
- **Created elements.** `CreateElementTangent` and `CreateElementBinormal` are SDK calls whose defaults are not visible. A created element is assumed to have empty index and direct arrays, which are the only fields that survive `PrepareElements`.
- **`FBXSDK_strcpy` and `memset`.** These are modelled by the zero-filled allocation and a parallel copy of the text.
- **`GetFileFormatExt`.** Its behaviour rests on `FBXSDK_strcat` into a 10-byte buffer, which is not part of this model.
- **`Common/ImportExport.h`.** It holds declarations only and is not part of this model.
- **Integer width.** Counters and indices are unbounded integers. The source's `int` overflow on huge meshes is not modelled.
