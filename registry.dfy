/**
 * The SDK's I/O plug-in registry as the format choice and the file-dialog
 * filters see it: for every reader and every writer, its description, its
 * file extension and whether it is an FBX format, plus the native writer.
 */
module PluginRegistry {

  /** One reader or writer format of the registry. */
  datatype FormatInfo = FormatInfo(description: string, extension: string, isFbx: bool)

  /** The registered reader and writer formats, by index, and the native writer's index. */
  datatype Registry = Registry(readers: seq<FormatInfo>, writers: seq<FormatInfo>, nativeWriter: int)

  /**
   * The string a C string buffer denotes: its characters before the first
   * NUL. Registry strings reach the filter builders as C strings.
   */
  function CStr(s: string): (r: string)
    ensures |r| <= |s| && r == s[..|r|]
    ensures forall i :: 0 <= i < |r| ==> r[i] != '\0'
    ensures |r| < |s| ==> s[|r|] == '\0'
  {
    if s == [] || s[0] == '\0' then [] else [s[0]] + CStr(s[1..])
  }
}
