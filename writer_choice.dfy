/**
 * The output-format choice at the head of SaveScene: a requested writer index
 * inside the registry is kept; any other index falls back to the native
 * writer or, when media are not embedded, to the first FBX writer whose
 * description mentions "ascii".
 */
module WriterChoice {

  import opened PluginRegistry

  /** `pattern` occurs in `s` starting at position `i`. */
  predicate OccursAt(s: string, pattern: string, i: nat)
  {
    i + |pattern| <= |s| && s[i..i + |pattern|] == pattern
  }

  /**
   * The string search the description test uses: the first position where
   * `pattern` occurs in `s`, or -1 when it occurs nowhere.
   */
  function Find(s: string, pattern: string): (r: int)
    ensures -1 <= r <= |s|
    ensures r >= 0 ==> OccursAt(s, pattern, r) && forall j: nat :: j < r ==> !OccursAt(s, pattern, j)
    ensures r == -1 <==> forall j: nat :: !OccursAt(s, pattern, j)
    decreases |s|
  {
    if |pattern| <= |s| && s[..|pattern|] == pattern then
      assert OccursAt(s, pattern, 0);
      0
    else if s == [] then -1
    else
      var r := Find(s[1..], pattern);
      FindShift(s, pattern);
      if r < 0 then -1 else r + 1
  }

  /** An occurrence in `s` past position 0 is an occurrence in `s[1..]`, one position earlier. */
  lemma FindShift(s: string, pattern: string)
    requires s != []
    ensures forall j: nat | 1 <= j :: OccursAt(s, pattern, j) <==> OccursAt(s[1..], pattern, j - 1)
  {
    forall j: nat | 1 <= j
      ensures OccursAt(s, pattern, j) <==> OccursAt(s[1..], pattern, j - 1)
    {
      if j + |pattern| <= |s| {
        assert s[j..j + |pattern|] == s[1..][j - 1..j - 1 + |pattern|];
      }
    }
  }

  /**
   * A writer the fallback accepts: an FBX writer whose description contains
   * "ascii". The description is read as a C string, so text after a NUL is
   * not searched.
   */
  predicate AsciiFbx(w: FormatInfo)
  {
    w.isFbx && Find(CStr(w.description), "ascii") >= 0
  }

  /**
   * Only the description up to its first NUL (at `k`) is searched: when that
   * part has no "ascii", the writer is not an ASCII FBX writer, whatever
   * follows the NUL.
   */
  lemma AsciiAfterNulIgnored(w: FormatInfo, k: nat)
    requires k < |w.description| && w.description[k] == '\0'
    requires forall j :: 0 <= j < k ==> w.description[j] != '\0'
    requires Find(w.description[..k], "ascii") < 0
    ensures !AsciiFbx(w)
  {
    assert CStr(w.description) == w.description[..k];
  }

  /** Some writer is an ASCII FBX writer. */
  predicate HasAsciiFbx(writers: seq<FormatInfo>)
  {
    exists i :: 0 <= i < |writers| && AsciiFbx(writers[i])
  }

  /**
   * `chosen` is the format SaveScene exports with for the requested index
   * `format`. An index inside the writer list is kept. Otherwise the native
   * writer is used, unless media are not embedded and some writer is an
   * ASCII FBX writer, in which case the first such writer is used.
   */
  predicate IsChosenFormat(registry: Registry, format: int, embedMedia: bool, chosen: int)
  {
    var writers := registry.writers;
    if 0 <= format < |writers| then chosen == format
    else if embedMedia || !HasAsciiFbx(writers) then chosen == registry.nativeWriter
    else
      0 <= chosen < |writers| && AsciiFbx(writers[chosen]) &&
      forall j :: 0 <= j < chosen ==> !AsciiFbx(writers[j])
  }

  /** The rule above leaves exactly one choice for every request. */
  lemma ChosenFormatUnique(registry: Registry, format: int, embedMedia: bool, c1: int, c2: int)
    requires IsChosenFormat(registry, format, embedMedia, c1)
    requires IsChosenFormat(registry, format, embedMedia, c2)
    ensures c1 == c2
  {
  }

  /** The format-selection block of SaveScene. */
  method ChooseWriterFormat(registry: Registry, format: int, embedMedia: bool) returns (chosen: int)
    ensures IsChosenFormat(registry, format, embedMedia, chosen)
  {
    chosen := format;
    var writers := registry.writers;
    if chosen < 0 || chosen >= |writers| {
      chosen := registry.nativeWriter;
      if !embedMedia {
        var formatCount := |writers|;
        var formatIndex := 0;
        while formatIndex < formatCount
          invariant formatIndex <= formatCount
          invariant chosen == registry.nativeWriter
          invariant forall j :: 0 <= j < formatIndex ==> !AsciiFbx(writers[j])
        {
          if writers[formatIndex].isFbx {
            var description := CStr(writers[formatIndex].description);
            if Find(description, "ascii") >= 0 {
              chosen := formatIndex;
              break;
            }
          }
          formatIndex := formatIndex + 1;
        }
      }
    }
  }
}
