/**
 * The file-dialog filter strings of GetReaderOFNFilters and
 * GetWriterSFNFilters: for every registered format, its description, then
 * "*." and its extension as the pattern, each followed by '|'; the text is
 * copied into a fresh zero-filled buffer one longer than the text, and every
 * '|' in it becomes NUL. The result is the double-NUL-terminated list of
 * (description, pattern) strings that the Windows file dialogs read.
 */
module FormatFilters {

  import opened PluginRegistry

  /** The text one format contributes: `description|*.extension|`. */
  function EntryText(f: FormatInfo): string
  {
    CStr(f.description) + "|*." + CStr(f.extension) + "|"
  }

  /** The filter text of the first formats, built by appending each format's entry in order. */
  function FilterText(formats: seq<FormatInfo>): (r: string)
    ensures forall i :: 0 <= i < |r| ==> r[i] != '\0'
    ensures formats != [] ==> |r| > 0 && r[|r| - 1] == '|'
  {
    if formats == [] then []
    else FilterText(formats[..|formats| - 1]) + EntryText(formats[|formats| - 1])
  }

  /** The text with every '|' replaced by NUL. */
  function PipesToNul(s: string): (r: string)
    ensures |r| == |s|
    ensures forall i :: 0 <= i < |s| ==> r[i] == if s[i] == '|' then '\0' else s[i]
  {
    if s == [] then [] else [if s[0] == '|' then '\0' else s[0]] + PipesToNul(s[1..])
  }

  /** The number of characters before the first NUL. */
  function StrLen(s: string): (n: nat)
    ensures (forall i :: 0 <= i < |s| ==> s[i] != '\0') ==> n == |s|
  {
    |CStr(s)|
  }

  /**
   * The filter buffer for `formats`: the filter text with every '|' turned
   * into NUL, followed by one more NUL.
   */
  method BuildFilter(formats: seq<FormatInfo>) returns (filter: array<char>)
    ensures fresh(filter)
    ensures filter[..] == PipesToNul(FilterText(formats)) + ['\0']
  {
    var s := ConcatEntries(formats);
    var nbChar := StrLen(s) + 1;
    filter := new char[nbChar](_ => '\0');
    forall j | 0 <= j < StrLen(s) {
      filter[j] := s[j];
    }
    assert filter[..] == s + ['\0'];
    ReplacePipes(filter, StrLen(s));
    assert filter[..] == PipesToNul(s) + ['\0'];
  }

  /** The text built by appending `description`, "|*.", `extension` and "|" for each format. */
  method ConcatEntries(formats: seq<FormatInfo>) returns (s: string)
    ensures s == FilterText(formats)
  {
    s := [];
    var i := 0;
    while i < |formats|
      invariant i <= |formats|
      invariant s == FilterText(formats[..i])
    {
      ghost var before := s;
      s := s + CStr(formats[i].description);
      s := s + "|*.";
      s := s + CStr(formats[i].extension);
      s := s + "|";
      AppendEntry(before, formats[i]);
      FilterTextStep(formats, i);
      i := i + 1;
    }
    assert formats[..i] == formats;
  }

  /** Appending an entry's four pieces one by one appends the entry. */
  lemma AppendEntry(s: string, f: FormatInfo)
    ensures s + CStr(f.description) + "|*." + CStr(f.extension) + "|" == s + EntryText(f)
  {
  }

  /** The filter text of one more format is the text so far followed by that format's entry. */
  lemma FilterTextStep(formats: seq<FormatInfo>, i: nat)
    requires i < |formats|
    ensures FilterText(formats[..i + 1]) == FilterText(formats[..i]) + EntryText(formats[i])
  {
    assert formats[..i + 1][..i] == formats[..i];
  }

  /** Turns every '|' among the first `n` characters of the buffer into NUL. */
  method ReplacePipes(filter: array<char>, n: nat)
    requires n <= filter.Length
    modifies filter
    ensures filter[..] == PipesToNul(old(filter[..n])) + old(filter[n..])
  {
    ghost var before := filter[..];
    var i := 0;
    while i < n
      invariant i <= n
      invariant forall j :: 0 <= j < i ==> filter[j] == if before[j] == '|' then '\0' else before[j]
      invariant forall j :: i <= j < filter.Length ==> filter[j] == before[j]
    {
      if filter[i] == '|' {
        filter[i] := '\0';
      }
      i := i + 1;
    }
    assert filter[..] == PipesToNul(before[..n]) + before[n..];
  }

  /** The reader filter of the open-file dialog. */
  method GetReaderOFNFilters(registry: Registry) returns (filter: array<char>)
    ensures fresh(filter)
    ensures filter[..] == PipesToNul(FilterText(registry.readers)) + ['\0']
  {
    filter := BuildFilter(registry.readers);
  }

  /** The writer filter of the save-file dialog. */
  method GetWriterSFNFilters(registry: Registry) returns (filter: array<char>)
    ensures fresh(filter)
    ensures filter[..] == PipesToNul(FilterText(registry.writers)) + ['\0']
  {
    filter := BuildFilter(registry.writers);
  }

  /** The strings the dialog expects, in order: each format's description, then its pattern. */
  function DialogFields(formats: seq<FormatInfo>): (r: seq<string>)
    ensures |r| == 2 * |formats|
  {
    if formats == [] then []
    else
      var f := formats[|formats| - 1];
      DialogFields(formats[..|formats| - 1]) + [CStr(f.description), "*." + CStr(f.extension)]
  }

  /** Strings laid out one after another, each followed by NUL. */
  function Terminated(fields: seq<string>): string
  {
    if fields == [] then [] else fields[0] + ['\0'] + Terminated(fields[1..])
  }

  /** A buffer read as NUL-terminated strings, front to back; a tail without NUL is the last string. */
  function SplitFields(b: string): seq<string>
    decreases |b|
  {
    if b == [] then []
    else
      var k := |CStr(b)|;
      if k == |b| then [b] else [b[..k]] + SplitFields(b[k + 1..])
  }

  predicate NulFree(s: string)
  {
    forall i :: 0 <= i < |s| ==> s[i] != '\0'
  }

  predicate PipeFree(s: string)
  {
    forall i :: 0 <= i < |s| ==> s[i] != '|'
  }

  lemma {:induction false} TerminatedAppend(xs: seq<string>, ys: seq<string>)
    ensures Terminated(xs + ys) == Terminated(xs) + Terminated(ys)
    decreases |xs|
  {
    if xs == [] {
      assert xs + ys == ys;
    } else {
      assert (xs + ys)[0] == xs[0] && (xs + ys)[1..] == xs[1..] + ys;
      TerminatedAppend(xs[1..], ys);
      assert Terminated(xs + ys) == xs[0] + ['\0'] + (Terminated(xs[1..]) + Terminated(ys));
    }
  }

  lemma {:induction false} PipesToNulAppend(s: string, t: string)
    ensures PipesToNul(s + t) == PipesToNul(s) + PipesToNul(t)
  {
  }

  /** Reading back NUL-terminated NUL-free strings yields exactly those strings. */
  lemma {:induction false} SplitTerminated(fields: seq<string>)
    requires forall i :: 0 <= i < |fields| ==> NulFree(fields[i])
    ensures SplitFields(Terminated(fields)) == fields
    decreases |fields|
  {
    if fields != [] {
      var b := Terminated(fields);
      var f := fields[0];
      assert b == f + (['\0'] + Terminated(fields[1..]));
      CStrOfField(f, ['\0'] + Terminated(fields[1..]));
      assert b[..|f|] == f;
      assert b[|f| + 1..] == Terminated(fields[1..]);
      SplitTerminated(fields[1..]);
    }
  }

  /** A NUL-free string followed by NUL: the C string is that string. */
  lemma {:induction false} CStrOfField(f: string, rest: string)
    requires NulFree(f) && rest != [] && rest[0] == '\0'
    ensures CStr(f + rest) == f
    decreases |f|
  {
    if f != [] {
      assert (f + rest)[1..] == f[1..] + rest;
      CStrOfField(f[1..], rest);
    } else {
      assert f + rest == rest;
    }
  }

  /** A '|'-free string followed by '|' becomes that string followed by NUL. */
  lemma PipeTerminated(x: string)
    requires PipeFree(x)
    ensures PipesToNul(x + "|") == x + ['\0']
  {
    PipesToNulAppend(x, "|");
    PipeFreeUnchanged(x);
  }

  /** Two strings, each NUL-terminated. */
  lemma TerminatedPair(d: string, p: string)
    ensures Terminated([d, p]) == (d + ['\0']) + (p + ['\0'])
  {
    assert [d, p][1..] == [p];
    assert [p][1..] == [];
    assert Terminated([p]) == p + ['\0'] + [];
    assert Terminated([d, p]) == d + ['\0'] + Terminated([p]);
  }

  /** One entry's text, with '|' turned into NUL, is its two dialog strings, each NUL-terminated. */
  lemma EntryIsTerminatedFields(f: FormatInfo)
    requires PipeFree(CStr(f.description)) && PipeFree(CStr(f.extension))
    ensures PipesToNul(EntryText(f)) == Terminated([CStr(f.description), "*." + CStr(f.extension)])
  {
    var d, e := CStr(f.description), CStr(f.extension);
    var p := "*." + e;
    assert PipeFree(p);
    assert EntryText(f) == (d + "|") + (p + "|");
    PipesToNulAppend(d + "|", p + "|");
    PipeTerminated(d);
    PipeTerminated(p);
    TerminatedPair(d, p);
  }

  /**
   * With descriptions and extensions free of '|', the buffer text is exactly
   * the dialog's strings, each NUL-terminated.
   */
  lemma {:induction false} FilterIsTerminatedFields(formats: seq<FormatInfo>)
    requires forall i :: 0 <= i < |formats| ==>
      PipeFree(CStr(formats[i].description)) && PipeFree(CStr(formats[i].extension))
    ensures PipesToNul(FilterText(formats)) == Terminated(DialogFields(formats))
    decreases |formats|
  {
    if formats != [] {
      var n := |formats| - 1;
      var init, f := formats[..n], formats[n];
      FilterIsTerminatedFields(init);
      PipesToNulAppend(FilterText(init), EntryText(f));
      EntryIsTerminatedFields(f);
      TerminatedAppend(DialogFields(init), [CStr(f.description), "*." + CStr(f.extension)]);
    }
  }

  lemma PipeFreeUnchanged(s: string)
    requires PipeFree(s)
    ensures PipesToNul(s) == s
  {
  }

  /**
   * Round trip: reading the filter buffer back as NUL-terminated strings
   * gives each format's description and its "*." pattern, in registry order,
   * and a non-empty buffer text ends in NUL so the buffer ends in two NULs.
   */
  lemma FilterRoundTrip(formats: seq<FormatInfo>)
    requires forall i :: 0 <= i < |formats| ==>
      PipeFree(CStr(formats[i].description)) && PipeFree(CStr(formats[i].extension))
    ensures SplitFields(PipesToNul(FilterText(formats))) == DialogFields(formats)
    ensures formats != [] ==> PipesToNul(FilterText(formats))[|FilterText(formats)| - 1] == '\0'
  {
    FilterIsTerminatedFields(formats);
    DialogFieldsNulFree(formats);
    SplitTerminated(DialogFields(formats));
  }

  lemma {:induction false} DialogFieldsNulFree(formats: seq<FormatInfo>)
    ensures forall i :: 0 <= i < |DialogFields(formats)| ==> NulFree(DialogFields(formats)[i])
    decreases |formats|
  {
    if formats != [] {
      DialogFieldsNulFree(formats[..|formats| - 1]);
    }
  }
}
