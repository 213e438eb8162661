/** Content validation of `retro_load_game` (extension check and the search for
    `script.lua` in the archive) and the two text lines `retro_run` derives
    from the loaded content (the status line and the sanitised preview). */
module Content {
  import opened Prelude

  const DOT: byte := 46
  const ZIP_EXT := Ascii(".zip")
  const SCRIPT_NAME := Ascii("script.lua")
  const STATUS_PREFIX := Ascii("ZIP: ")

  /** `char status[64]` and `char display_content[64]`: 63 characters and a NUL. */
  const LINE_CAPACITY := 64
  const LINE_MAX := LINE_CAPACITY - 1

  // ------------------------------------------------- case-insensitive names

  /** ASCII lower-casing as `_stricmp` applies it. */
  function ToLower(b: byte): byte
  {
    if 65 <= b <= 90 then b + 32 else b
  }

  /** `_stricmp(a, b) == 0` for two NUL-free strings. */
  predicate EqualsIgnoreCase(a: seq<byte>, b: seq<byte>)
  {
    |a| == |b| && forall i :: 0 <= i < |a| ==> ToLower(a[i]) == ToLower(b[i])
  }

  /** Only '.' itself lower-cases to '.'. */
  lemma ToLowerDot(b: byte)
    ensures ToLower(b) == DOT <==> b == DOT
  {
  }

  // -------------------------------------------------------- extension check

  /** `strrchr(s, b)`: the index of the last occurrence of b, if any. */
  function LastIndexOf(s: seq<byte>, b: byte): (r: Option<nat>)
    ensures r.Some? ==> r.value < |s| && s[r.value] == b && forall j :: r.value < j < |s| ==> s[j] != b
    ensures r.None? ==> forall j :: 0 <= j < |s| ==> s[j] != b
    decreases |s|
  {
    if s == [] then None
    else if s[|s| - 1] == b then Some(|s| - 1)
    else LastIndexOf(s[..|s| - 1], b)
  }

  /** The extension of a path: its suffix from the last '.', dot included. */
  function Extension(path: CString): Option<seq<byte>>
  {
    match LastIndexOf(path, DOT)
    case None => None
    case Some(k) => Some(path[k..])
  }

  /** The test of `retro_load_game`: the extension equals ".zip" ignoring case. */
  predicate HasZipExtension(path: CString)
  {
    Extension(path).Some? && EqualsIgnoreCase(Extension(path).value, ZIP_EXT)
  }

  /** Reference meaning: the path ends in ".zip" in any letter case. */
  predicate EndsWithZip(path: seq<byte>)
  {
    |path| >= |ZIP_EXT| && EqualsIgnoreCase(path[|path| - |ZIP_EXT|..], ZIP_EXT)
  }

  /** The extension check accepts exactly the paths that end in ".zip", in any
      letter case. */
  lemma ZipExtensionIff(path: CString)
    ensures HasZipExtension(path) <==> EndsWithZip(path)
  {
    var n := |path|;
    assert ZIP_EXT == [46, 122, 105, 112];
    if HasZipExtension(path) {
      var k := LastIndexOf(path, DOT).value;
      assert path[k..] == path[n - 4..];
    }
    if EndsWithZip(path) {
      var tail := path[n - 4..];
      assert ToLower(tail[0]) == DOT;
      ToLowerDot(tail[0]);
      forall j | 1 <= j < 4 ensures tail[j] != DOT {
        ToLowerDot(tail[j]);
      }
      var k := LastIndexOf(path, DOT);
      assert path[n - 4] == DOT;
      assert k.Some? && k.value == n - 4;
    }
  }

  // --------------------------------------------------------- archive search

  /** One central-directory entry of the zip archive as miniz reports it:
      whether `mz_zip_reader_file_stat` succeeds, the file name, the
      uncompressed bytes, and whether extracting them into memory (with the
      buffer allocated for it) succeeds. */
  datatype Entry = Entry(statOk: bool, name: CString, data: seq<byte>, extractOk: bool)
  {
    /** `m_uncomp_size`. */
    function Size(): nat { |data| }
  }

  /** The entries of an archive that opened, in central-directory order. */
  type Archive = seq<Entry>

  /** The entry the core looks for: stat succeeds and its name is `script.lua`
      ignoring case. */
  predicate IsScript(e: Entry)
  {
    e.statOk && EqualsIgnoreCase(e.name, SCRIPT_NAME)
  }

  /** The index of the first `script.lua` entry, if there is one. */
  function FirstScript(es: Archive): (r: Option<nat>)
    ensures r.Some? ==> r.value < |es| && IsScript(es[r.value])
    ensures r.Some? ==> forall j :: 0 <= j < r.value ==> !IsScript(es[j])
    ensures r.None? <==> forall j :: 0 <= j < |es| ==> !IsScript(es[j])
    decreases |es|
  {
    if es == [] then None
    else if IsScript(es[0]) then Some(0)
    else match FirstScript(es[1..])
      case None => None
      case Some(k) => Some(k + 1)
  }

  /** The entry loop of `retro_load_game` and `retro_run`: scan the entries in
      order and stop at the first whose stat succeeds and whose name matches. */
  method FindScript(es: Archive) returns (r: Option<nat>)
    ensures r == FirstScript(es)
  {
    var i := 0;
    while i < |es|
      invariant 0 <= i <= |es|
      invariant forall j :: 0 <= j < i ==> !IsScript(es[j])
    {
      if es[i].statOk && EqualsIgnoreCase(es[i].name, SCRIPT_NAME) {
        return Some(i);
      }
      i := i + 1;
    }
    return None;
  }

  // ------------------------------------------------------------- validation

  /** Why `retro_load_game` returned false. */
  datatype LoadError =
    | NoPath         // the descriptor has no path
    | NoExtension    // the path contains no '.'
    | NotZip         // the extension is not ".zip"
    | OpenFailed     // `mz_zip_reader_init_file` fails
    | ScriptMissing  // no entry is `script.lua`
    | OutOfMemory    // `strdup` of the path fails

  /** Outcome of validating the content: the size of `script.lua`, or the
      first failing check. */
  datatype Verdict = Accepted(size: nat) | Rejected(why: LoadError)

  /** The checks of `retro_load_game` in their order. `archive` is what opening
      the path yields (None when the archive cannot be opened). */
  function Validate(path: Option<CString>, archive: Option<Archive>): Verdict
  {
    match path
    case None => Rejected(NoPath)
    case Some(p) =>
      match Extension(p)
      case None => Rejected(NoExtension)
      case Some(ext) =>
        if !EqualsIgnoreCase(ext, ZIP_EXT) then Rejected(NotZip)
        else match archive
          case None => Rejected(OpenFailed)
          case Some(es) =>
            match FirstScript(es)
            case None => Rejected(ScriptMissing)
            case Some(k) => Accepted(es[k].Size())
  }

  /** Loading succeeds with size n exactly when the path ends in ".zip" in any
      case, the archive opens, some entry is `script.lua`, and n is the size of
      the first such entry. */
  lemma ValidateAcceptsIff(path: Option<CString>, archive: Option<Archive>, n: nat)
    ensures Validate(path, archive) == Accepted(n) <==>
      && path.Some? && EndsWithZip(path.value)
      && archive.Some?
      && exists k :: 0 <= k < |archive.value| && IsScript(archive.value[k])
           && (forall j :: 0 <= j < k ==> !IsScript(archive.value[j]))
           && n == archive.value[k].Size()
  {
    if path.Some? {
      ZipExtensionIff(path.value);
      if EndsWithZip(path.value) && archive.Some? {
        var es := archive.value;
        var first := FirstScript(es);
        if first.Some? {
          forall k | 0 <= k < |es| && IsScript(es[k]) && (forall j :: 0 <= j < k ==> !IsScript(es[j]))
            ensures k == first.value
          {
          }
        }
      }
    }
  }

  /** Which check rejects, stated without the search functions: no '.', a
      '.' but not ".zip" at the end, an archive that does not open, or one
      without `script.lua`. */
  lemma ValidateRejections(p: CString, archive: Option<Archive>)
    ensures DOT !in p ==> Validate(Some(p), archive) == Rejected(NoExtension)
    ensures DOT in p && !EndsWithZip(p) ==> Validate(Some(p), archive) == Rejected(NotZip)
    ensures EndsWithZip(p) && archive.None? ==> Validate(Some(p), archive) == Rejected(OpenFailed)
    ensures EndsWithZip(p) && archive.Some? && (forall e :: e in archive.value ==> !IsScript(e)) ==>
      Validate(Some(p), archive) == Rejected(ScriptMissing)
  {
    ZipExtensionIff(p);
    if DOT in p {
      var j :| 0 <= j < |p| && p[j] == DOT;
      assert LastIndexOf(p, DOT).Some?;
    }
    if archive.Some? && (forall e :: e in archive.value ==> !IsScript(e)) {
      var es := archive.value;
      assert forall j :: 0 <= j < |es| ==> !IsScript(es[j]) by {
        forall j | 0 <= j < |es| ensures !IsScript(es[j]) { assert es[j] in es; }
      }
    }
  }

  /** A path such as "game.rom" is turned down: it has an extension, not ".zip". */
  lemma RomPathRejected(archive: Option<Archive>)
    ensures Validate(Some(Ascii("game.rom")), archive) == Rejected(NotZip)
  {
    var p: CString := Ascii("game.rom");
    assert p[4] == DOT;
    assert p[4..] == Ascii(".rom");
    ValidateRejections(p, archive);
  }

  /** An archive that holds only "readme.txt" has no script. */
  lemma ReadmeOnlyRejected(data: seq<byte>)
    ensures Validate(Some(Ascii("game.zip")), Some([Entry(true, Ascii("readme.txt"), data, true)]))
         == Rejected(ScriptMissing)
  {
    var p: CString := Ascii("game.zip");
    var e := Entry(true, Ascii("readme.txt"), data, true);
    assert p[4..] == Ascii(".zip");
    assert !EqualsIgnoreCase(e.name, SCRIPT_NAME) by {
      assert ToLower(e.name[0]) != ToLower(SCRIPT_NAME[0]);
    }
    ValidateRejections(p, Some([e]));
  }

  /** "SCRIPT.LUA" in upper case is found, and its size is recorded. */
  lemma UpperCaseScriptAccepted(data: seq<byte>)
    ensures Validate(Some(Ascii("GAME.ZIP")), Some([Entry(true, Ascii("SCRIPT.LUA"), data, true)]))
         == Accepted(|data|)
  {
    var p: CString := Ascii("GAME.ZIP");
    var e := Entry(true, Ascii("SCRIPT.LUA"), data, true);
    assert p[4..] == Ascii(".ZIP");
    assert p[4..] == [46, 90, 73, 80] && ZIP_EXT == [46, 122, 105, 112];
    assert EndsWithZip(p);
    ZipExtensionIff(p);
    assert e.name == [83, 67, 82, 73, 80, 84, 46, 76, 85, 65];
    assert SCRIPT_NAME == [115, 99, 114, 105, 112, 116, 46, 108, 117, 97];
    assert IsScript([e][0]);
    assert FirstScript([e]) == Some(0);
  }

  // ---------------------------------------------------------- preview line

  /** One byte of the preview: printable ASCII stays, anything else is '.'. */
  function SanitizeByte(b: byte): byte
  {
    if !Printable(b) then DOT else b
  }

  /** The preview of the script's bytes: at most 63 of them, each outside
      32..126 (NUL included) replaced by '.'. */
  function Sanitized(content: seq<byte>): (r: seq<byte>)
    ensures |r| == Min(|content|, LINE_MAX)
    ensures forall k :: 0 <= k < |r| ==> Printable(r[k])
    ensures forall k :: 0 <= k < |r| ==> Printable(content[k]) ==> r[k] == content[k]
    ensures forall k :: 0 <= k < |r| ==> !Printable(content[k]) ==> r[k] == DOT
    ensures 0 !in r
  {
    seq(Min(|content|, LINE_MAX), k requires 0 <= k < Min(|content|, LINE_MAX) => SanitizeByte(content[k]))
  }

  /** The sanitiser is idempotent on its own output. */
  lemma SanitizedIdempotent(content: seq<byte>)
    ensures Sanitized(Sanitized(content)) == Sanitized(content)
  {
  }

  /** Only the first 63 bytes matter. */
  lemma SanitizedPrefix(content: seq<byte>)
    requires |content| > LINE_MAX
    ensures Sanitized(content) == Sanitized(content[..LINE_MAX])
  {
  }

  /** The preview code of `retro_run`: copy at most 63 bytes into a 64-byte
      buffer, terminate it, then replace every byte outside 32..126 by '.'.
      Returns the buffer up to and including its NUL. */
  method SanitizePreview(content: seq<byte>) returns (display: seq<byte>)
    ensures display == Sanitized(content) + [0]
  {
    var buffer := new byte[LINE_CAPACITY];
    var len := if |content| < LINE_MAX then |content| else LINE_MAX;
    forall k | 0 <= k < len {
      buffer[k] := content[k];
    }
    buffer[len] := 0;
    for j := 0 to len
      invariant forall k :: 0 <= k < j ==> buffer[k] == SanitizeByte(content[k])
      invariant forall k :: j <= k < len ==> buffer[k] == content[k]
      invariant buffer[len] == 0
    {
      if buffer[j] < 32 || buffer[j] > 126 {
        buffer[j] := DOT;
      }
    }
    display := buffer[..len + 1];
  }

  /** The preview `retro_run` draws for the archive as it reads this frame:
      nothing when it does not reopen, holds no `script.lua`, or the first
      such entry cannot be extracted. */
  function Preview(reopened: Option<Archive>): Option<seq<byte>>
  {
    match reopened
    case None => None
    case Some(es) =>
      match FirstScript(es)
      case None => None
      case Some(k) => if es[k].extractOk then Some(Sanitized(es[k].data)) else None
  }

  // ----------------------------------------------------------- status line

  /** `snprintf(status, 64, "ZIP: %s", path)`: "ZIP: " followed by the path,
      cut to the 63 characters the buffer holds before its NUL. */
  function StatusLine(path: CString): (r: seq<byte>)
    ensures |r| == Min(|STATUS_PREFIX| + |path|, LINE_MAX)
    ensures r[..|STATUS_PREFIX|] == STATUS_PREFIX
    ensures r[|STATUS_PREFIX|..] == path[..|r| - |STATUS_PREFIX|]
    ensures |path| <= LINE_MAX - |STATUS_PREFIX| ==> r == STATUS_PREFIX + path
    ensures 0 !in r
  {
    var full := STATUS_PREFIX + path;
    assert STATUS_PREFIX == [90, 73, 80, 58, 32];
    assert 0 !in full;
    full[..Min(|full|, LINE_MAX)]
  }
}
