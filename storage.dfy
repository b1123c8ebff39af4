/** `Storage`: the pure file-name helpers of the upload storage service:
    extension validation, unique-name generation and public URLs. */
module Storage {
  import opened Common

  const StlExtensions: seq<string> := [".stl"]
  const PlyExtensions: seq<string> := [".ply"]

  /** The allowed extensions: the STL list followed by the PLY list. */
  const AllowedExtensions: seq<string> := StlExtensions + PlyExtensions

  /** `s` without its trailing '/' characters. */
  function TrimTrailingSlashes(s: string): string {
    if s != [] && s[|s| - 1] == '/' then TrimTrailingSlashes(s[..|s| - 1]) else s
  }

  /** The text after the last '/' (all of `s` when it has none): what
      `split('/').pop()` returns. */
  function LastSegment(s: string): string {
    if s == [] || s[|s| - 1] == '/' then []
    else LastSegment(s[..|s| - 1]) + [s[|s| - 1]]
  }

  /** The position of the last '.' in `s`. */
  function LastDot(s: string): (r: Option<nat>)
    ensures r.Some? ==> r.value < |s|
  {
    if s == [] then None
    else if s[|s| - 1] == '.' then Some(|s| - 1)
    else LastDot(s[..|s| - 1])
  }

  lemma {:induction false} LastSegmentHasNoSlash(s: string)
    ensures '/' !in LastSegment(s)
  {
    if s != [] && s[|s| - 1] != '/' {
      LastSegmentHasNoSlash(s[..|s| - 1]);
    }
  }

  lemma {:induction false} LastDotIsLast(s: string)
    ensures LastDot(s).Some? ==> s[LastDot(s).value] == '.' && '.' !in s[LastDot(s).value + 1..]
    ensures LastDot(s).None? ==> '.' !in s
  {
    if s != [] && s[|s| - 1] != '.' {
      var t := s[..|s| - 1];
      LastDotIsLast(t);
      assert s == t + [s[|s| - 1]];
      if LastDot(t).Some? {
        assert s[LastDot(s).value + 1..] == t[LastDot(t).value + 1..] + [s[|s| - 1]];
      }
    }
  }

  /** POSIX `path.extname`: in the last path segment (trailing slashes
      ignored), the text from the last '.' on; empty when the segment has no
      dot, when its only candidate dot is its first character, or when the
      segment is "..". */
  function Extname(p: string): string {
    var seg := LastSegment(TrimTrailingSlashes(p));
    match LastDot(seg)
    case None => ""
    case Some(d) => if d == 0 || seg == ".." then "" else seg[d..]
  }

  predicate ValidateFileExtension(filename: string) {
    Lower(Extname(filename)) in AllowedExtensions
  }

  /** A name validates exactly when its lower-cased extension is ".stl" or
      ".ply"; any other extension, and no extension, is refused. */
  lemma ValidatedExactlyStlOrPly(filename: string)
    ensures ValidateFileExtension(filename) <==>
      Lower(Extname(filename)) == ".stl" || Lower(Extname(filename)) == ".ply"
  {
    assert AllowedExtensions == [".stl", ".ply"];
  }

  /** An extension as `Extname` can return it: empty, or a dot followed by
      characters that are neither '.' nor '/'. */
  predicate IsExtension(e: string) {
    e == [] || (e[0] == '.' && '.' !in e[1..] && '/' !in e[1..])
  }

  /** A file stem: at least one character, no '/', not starting with '.'. */
  predicate IsPlainStem(s: string) {
    s != [] && s[0] != '.' && '/' !in s
  }

  /** The extension of a stem followed by an extension is that extension
      (a stem with a dot of its own needs a non-empty extension after it). */
  lemma ExtnameOfStemAndExt(stem: string, ext: string)
    requires IsPlainStem(stem) && IsExtension(ext)
    requires ext == [] ==> '.' !in stem
    ensures Extname(stem + ext) == ext
  {
    var p := stem + ext;
    assert '/' !in p by {
      if ext != [] {
        assert ext == [ext[0]] + ext[1..];
      }
    }
    NoSlashIsOwnSegment(p);
    assert p != [] && p[|p| - 1] != '/';
    var seg := LastSegment(TrimTrailingSlashes(p));
    assert seg == p;
    if ext == [] {
      NoDotNoLastDot(p);
    } else {
      assert ext == [ext[0]] + ext[1..];
      assert p == (stem + [ext[0]]) + ext[1..];
      DotThenNoDot(stem, ext[1..]);
      assert LastDot(seg) == Some(|stem|);
      assert seg != ".." by {
        assert seg[0] == stem[0];
      }
      assert seg[|stem|..] == ext;
    }
  }

  lemma {:induction false} NoSlashIsOwnSegment(s: string)
    requires '/' !in s
    ensures LastSegment(s) == s
  {
    if s != [] {
      assert s == s[..|s| - 1] + [s[|s| - 1]];
      NoSlashIsOwnSegment(s[..|s| - 1]);
    }
  }

  lemma {:induction false} NoDotNoLastDot(s: string)
    requires '.' !in s
    ensures LastDot(s) == None
  {
    if s != [] {
      NoDotNoLastDot(s[..|s| - 1]);
    }
  }

  lemma {:induction false} DotThenNoDot(stem: string, rest: string)
    requires '.' !in rest
    ensures LastDot(stem + ['.'] + rest) == Some(|stem|)
    decreases |rest|
  {
    var s := stem + ['.'] + rest;
    if rest != [] {
      assert s[..|s| - 1] == stem + ['.'] + rest[..|rest| - 1];
      DotThenNoDot(stem, rest[..|rest| - 1]);
    } else {
      assert s[|s| - 1] == '.';
    }
  }

  /** The letter case of the extension does not matter: "x.STL" is accepted. */
  lemma UpperCaseExtensionAccepted()
    ensures Extname("x.STL") == ".STL"
    ensures ValidateFileExtension("x.STL")
  {
    assert "x.STL" == "x" + ".STL";
    ExtnameOfStemAndExt("x", ".STL");
    LowerUpperStl();
    ValidatedExactlyStlOrPly("x.STL");
  }

  lemma LowerUpperStl()
    ensures Lower(".STL") == ".stl"
  {
    var l := Lower(".STL");
    assert l[0] == '.' && l[1] == 's' && l[2] == 't' && l[3] == 'l';
  }

  /** A leading dot is not an extension: ".stl" has none and is rejected. */
  lemma LeadingDotRejected()
    ensures Extname(".stl") == ""
    ensures !ValidateFileExtension(".stl")
  {
    assert ".stl" == [] + ['.'] + "stl";
    NoSlashIsOwnSegment(".stl");
    DotThenNoDot([], "stl");
    assert Lower("") == "";
  }

  /** A name without a dot has no extension and is rejected. */
  lemma NoDotRejected()
    ensures Extname("stl") == ""
    ensures !ValidateFileExtension("stl")
  {
    assert "stl" == "stl" + "";
    ExtnameOfStemAndExt("stl", "");
    assert Lower("") == "";
  }

  /** Only the last extension counts: "a.stl.zip" is rejected... */
  lemma InnerStlIgnored()
    ensures Extname("a.stl.zip") == ".zip" && !ValidateFileExtension("a.stl.zip")
  {
    assert "a.stl.zip" == "a.stl" + ".zip";
    ExtnameOfStemAndExt("a.stl", ".zip");
    var z := Lower(".zip");
    assert z[1] == 'z';
  }

  /** ... and "a.zip.ply" is accepted. */
  lemma LastPlyAccepted()
    ensures Extname("a.zip.ply") == ".ply" && ValidateFileExtension("a.zip.ply")
  {
    assert "a.zip.ply" == "a.zip" + ".ply";
    ExtnameOfStemAndExt("a.zip", ".ply");
    var l := Lower(".ply");
    assert l[0] == '.' && l[1] == 'p' && l[2] == 'l' && l[3] == 'y';
    assert l == ".ply";
  }

  // --------------------------------------------------------- unique names

  function DigitChar(d: nat): (c: char)
    requires d < 10
    ensures '0' <= c <= '9'
  {
    (d + '0' as int) as char
  }

  /** `String(n)` for a non-negative integer: its decimal digits. */
  function NatToDecimal(n: nat): (r: string)
    ensures r != [] && forall i :: 0 <= i < |r| ==> '0' <= r[i] <= '9'
  {
    if n < 10 then [DigitChar(n)] else NatToDecimal(n / 10) + [DigitChar(n % 10)]
  }

  /** The digits of `Math.random().toString(36)` after its leading "0.". */
  predicate IsBase36(s: string) {
    forall i :: 0 <= i < |s| ==> ('0' <= s[i] <= '9' || 'a' <= s[i] <= 'z')
  }

  /** The clock reading and the random digits are parameters. */
  function GenerateUniqueFilename(originalName: string, timestamp: nat, random: string): string {
    NatToDecimal(timestamp) + "-" + random + Extname(originalName)
  }

  lemma {:induction false} ExtnameIsExtension(p: string)
    ensures IsExtension(Extname(p))
  {
    var seg := LastSegment(TrimTrailingSlashes(p));
    LastSegmentHasNoSlash(TrimTrailingSlashes(p));
    LastDotIsLast(seg);
    match LastDot(seg)
    case None =>
    case Some(d) =>
      if d != 0 && seg != ".." {
        var e := seg[d..];
        assert e[1..] == seg[d + 1..];
        assert forall i :: 0 <= i < |e| ==> e[i] == seg[d + i];
      }
  }

  /** A generated name keeps the original's extension, letter case
      included, so it passes validation exactly when the original does. */
  lemma GeneratedNameKeepsExtension(originalName: string, timestamp: nat, random: string)
    requires IsBase36(random)
    ensures Extname(GenerateUniqueFilename(originalName, timestamp, random)) == Extname(originalName)
    ensures ValidateFileExtension(GenerateUniqueFilename(originalName, timestamp, random))
        <==> ValidateFileExtension(originalName)
  {
    var stem := NatToDecimal(timestamp) + "-" + random;
    assert forall i :: 0 <= i < |stem| ==> stem[i] != '.' && stem[i] != '/' by {
      forall i | 0 <= i < |stem|
        ensures stem[i] != '.' && stem[i] != '/'
      {
        var t := NatToDecimal(timestamp);
        if i < |t| {
          assert stem[i] == t[i];
        } else if i > |t| {
          assert stem[i] == random[i - |t| - 1];
        }
      }
    }
    ExtnameIsExtension(originalName);
    ExtnameOfStemAndExt(stem, Extname(originalName));
  }

  // ----------------------------------------------------------------- urls

  function GetFileUrl(filename: string): string {
    "/uploads/" + filename
  }

  /** The model delete recovers the stored file name as the last '/'
      segment of its URL; for a name without '/' that is the name itself. */
  lemma {:induction false} FileUrlRoundTrip(filename: string)
    requires '/' !in filename
    ensures LastSegment(GetFileUrl(filename)) == filename
    decreases |filename|
  {
    var u := GetFileUrl(filename);
    if filename == [] {
      assert u[|u| - 1] == '/';
    } else {
      var f := filename[..|filename| - 1];
      assert u[..|u| - 1] == GetFileUrl(f);
      assert u[|u| - 1] == filename[|filename| - 1];
      FileUrlRoundTrip(f);
    }
  }

  /** Generated names never hold '/', so the round trip above applies. */
  lemma GeneratedNameHasNoSlash(originalName: string, timestamp: nat, random: string)
    requires IsBase36(random)
    ensures '/' !in GenerateUniqueFilename(originalName, timestamp, random)
    ensures LastSegment(GetFileUrl(GenerateUniqueFilename(originalName, timestamp, random)))
         == GenerateUniqueFilename(originalName, timestamp, random)
  {
    var g := GenerateUniqueFilename(originalName, timestamp, random);
    GeneratedNameKeepsExtension(originalName, timestamp, random);
    var stem := NatToDecimal(timestamp) + "-" + random;
    var e := Extname(originalName);
    ExtnameIsExtension(originalName);
    assert g == stem + e;
    forall i | 0 <= i < |g|
      ensures g[i] != '/'
    {
      var t := NatToDecimal(timestamp);
      if i < |t| {
        assert g[i] == t[i];
      } else if i == |t| {
      } else if i < |stem| {
        assert g[i] == random[i - |t| - 1];
      } else if i == |stem| {
        assert g[i] == e[0];
      } else {
        assert g[i] == e[1..][i - |stem| - 1];
      }
    }
    FileUrlRoundTrip(g);
  }
}
