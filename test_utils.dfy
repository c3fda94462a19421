/**
 * The helpers of the test suite's mocks: the filename after the last
 * '/', and a MIME lookup that lower-cases a copy of the extension in
 * place before comparing it with the known extensions.
 */
module TestUtils {
  import opened Wrappers
  import opened Text

  /** The MIME types the lookups return. */
  datatype Mime = ApplicationPdf | TextPlain | TextHtml | ImageJpeg | ImagePng | ImageGif | OctetStream
  {
    /** The string the C function returns. */
    function Name(): string {
      match this
      case ApplicationPdf => "application/pdf"
      case TextPlain => "text/plain"
      case TextHtml => "text/html"
      case ImageJpeg => "image/jpeg"
      case ImagePng => "image/png"
      case ImageGif => "image/gif"
      case OctetStream => "application/octet-stream"
    }
  }

  /** A C `char` read as a signed byte, as the comparison `i < ext[i]` sees it. */
  function SignedChar(c: char): (r: int)
    ensures -128 <= r < 128
    ensures c as int < 128 ==> r == c as int
  {
    var b := c as int % 256;
    if b < 128 then b else b - 256
  }

  /** Where the loop `for (i = 0; i < ext[i]; i++)` stops when started at `i`. */
  function LowerStop(s: string, i: nat): (r: nat)
    requires i <= |s|
    ensures i <= r <= |s|
    ensures forall j :: i <= j < r ==> j < SignedChar(s[j])
    ensures r == |s| || r >= SignedChar(s[r])
    decreases |s| - i
  {
    if i < |s| && i < SignedChar(s[i]) then LowerStop(s, i + 1) else i
  }

  /** The buffer after the loop: lower-cased up to where it stopped, untouched after. */
  function LoweredAsWritten(s: string): (r: string)
    ensures |r| == |s|
  {
    var k := LowerStop(s, 0);
    LowerAscii(s[..k]) + s[k..]
  }

  /** The lowering loop on the strdup'd copy. */
  method LowerInPlace(ext: array<char>)
    modifies ext
    ensures ext[..] == LoweredAsWritten(old(ext[..]))
  {
    ghost var s := ext[..];
    var i := 0;
    while i < ext.Length && i < SignedChar(ext[i])
      invariant 0 <= i <= ext.Length
      invariant LowerStop(s, i) == LowerStop(s, 0)
      invariant ext[..i] == LowerAscii(s[..i])
      invariant ext[i..] == s[i..]
      decreases ext.Length - i
    {
      assert ext[i] == s[i] by {
        assert ext[i..][0] == ext[i] && s[i..][0] == s[i];
      }
      ext[i] := ToLowerAscii(ext[i]);
      i := i + 1;
      assert ext[..i] == LowerAscii(s[..i]) by {
        assert forall j :: 0 <= j < i ==> ext[..i][j] == ext[j];
      }
    }
    assert i == ext.Length || !(i < SignedChar(s[i])) by {
      if i < ext.Length {
        assert ext[i..][0] == ext[i] && s[i..][0] == s[i];
      }
    }
    assert ext[..] == ext[..i] + ext[i..];
  }

  /** The strcmp chain on the lowered extension. */
  function MimeOfExtension(ext: string): (r: Mime) {
    if ext == "pdf" then ApplicationPdf
    else if ext == "txt" then TextPlain
    else if ext == "html" || ext == "htm" then TextHtml
    else if ext == "jpg" || ext == "jpeg" then ImageJpeg
    else if ext == "png" then ImagePng
    else OctetStream
  }

  /** A known extension is at most four lower-case letters. */
  predicate ShortLowerWord(ext: string) {
    |ext| <= 4 && forall i :: 0 <= i < |ext| ==> 'a' <= ext[i] <= 'z'
  }

  lemma KnownExtensionShape(ext: string)
    requires MimeOfExtension(ext) != OctetStream
    ensures ShortLowerWord(ext)
  {
  }

  /**
   * The extension get_mime_type_from_text compares, as written: what
   * follows the last '.' of the whole argument, after the lowering loop
   * on a copy of it. None when there is no dot, when the dot is the first
   * character, or when strdup fails (`duplicates` false).
   */
  function LoweredExtension(filename: string, duplicates: bool): (r: Option<string>)
    ensures r.Some? <==> duplicates && '.' in filename && LastIndexOf(filename, '.') != Some(0)
  {
    match LastIndexOf(filename, '.')
    case None => None
    case Some(d) =>
      if d == 0 || !duplicates then None
      else Some(LoweredAsWritten(filename[d + 1..]))
  }

  /** get_mime_type_from_text as written: the strcmp chain on that extension. */
  function MimeTypeFromText(filename: string, duplicates: bool): (r: Mime) {
    match LoweredExtension(filename, duplicates)
    case None => OctetStream
    case Some(ext) => MimeOfExtension(ext)
  }

  /** The same lookup with every character of the extension lower-cased. */
  function MimeReference(filename: string): (r: Mime) {
    match LastIndexOf(filename, '.')
    case None => OctetStream
    case Some(d) => if d == 0 then OctetStream else MimeOfExtension(LowerAscii(filename[d + 1..]))
  }

  /** The code as written, with the buffer lowered in place. */
  method GetMimeTypeFromText(filename: string, duplicates: bool) returns (mime: Mime)
    ensures mime == MimeTypeFromText(filename, duplicates)
  {
    var ext := ExtensionToCompare(filename, duplicates);
    match ext
    case None =>
      mime := OctetStream;
    case Some(e) =>
      mime := MimeOfExtension(e);
  }

  /** The strrchr, the first-character test and the strdup'd, lowered copy. */
  method ExtensionToCompare(filename: string, duplicates: bool) returns (ext: Option<string>)
    ensures ext == LoweredExtension(filename, duplicates)
  {
    var dot := LastIndexOf(filename, '.');
    if dot.None? || dot.value == 0 || !duplicates {
      ext := None;
    } else {
      var lowered := LowerCopy(filename[dot.value + 1..]);
      ext := Some(lowered);
    }
  }

  /** strdup of the extension, then the lowering loop on the copy. */
  method LowerCopy(extension: string) returns (lowered: string)
    ensures lowered == LoweredAsWritten(extension)
  {
    var copy := new char[|extension|](i requires 0 <= i < |extension| => extension[i]);
    assert copy[..] == extension;
    LowerInPlace(copy);
    lowered := copy[..];
  }

  /** When the loop runs to the end, the buffer is lower-cased completely. */
  lemma LoweredWhenRunToEnd(s: string)
    requires LowerStop(s, 0) == |s|
    ensures LoweredAsWritten(s) == LowerAscii(s)
  {
    assert s[..|s|] == s;
  }

  /** For printable text of at most 32 characters the loop never stops early. */
  lemma PrintableShortLowered(s: string)
    requires |s| <= 32
    requires forall i :: 0 <= i < |s| ==> ' ' <= s[i] <= '~'
    ensures LoweredAsWritten(s) == LowerAscii(s)
  {
    LoweredWhenRunToEnd(s);
  }

  /** A character at which the loop stops cannot sit in a short lower-case word. */
  lemma StopCharNotLetter(s: string, t: string, k: nat)
    requires k < |s| == |t| && k >= SignedChar(s[k])
    requires t[k] == s[k] || t[k] == ToLowerAscii(s[k])
    ensures !ShortLowerWord(t)
  {
  }

  /** Where the loop stops early, neither lowering yields a known extension. */
  lemma EarlyStopUnknown(s: string)
    requires LowerStop(s, 0) < |s|
    ensures MimeOfExtension(LoweredAsWritten(s)) == OctetStream
    ensures MimeOfExtension(LowerAscii(s)) == OctetStream
  {
    var k := LowerStop(s, 0);
    var w := LoweredAsWritten(s);
    assert w[k] == s[k] by {
      assert w == LowerAscii(s[..k]) + s[k..];
    }
    StopCharNotLetter(s, w, k);
    StopCharNotLetter(s, LowerAscii(s), k);
    if MimeOfExtension(w) != OctetStream {
      KnownExtensionShape(w);
    }
    if MimeOfExtension(LowerAscii(s)) != OctetStream {
      KnownExtensionShape(LowerAscii(s));
    }
  }

  /**
   * The loop's odd bound never changes the answer: the lookup as written
   * equals the lookup with the whole extension lower-cased.
   */
  lemma LoweringLoopHarmless(filename: string)
    ensures MimeTypeFromText(filename, true) == MimeReference(filename)
  {
    match LastIndexOf(filename, '.')
    case None =>
    case Some(d) =>
      if d != 0 {
        var ext := filename[d + 1..];
        assert LoweredExtension(filename, true) == Some(LoweredAsWritten(ext));
        assert MimeReference(filename) == MimeOfExtension(LowerAscii(ext));
        ExtensionLoweringHarmless(ext);
      }
  }

  /** On one extension, the lowering loop as written and full lowering classify alike. */
  lemma ExtensionLoweringHarmless(ext: string)
    ensures MimeOfExtension(LoweredAsWritten(ext)) == MimeOfExtension(LowerAscii(ext))
  {
    if LowerStop(ext, 0) == |ext| {
      LoweredWhenRunToEnd(ext);
    } else {
      EarlyStopUnknown(ext);
    }
  }

  /** A name whose only dot is its first character is not looked up at all. */
  lemma LeadingDotIsOctetStream(rest: string)
    requires '.' !in rest
    ensures MimeTypeFromText("." + rest, true) == OctetStream
  {
    assert forall j :: 0 < j < |"." + rest| ==> ("." + rest)[j] == rest[j - 1];
    LastIndexOfAt("." + rest, '.', 0);
  }

  /** Test(utils, mime_type), first assertion. */
  lemma PdfMimeTest()
    ensures MimeTypeFromText("file.pdf", true) == ApplicationPdf
  {
    LastIndexOfAt("file.pdf", '.', 4);
    assert "file.pdf"[5..] == "pdf";
    PrintableShortLowered("pdf");
    assert LowerAscii("pdf") == "pdf";
    assert LoweredExtension("file.pdf", true) == Some("pdf");
  }

  /** Test(utils, mime_type), second assertion. */
  lemma JpgMimeTest()
    ensures MimeTypeFromText("image.jpg", true) == ImageJpeg
  {
    LastIndexOfAt("image.jpg", '.', 5);
    assert "image.jpg"[6..] == "jpg";
    PrintableShortLowered("jpg");
    assert LowerAscii("jpg") == "jpg";
    assert LoweredExtension("image.jpg", true) == Some("jpg");
  }

  /** Test(utils, mime_type), third assertion. */
  lemma UnknownMimeTest()
    ensures MimeTypeFromText("unknown.xyz", true) == OctetStream
  {
    LastIndexOfAt("unknown.xyz", '.', 7);
    assert "unknown.xyz"[8..] == "xyz";
    PrintableShortLowered("xyz");
    assert LowerAscii("xyz") == "xyz";
    assert LoweredExtension("unknown.xyz", true) == Some("xyz");
  }

  /** Test(utils, extract_filename), first assertion: extract_filename_from_path is the text after the last '/'. */
  lemma ExtractFromAbsolutePath()
    ensures Basename("/home/user/docks/report.pdf") == "report.pdf"
  {
    LastIndexOfAt("/home/user/docks/report.pdf", '/', 16);
    assert "/home/user/docks/report.pdf"[17..] == "report.pdf";
  }

  /** Test(utils, extract_filename), second assertion: a bare name is returned whole. */
  lemma ExtractFromBareName()
    ensures Basename("simple.txt") == "simple.txt"
  {
    var s := "simple.txt";
    assert forall j :: 0 <= j < |s| ==> s[j] != '/';
  }

  /** Test(utils, extract_filename), third assertion. */
  lemma ExtractWithoutExtension()
    ensures Basename("/no/extension") == "extension"
  {
    LastIndexOfAt("/no/extension", '/', 3);
    assert "/no/extension"[4..] == "extension";
  }
}
