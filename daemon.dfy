/**
 * The exchange-directory daemon: the MIME lookup of a new file, the
 * record it inserts for it, and the walk over the buffer of inotify
 * records one read() returns. The kernel's records are modelled as
 * values together with their byte layout (a 16-byte little-endian
 * header of wd, mask, cookie and len, then len bytes of NUL-padded name).
 */
module Daemon {
  import opened Wrappers
  import opened Text
  import opened TestUtils

  const ExchangeDir: string := "/home/just/mesh_proto/oxxyen_storage/file_dir/filetrade"

  /** get_mime_type: strcasecmp of the suffix from the last '.' against the known extensions. */
  function GetMimeType(filename: string): (r: Mime) {
    match LastIndexOf(filename, '.')
    case None => OctetStream
    case Some(d) =>
      var dot := filename[d..];
      if EqualsIgnoreCase(dot, ".jpg") || EqualsIgnoreCase(dot, ".jpeg") then ImageJpeg
      else if EqualsIgnoreCase(dot, ".png") then ImagePng
      else if EqualsIgnoreCase(dot, ".gif") then ImageGif
      else if EqualsIgnoreCase(dot, ".txt") then TextPlain
      else if EqualsIgnoreCase(dot, ".pdf") then ApplicationPdf
      else OctetStream
  }

  /** The daemon's table, on the lower-cased text after the dot. */
  function DaemonMimeOfExtension(ext: string): (r: Mime) {
    if ext == "jpg" || ext == "jpeg" then ImageJpeg
    else if ext == "png" then ImagePng
    else if ext == "gif" then ImageGif
    else if ext == "txt" then TextPlain
    else if ext == "pdf" then ApplicationPdf
    else OctetStream
  }

  /** strcasecmp of two dotted texts compares what follows the dots. */
  lemma DotCaseEq(dot: string, lit: string)
    requires |dot| > 0 && dot[0] == '.' && |lit| > 0 && lit[0] == '.' && LowerAscii(lit) == lit
    ensures EqualsIgnoreCase(dot, lit) <==> LowerAscii(dot[1..]) == lit[1..]
  {
    var l := LowerAscii(dot);
    assert l == [l[0]] + l[1..];
    assert l[1..] == LowerAscii(dot[1..]);
    assert lit == [lit[0]] + lit[1..];
  }

  /** The daemon's lookup reads the lowered text after the last dot. */
  lemma GetMimeTypeByExtension(filename: string)
    requires LastIndexOf(filename, '.').Some?
    ensures GetMimeType(filename) ==
            DaemonMimeOfExtension(LowerAscii(filename[LastIndexOf(filename, '.').value + 1..]))
  {
    var d := LastIndexOf(filename, '.').value;
    var dot := filename[d..];
    assert dot[1..] == filename[d + 1..];
    DotCaseEq(dot, ".jpg");
    DotCaseEq(dot, ".jpeg");
    DotCaseEq(dot, ".png");
    DotCaseEq(dot, ".gif");
    DotCaseEq(dot, ".txt");
    DotCaseEq(dot, ".pdf");
  }

  /** The two tables differ only on html, htm and gif. */
  lemma TablesAgree(ext: string)
    requires ext != "html" && ext != "htm" && ext != "gif"
    ensures DaemonMimeOfExtension(ext) == MimeOfExtension(ext)
  {
  }

  /**
   * The daemon's lookup agrees with the test suite's for every name with a
   * dot after its first character, except on html, htm (only the test
   * suite knows them) and gif (only the daemon knows it).
   */
  lemma MimeLookupsAgree(filename: string, d: nat)
    requires LastIndexOf(filename, '.') == Some(d) && d > 0
    requires var ext := LowerAscii(filename[d + 1..]); ext != "html" && ext != "htm" && ext != "gif"
    ensures GetMimeType(filename) == MimeTypeFromText(filename, true)
  {
    var ext := LowerAscii(filename[d + 1..]);
    GetMimeTypeByExtension(filename);
    assert GetMimeType(filename) == DaemonMimeOfExtension(ext);
    LoweringLoopHarmless(filename);
    assert MimeReference(filename) == MimeOfExtension(ext);
    TablesAgree(ext);
  }

  /** Where they differ: a bare ".pdf" and an upper-case ".HTML". */
  lemma MimeLookupsDiffer()
    ensures GetMimeType(".pdf") == ApplicationPdf && MimeTypeFromText(".pdf", true) == OctetStream
    ensures GetMimeType("page.HTML") == OctetStream
  {
    LastIndexOfAt(".pdf", '.', 0);
    assert ".pdf"[0..] == ".pdf";
    assert LowerAscii(".pdf") == ".pdf";
    LeadingDotIsOctetStream("pdf");
    LastIndexOfAt("page.HTML", '.', 4);
    assert "page.HTML"[4..] == ".HTML";
    assert LowerAscii(".HTML") == ".html";
  }

  // ---------------------------------------------------------------------
  // handle_file_created

  /** The record inserted for a new file: its name, its size and its MIME type. */
  datatype Insert = Insert(filename: string, size: nat, mime: Mime)

  /**
   * handle_file_created: nothing for anything but a regular file;
   * otherwise the text after the last '/' of the full path, the size stat
   * reported, and that name's MIME type.
   */
  function HandleFileCreated(fullpath: string, isRegular: bool, size: nat): (r: Option<Insert>)
    ensures r.Some? <==> isRegular
    ensures r.Some? ==> '/' !in r.value.filename && r.value.mime == GetMimeType(r.value.filename)
  {
    if !isRegular then None
    else
      var filename := Basename(fullpath);
      Some(Insert(filename, size, GetMimeType(filename)))
  }

  /** A file the watch reports under the exchange directory is inserted under its own name. */
  lemma CreatedUnderExchangeDir(name: string, size: nat)
    requires '/' !in name
    ensures HandleFileCreated(ExchangeDir + "/" + name, true, size) == Some(Insert(name, size, GetMimeType(name)))
  {
    var p := ExchangeDir + "/" + name;
    var k := |ExchangeDir|;
    assert p[k] == '/';
    assert forall j :: k < j < |p| ==> p[j] == name[j - k - 1];
    LastIndexOfAt(p, '/', k);
    assert p[k + 1..] == name;
  }

  /** The full path of a name of at most NAME_MAX bytes fits PATH_MAX, so snprintf never truncates it. */
  lemma FullPathFits(name: string)
    requires |name| <= 255
    ensures |ExchangeDir + "/" + name| < 4096
  {
  }

  // ---------------------------------------------------------------------
  // The event buffer

  const InMovedFrom: nat := 0x40
  const InMovedTo: nat := 0x80
  const InDelete: nat := 0x200
  const Word: nat := 0x1_0000_0000
  /** sizeof(struct inotify_event). */
  const HeaderSize: nat := 16

  /** `mask & bit` for a single-bit `bit`. */
  predicate HasFlag(mask: nat, bit: nat)
    requires bit > 0
  {
    (mask / bit) % 2 == 1
  }

  /** One inotify record; `name` is its len bytes, NUL padding included. */
  datatype Event = Event(wd: nat, mask: nat, cookie: nat, name: seq<byte>)

  predicate EventOk(e: Event) {
    e.wd < Word && e.mask < Word && e.cookie < Word && |e.name| < Word
  }

  /** A 32-bit field in little-endian byte order. */
  function U32(x: nat): (r: seq<byte>)
    requires x < Word
    ensures |r| == 4
  {
    [(x % 256) as byte, (x / 256 % 256) as byte, (x / 65536 % 256) as byte, (x / 16777216) as byte]
  }

  /** The 32-bit field stored at `at`. */
  function ReadU32(b: seq<byte>, at: nat): nat
    requires at + 4 <= |b|
  {
    b[at] as nat + 256 * (b[at + 1] as nat + 256 * (b[at + 2] as nat + 256 * (b[at + 3] as nat)))
  }

  lemma ReadU32Encoded(b: seq<byte>, at: nat, x: nat)
    requires x < Word && at + 4 <= |b| && b[at..at + 4] == U32(x)
    ensures ReadU32(b, at) == x
  {
    var w := b[at..at + 4];
    assert w[0] == b[at] && w[1] == b[at + 1] && w[2] == b[at + 2] && w[3] == b[at + 3];
    var q1 := x / 256;
    var q2 := q1 / 256;
    assert x / 65536 == q2;
    assert x / 16777216 == q2 / 256;
  }

  /** The bytes of one record. */
  function EncodeEvent(e: Event): (r: seq<byte>)
    requires EventOk(e)
    ensures |r| == HeaderSize + |e.name|
  {
    U32(e.wd) + U32(e.mask) + U32(e.cookie) + U32(|e.name|) + e.name
  }

  predicate AllOk(events: seq<Event>) {
    forall i :: 0 <= i < |events| ==> EventOk(events[i])
  }

  /** The buffer read() fills with these records. */
  function EncodeAll(events: seq<Event>): (r: seq<byte>)
    requires AllOk(events)
    ensures events != [] ==> |r| >= HeaderSize
  {
    if events == [] then [] else EncodeEvent(events[0]) + EncodeAll(events[1..])
  }

  /** The record at `ptr` of the buffer: its header fields, its name bytes and what follows it. */
  lemma RecordAt(buffer: seq<byte>, ptr: nat, e: Event, rest: seq<byte>)
    requires EventOk(e) && ptr <= |buffer| && buffer[ptr..] == EncodeEvent(e) + rest
    ensures ptr + HeaderSize + |e.name| <= |buffer|
    ensures ReadU32(buffer, ptr + 4) == e.mask
    ensures ReadU32(buffer, ptr + 12) == |e.name|
    ensures buffer[ptr + HeaderSize..ptr + HeaderSize + |e.name|] == e.name
    ensures buffer[ptr + HeaderSize + |e.name|..] == rest
  {
    var enc := EncodeEvent(e);
    var n := |e.name|;
    assert |buffer| - ptr == |enc| + |rest|;
    assert forall j :: 0 <= j < |enc| ==> buffer[ptr + j] == enc[j] by {
      forall j | 0 <= j < |enc| ensures buffer[ptr + j] == enc[j] {
        assert buffer[ptr..][j] == buffer[ptr + j];
        assert (enc + rest)[j] == enc[j];
      }
    }
    assert buffer[ptr + 4..ptr + 8] == enc[4..8] == U32(e.mask);
    ReadU32Encoded(buffer, ptr + 4, e.mask);
    assert buffer[ptr + 12..ptr + 16] == enc[12..16] == U32(n);
    ReadU32Encoded(buffer, ptr + 12, n);
    assert buffer[ptr + 16..ptr + 16 + n] == enc[16..16 + n] == e.name;
    assert buffer[ptr + 16 + n..] == buffer[ptr..][16 + n..] == rest;
  }

  /** The name as a C string: the bytes before the first NUL. */
  function CName(b: seq<byte>): (r: string)
    ensures |r| <= |b|
  {
    if |b| == 0 || b[0] == 0 then "" else [(b[0] as int) as char] + CName(b[1..])
  }

  /** The handler calls the walk makes. */
  datatype Action = Created(fullpath: string) | Deleted(name: string)

  /**
   * The dispatch of one record: nothing for a record without a name;
   * IN_MOVED_TO before anything else, as a creation under the exchange
   * directory; then IN_MOVED_FROM or IN_DELETE as a deletion; any other
   * mask is ignored.
   */
  function ActionsOf(e: Event): (r: seq<Action>)
    ensures |r| <= 1
  {
    if |e.name| == 0 then []
    else if HasFlag(e.mask, InMovedTo) then [Created(ExchangeDir + "/" + CName(e.name))]
    else if HasFlag(e.mask, InMovedFrom) || HasFlag(e.mask, InDelete) then [Deleted(CName(e.name))]
    else []
  }

  /** The calls for a sequence of records, in order. */
  function Dispatch(events: seq<Event>): (r: seq<Action>)
    ensures |r| <= |events|
  {
    if events == [] then [] else ActionsOf(events[0]) + Dispatch(events[1..])
  }

  /** One turn of the loop: the calls for the record at `ptr` and where the cursor goes next. */
  method DispatchRecord(buffer: seq<byte>, ptr: nat, ghost e: Event, ghost rest: seq<byte>)
    returns (step: seq<Action>, next: nat)
    requires EventOk(e) && ptr <= |buffer| && buffer[ptr..] == EncodeEvent(e) + rest
    ensures step == ActionsOf(e)
    ensures next == ptr + HeaderSize + |e.name| && next <= |buffer| && buffer[next..] == rest
  {
    RecordAt(buffer, ptr, e, rest);
    var len := ReadU32(buffer, ptr + 12);
    var mask := ReadU32(buffer, ptr + 4);
    if len == 0 {
      return [], ptr + HeaderSize;
    }
    var name := CName(buffer[ptr + HeaderSize..ptr + HeaderSize + len]);
    if mask / InMovedTo % 2 == 1 {
      step := [Created(ExchangeDir + "/" + name)];
    } else if mask / InMovedFrom % 2 == 1 || mask / InDelete % 2 == 1 {
      step := [Deleted(name)];
    } else {
      step := [];
    }
    next := ptr + HeaderSize + len;
  }

  /**
   * The read loop body: the cursor starts at the buffer and advances by
   * the header plus len, or by the header alone for len == 0, until it
   * reaches the end. Over the bytes of any kernel records it makes
   * exactly the calls their dispatch prescribes, in order.
   */
  method WalkEvents(buffer: seq<byte>, ghost events: seq<Event>) returns (actions: seq<Action>)
    requires AllOk(events) && buffer == EncodeAll(events)
    ensures actions == Dispatch(events)
  {
    var ptr := 0;
    ghost var k := 0;
    actions := [];
    while ptr < |buffer|
      invariant 0 <= k <= |events| && ptr <= |buffer|
      invariant AllOk(events[k..]) && buffer[ptr..] == EncodeAll(events[k..])
      invariant actions + Dispatch(events[k..]) == Dispatch(events)
      decreases |buffer| - ptr
    {
      assert events[k..] != [];
      ghost var e := events[k];
      assert events[k..][0] == e && events[k..][1..] == events[k + 1..];
      var step;
      step, ptr := DispatchRecord(buffer, ptr, e, EncodeAll(events[k + 1..]));
      actions := actions + step;
      k := k + 1;
    }
    assert events[k..] == [];
    assert events[k..] == [] ==> Dispatch(events[k..]) == [];
  }

  /** A record moved in that is also a deletion counts as a creation. */
  lemma MovedToTakesPrecedence(name: seq<byte>)
    requires |name| > 0
    ensures ActionsOf(Event(1, InMovedTo + InDelete, 0, name)) == [Created(ExchangeDir + "/" + CName(name))]
  {
  }
}
