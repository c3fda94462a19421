/**
 * The file server's request rules: basename, extension and stem
 * splitting of stored names, the path and recipient checks of UPLOAD,
 * and the access, offset and range rule of DOWNLOAD. Sockets, TLS, the
 * document store and the AES-GCM primitive are parameters.
 */
module Server {
  import opened Wrappers
  import opened Text

  // ---------------------------------------------------------------------
  // Names

  /**
   * get_file_extension: None for a NULL path; otherwise the basename's
   * suffix from its last '.', or "" when it has no dot or its only
   * relevant dot is its first character.
   */
  function FileExtension(fullPath: Option<string>): (r: Option<string>)
    ensures r.Some? <==> fullPath.Some?
  {
    match fullPath
    case None => None
    case Some(path) =>
      var name := Basename(path);
      match LastIndexOf(name, '.')
      case None => Some("")
      case Some(d) => if d == 0 then Some("") else Some(name[d..])
  }

  /** get_filename_without_extension: the basename up to, not including, its last '.'. */
  function FilenameWithoutExtension(fullFilename: string): (r: string)
    ensures '/' !in r
    ensures |r| <= |Basename(fullFilename)| && r == Basename(fullFilename)[..|r|]
  {
    var name := Basename(fullFilename);
    match LastIndexOf(name, '.')
    case None => name
    case Some(d) =>
      assert forall j :: 0 <= j < d ==> name[..d][j] == name[j];
      name[..d]
  }

  /** A piece of a basename holds no '/'. */
  lemma NoSlashInSuffix(name: string, d: nat)
    requires '/' !in name && d <= |name|
    ensures '/' !in name[d..]
  {
    assert forall j :: 0 <= j < |name| - d ==> name[d..][j] == name[d + j];
  }

  /**
   * `e` is an extension of `name`: it starts with a dot, holds no other dot
   * and no '/', and is a proper suffix of the name.
   */
  predicate ExtensionOf(e: string, name: string) {
    && 0 < |e| < |name|
    && e[0] == '.' && '.' !in e[1..] && '/' !in e
    && e == name[|name| - |e|..]
  }

  /** The suffix of a basename from its last dot, when that dot is not its first character. */
  lemma SuffixFromLastDot(name: string, d: nat)
    requires 0 < d < |name| && name[d] == '.' && '/' !in name
    requires forall j :: d < j < |name| ==> name[j] != '.'
    ensures ExtensionOf(name[d..], name)
  {
    var k := d + 1;
    assert name[d..][1..] == name[k..];
    assert forall j :: 0 <= j < |name| - k ==> name[k..][j] == name[k + j];
    NoSlashInSuffix(name, d);
  }

  /** The extension is empty or an extension of the basename in the sense above. */
  lemma ExtensionShape(path: string)
    ensures FileExtension(Some(path)).value == "" || ExtensionOf(FileExtension(Some(path)).value, Basename(path))
  {
    var name := Basename(path);
    match LastIndexOf(name, '.')
    case None =>
    case Some(d) =>
      if d != 0 {
        assert FileExtension(Some(path)).value == name[d..];
        SuffixFromLastDot(name, d);
      }
  }

  /**
   * Stem and extension put back together give the basename exactly when
   * the basename's last dot is not its first character: a dotfile such as
   * ".bashrc" has an empty stem and an empty extension.
   */
  lemma StemExtensionRoundTrip(path: string)
    ensures FilenameWithoutExtension(path) + FileExtension(Some(path)).value == Basename(path)
            <==> LastIndexOf(Basename(path), '.') != Some(0)
  {
    var name := Basename(path);
    match LastIndexOf(name, '.')
    case None =>
    case Some(d) =>
      if d != 0 {
        assert name[..d] + name[d..] == name;
      }
  }

  /** A dotfile under any directory: both parts are empty. */
  lemma DotfileHasNoParts(dir: string, rest: string)
    requires '.' !in rest && '/' !in rest
    ensures FilenameWithoutExtension(dir + "/." + rest) == ""
    ensures FileExtension(Some(dir + "/." + rest)) == Some("")
  {
    var path := dir + "/." + rest;
    assert path[|dir|] == '/';
    assert forall j :: |dir| < j < |path| ==> path[j] == ("." + rest)[j - |dir| - 1];
    LastIndexOfAt(path, '/', |dir|);
    assert path[|dir| + 1..] == "." + rest;
    assert forall j :: 0 < j < |"." + rest| ==> ("." + rest)[j] == rest[j - 1];
    LastIndexOfAt("." + rest, '.', 0);
  }

  // ---------------------------------------------------------------------
  // Request checks

  /** The reply statuses the server sends. */
  datatype Status = Success | Failure | FileNotFound | PermissionDenied | Error
                  | IntegrityError | InvalidOffset | UnknownCommand

  /** strstr(name, "..") || strchr(name, '/'): the name escapes the storage directory. */
  predicate NameForbidden(filename: string) {
    Contains(filename, "..") || '/' in filename
  }

  /** The fingerprint buffer size; a fingerprint is FINGERPRINT_LEN - 1 hex digits. */
  const FingerprintLen: nat := 65

  predicate IsLowerHex(c: char) {
    '0' <= c <= '9' || 'a' <= c <= 'f'
  }

  /** An empty recipient, or exactly 64 lowercase hex digits. */
  predicate ValidRecipient(recipient: string) {
    |recipient| == 0 ||
    (|recipient| == FingerprintLen - 1 && forall i :: 0 <= i < 64 ==> IsLowerHex(recipient[i]))
  }

  /** The recipient check of handle_upload_request: a length test, then the digit loop. */
  method RecipientAccepted(recipient: string) returns (ok: bool)
    ensures ok <==> ValidRecipient(recipient)
  {
    if |recipient| == 0 {
      return true;
    }
    if |recipient| != FingerprintLen - 1 {
      return false;
    }
    var i := 0;
    while i < 64
      invariant 0 <= i <= 64
      invariant forall j :: 0 <= j < i ==> IsLowerHex(recipient[j])
    {
      if !('0' <= recipient[i] <= '9' || 'a' <= recipient[i] <= 'f') {
        return false;
      }
      i := i + 1;
    }
    return true;
  }

  /** Upper-case hex digits are refused. */
  lemma UppercaseFingerprintRejected(recipient: string, i: nat)
    requires |recipient| == 64 && i < 64 && 'A' <= recipient[i] <= 'F'
    ensures !ValidRecipient(recipient)
  {
  }

  /** The status the checks of handle_upload_request leave a request with; Success lets the transfer start. */
  function UploadGate(cryptoReady: bool, filename: string, recipient: string): Status {
    if !cryptoReady then Error
    else if NameForbidden(filename) then PermissionDenied
    else if !ValidRecipient(recipient) then PermissionDenied
    else Success
  }

  /** The checks at the top of handle_upload_request, in their order. */
  method CheckUpload(cryptoReady: bool, filename: string, recipient: string) returns (status: Status)
    ensures status == UploadGate(cryptoReady, filename, recipient)
  {
    if !cryptoReady {
      return Error;
    }
    if Contains(filename, "..") || '/' in filename {
      return PermissionDenied;
    }
    var ok := RecipientAccepted(recipient);
    if !ok {
      return PermissionDenied;
    }
    return Success;
  }

  /** An upload proceeds exactly when the crypto context is up, the name is confined and the recipient valid. */
  lemma UploadGateIff(cryptoReady: bool, filename: string, recipient: string)
    ensures UploadGate(cryptoReady, filename, recipient) == Success <==>
            cryptoReady && !Contains(filename, "..") && '/' !in filename && ValidRecipient(recipient)
    ensures cryptoReady && NameForbidden(filename) ==> UploadGate(cryptoReady, filename, recipient) == PermissionDenied
  {
  }

  /** Names that merely contain two dots, like "a..b", are refused too. */
  lemma DoubleDotNameRefused()
    ensures NameForbidden("a..b")
  {
    assert OccursAt("a..b", "..", 1);
  }

  // ---------------------------------------------------------------------
  // DOWNLOAD

  /** The fields of the stored document the handler reads. */
  datatype FileDoc = FileDoc(ownerFingerprint: Option<string>, isPublic: bool,
                             iv: Option<seq<byte>>, tag: Option<seq<byte>>)

  /** What the client receives: the header's status and size, then the payload bytes. */
  datatype DownloadReply = DownloadReply(status: Status, filesize: int, payload: seq<byte>)

  /** The access rule: public, or owned by exactly this client. */
  predicate CanAccess(doc: FileDoc, clientFingerprint: string) {
    doc.isPublic || (doc.ownerFingerprint.Some? && doc.ownerFingerprint.value == clientFingerprint)
  }

  /** The offset rule: within 0..the on-disk size, both ends included. */
  predicate OffsetValid(offset: int, filesize: int) {
    0 <= offset <= filesize
  }

  /** The bytes from `offset` on, none when the offset lies at or past the end. */
  function Tail(plaintext: seq<byte>, offset: int): (r: seq<byte>)
    requires offset >= 0
    ensures |r| == if |plaintext| - offset < 0 then 0 else |plaintext| - offset
  {
    if offset < |plaintext| then plaintext[offset..] else []
  }

  /**
   * handle_download_request. `doc` is the first live document with the
   * name, `diskSize` the stat result, `ciphertext` the file as read (None
   * when opening, allocating or reading fails) and `decrypt` the AES-GCM
   * decryption under the server key (None when authentication fails).
   */
  function Download(filename: string, doc: Option<FileDoc>, clientFingerprint: string,
                    diskSize: Option<int>, offset: int, ciphertext: Option<seq<byte>>,
                    decrypt: (seq<byte>, seq<byte>, seq<byte>) -> Option<seq<byte>>): DownloadReply
  {
    if NameForbidden(filename) then DownloadReply(PermissionDenied, 0, [])
    else if doc.None? then DownloadReply(FileNotFound, 0, [])
    else if !CanAccess(doc.value, clientFingerprint) then DownloadReply(PermissionDenied, 0, [])
    else if diskSize.None? then DownloadReply(FileNotFound, 0, [])
    else if !OffsetValid(offset, diskSize.value) then DownloadReply(InvalidOffset, 0, [])
    else if ciphertext.None? then DownloadReply(Error, 0, [])
    else if doc.value.iv.None? || doc.value.tag.None? || |doc.value.iv.value| != 12 || |doc.value.tag.value| != 16
    then DownloadReply(Error, 0, [])
    else match decrypt(ciphertext.value, doc.value.iv.value, doc.value.tag.value)
      case None => DownloadReply(Error, 0, [])
      case Some(plaintext) => DownloadReply(Success, |plaintext|, Tail(plaintext, offset))
  }

  /**
   * A download succeeds only for a confined name, a found and accessible
   * document, an offset within the on-disk size, a 12-byte IV and a
   * 16-byte tag; the header then announces the whole plaintext length
   * while the payload is the plaintext from the offset on, so that the
   * skipped prefix and the payload make up the plaintext again.
   */
  lemma DownloadSuccess(filename: string, doc: Option<FileDoc>, clientFingerprint: string,
                        diskSize: Option<int>, offset: int, ciphertext: Option<seq<byte>>,
                        decrypt: (seq<byte>, seq<byte>, seq<byte>) -> Option<seq<byte>>)
    requires Download(filename, doc, clientFingerprint, diskSize, offset, ciphertext, decrypt).status == Success
    ensures !NameForbidden(filename) && doc.Some? && CanAccess(doc.value, clientFingerprint)
    ensures diskSize.Some? && 0 <= offset <= diskSize.value && ciphertext.Some?
    ensures doc.value.iv.Some? && |doc.value.iv.value| == 12 && doc.value.tag.Some? && |doc.value.tag.value| == 16
    ensures var r := Download(filename, doc, clientFingerprint, diskSize, offset, ciphertext, decrypt);
            var plaintext := decrypt(ciphertext.value, doc.value.iv.value, doc.value.tag.value);
            && plaintext.Some?
            && r.filesize == |plaintext.value|
            && |r.payload| == (if r.filesize - offset < 0 then 0 else r.filesize - offset)
            && (offset <= |plaintext.value| ==> plaintext.value[..offset] + r.payload == plaintext.value)
  {
    var r := Download(filename, doc, clientFingerprint, diskSize, offset, ciphertext, decrypt);
    var plaintext := decrypt(ciphertext.value, doc.value.iv.value, doc.value.tag.value).value;
    if offset < |plaintext| {
      assert plaintext[..offset] + plaintext[offset..] == plaintext;
    } else if offset == |plaintext| {
      assert plaintext[..offset] == plaintext;
    }
  }

  /** The name check and the access rule are applied before anything else is looked at. */
  lemma DownloadRefusals(filename: string, doc: Option<FileDoc>, clientFingerprint: string,
                         diskSize: Option<int>, offset: int, ciphertext: Option<seq<byte>>,
                         decrypt: (seq<byte>, seq<byte>, seq<byte>) -> Option<seq<byte>>)
    ensures NameForbidden(filename) ==>
              Download(filename, doc, clientFingerprint, diskSize, offset, ciphertext, decrypt).status == PermissionDenied
    ensures !NameForbidden(filename) && doc.Some? && !CanAccess(doc.value, clientFingerprint) ==>
              Download(filename, doc, clientFingerprint, diskSize, offset, ciphertext, decrypt).status == PermissionDenied
    ensures !NameForbidden(filename) && doc.Some? && CanAccess(doc.value, clientFingerprint) && diskSize.Some? ==>
              (Download(filename, doc, clientFingerprint, diskSize, offset, ciphertext, decrypt).status == InvalidOffset
               <==> offset < 0 || offset > diskSize.value)
  {
  }
}
