/**
 * The filename check of the server's test suite: a name is safe when it
 * is present, holds no '/' and no "..", and its length lies strictly
 * between 0 and FILENAME_MAX_LEN.
 */
module PathValidation {
  import opened Wrappers
  import opened Text
  import Server

  /** FILENAME_MAX_LEN of the protocol header: the size of the request's name field. */
  const FilenameMaxLen: nat := 256

  /**
   * is_safe_filename. A safe name is its own basename, so joined under a
   * directory it names a file of that directory, and it fits the
   * protocol's name field with its terminating NUL.
   */
  function IsSafeFilename(filename: Option<string>): (r: bool)
    ensures r ==> filename.Some? && Basename(filename.value) == filename.value
    ensures r ==> 0 < |filename.value| < FilenameMaxLen
  {
    match filename
    case None => false
    case Some(f) =>
      if '/' in f || Contains(f, "..") then false
      else
        assert LastIndexOf(f, '/').None?;
        0 < |f| && |f| < FilenameMaxLen
  }

  /** The test's check is the server's escape check plus the length bounds, in both directions. */
  lemma SafeIffServerAccepts(f: string)
    ensures IsSafeFilename(Some(f)) <==> !Server.NameForbidden(f) && 0 < |f| < FilenameMaxLen
  {
  }

  /** A name without '/', without two adjacent dots and of a fitting length is safe. */
  lemma SafeByCharacters(f: string)
    requires forall j :: 0 <= j < |f| ==> f[j] != '/'
    requires forall j :: 0 <= j < |f| - 1 ==> !(f[j] == '.' && f[j + 1] == '.')
    requires 0 < |f| < FilenameMaxLen
    ensures IsSafeFilename(Some(f))
  {
    NoDoubleDot(f);
  }

  /** test_safe_filename_valid, first assertion. */
  lemma ReportPdfSafe()
    ensures IsSafeFilename(Some("report.pdf"))
  {
    SafeByCharacters("report.pdf");
  }

  /** test_safe_filename_valid, second assertion. */
  lemma NumberedTxtSafe()
    ensures IsSafeFilename(Some("file_123.txt"))
  {
    SafeByCharacters("file_123.txt");
  }

  /** test_safe_filename_invalid. */
  lemma SafeFilenameInvalidTests()
    ensures !IsSafeFilename(Some("../etc/passwd"))
    ensures !IsSafeFilename(Some("/etc/passwd"))
    ensures !IsSafeFilename(Some("file/evil.txt"))
    ensures !IsSafeFilename(Some(""))
    ensures !IsSafeFilename(None)
  {
    assert "../etc/passwd"[2] == '/';
    assert "/etc/passwd"[0] == '/';
    assert "file/evil.txt"[4] == '/';
  }

  /** test_safe_filename_edge: FILENAME_MAX_LEN + 5 copies of 'A' are too long. */
  lemma LongFilenameRejected()
    ensures !IsSafeFilename(Some(seq(FilenameMaxLen + 5, _ => 'A')))
  {
  }

  /** A benign name with two adjacent dots is refused all the same. */
  lemma AdjacentDotsRejected()
    ensures !IsSafeFilename(Some("a..b"))
  {
    Server.DoubleDotNameRefused();
  }
}
