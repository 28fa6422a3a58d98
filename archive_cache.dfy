/**
 * The monthly archive cache of status/builds.py (class lists): the manifest
 * of downloaded archives, the integrity check by SHA-512, the decision to
 * fetch a month again and the update of its manifest entry.
 *
 * The network is replaced by what a fetch delivers: the response headers
 * and the archive's content. The disk is a map from path to content, and the
 * SHA-512/base64 digest is an uninterpreted function of the content that the
 * cache is created with.
 */
module ArchiveCache {
  import opened Wrappers

  type Content = seq<bv8>

  /** base64(sha512(content)), left uninterpreted. */
  type Hash = Content -> string

  const ListsBase: string := "https://lists.rtems.org"
  const MailmanBase: string := ListsBase + "/pipermail"
  const BuildsBase: string := MailmanBase + "/build"
  const BuildsExt: string := ".txt"

  /** url(month): where the compressed archive of a month is published. */
  function Url(month: string): (r: string)
    ensures r == "https://lists.rtems.org/pipermail/build/" + month + ".txt.gz"
  {
    BuildsBase + "/" + month + BuildsExt + ".gz"
  }

  const UrlPrefix: string := "https://lists.rtems.org/pipermail/build/"
  const UrlSuffix: string := ".txt.gz"

  /** The month an archive URL names, if it is one. */
  function MonthOfUrl(url: string): Option<string> {
    if |url| >= |UrlPrefix| + |UrlSuffix| && url[..|UrlPrefix|] == UrlPrefix
       && url[|url| - |UrlSuffix|..] == UrlSuffix
    then Some(url[|UrlPrefix|..|url| - |UrlSuffix|])
    else None
  }

  lemma UrlRoundTrip(month: string)
    ensures MonthOfUrl(Url(month)) == Some(month)
  {
    var u := Url(month);
    assert u == UrlPrefix + month + UrlSuffix;
    assert u[..|UrlPrefix|] == UrlPrefix;
    assert u[|u| - |UrlSuffix|..] == UrlSuffix;
    assert u[|UrlPrefix|..|u| - |UrlSuffix|] == month;
  }

  /** Different months are fetched from different URLs. */
  lemma UrlInjective(a: string, b: string)
    requires Url(a) == Url(b)
    ensures a == b
  {
    UrlRoundTrip(a);
    UrlRoundTrip(b);
  }

  /**
   * One entry of the manifest. etag is None for a missing ETag header;
   * sha512 is None when the entry has no 'sha512' key.
   */
  datatype Archive = Archive(month: string, etag: Option<string>, size: int, sha512: Option<string>, file: string)

  /**
   * The response headers of a fetch. None stands for an absent header, and for
   * Content-Length also for a value that int() rejects. compressedEmpty: the
   * compressed response carries no bytes at all, which gunzip unpacks to an
   * empty file.
   */
  datatype Headers = Headers(etag: Option<string>, contentLength: Option<int>, compressedEmpty: bool)

  /** The manifest, the dirty flag and the files on disk. */
  datatype Cache = Cache(archives: map<string, Archive>, dirty: bool, files: map<string, Content>)

  /** The message of Python's KeyError for a missing str key. */
  function KeyError(key: string): string {
    "KeyError: '" + key + "'"
  }

  const NoContentLength: string := "AttributeError: 'NoneType' object has no attribute 'strip'"

  /**
   * The progress percentage divides by the recorded size as soon as the first
   * chunk arrives; an empty compressed response has no chunk and never divides.
   */
  const ZeroSize: string := "ZeroDivisionError: float division by zero"

  /** checksum(month): the digest of the month's file as it is now on disk. */
  function Checksum(archives: map<string, Archive>, files: map<string, Content>, sha512: Hash, month: string)
    : (r: Result<string>)
    ensures r.Ok? <==> month in archives && archives[month].file in files
    ensures r.Ok? ==> r.value == sha512(files[archives[month].file])
  {
    if month !in archives then Err(KeyError(month))
    else if archives[month].file !in files then Err("FileNotFoundError: " + archives[month].file)
    else Ok(sha512(files[archives[month].file]))
  }

  /** check_checksum(month): does the file on disk still have the recorded digest? */
  function CheckChecksum(archives: map<string, Archive>, files: map<string, Content>, sha512: Hash, month: string)
    : (r: Result<bool>)
    ensures month !in archives ==> r == Err(KeyError(month))
    ensures month in archives && archives[month].sha512.None? ==> r == Ok(false)
    ensures month in archives && archives[month].sha512.Some? && archives[month].file in files ==>
      r == Ok(sha512(files[archives[month].file]) == archives[month].sha512.value)
  {
    if month !in archives then Err(KeyError(month))
    else if archives[month].sha512.None? then Ok(false)
    else
      match Checksum(archives, files, sha512, month)
      case Err(e) => Err(e)
      case Ok(h) => Ok(h == archives[month].sha512.value)
  }

  /** file_name(month): the local file of a month in the manifest. */
  function FileName(archives: map<string, Archive>, month: string): (r: Result<string>)
    ensures r.Ok? <==> month in archives
    ensures r.Ok? ==> r.value == archives[month].file
    ensures r.Err? ==> r.msg == "unknown month: " + month
  {
    if month !in archives then Err("unknown month: " + month) else Ok(archives[month].file)
  }

  /** Whether download() fetches a month that is in the manifest again. */
  predicate Stale(a: Archive, files: map<string, Content>, sha512: Hash, etag: Option<string>) {
    || a.file !in files
    || a.sha512.None?
    || sha512(files[a.file]) != a.sha512.value
    || etag != a.etag
  }

  /** The entry download() creates for a month not in the manifest. */
  function NewArchive(month: string, info: Headers): Archive
    requires info.contentLength.Some?
  {
    Archive(month, info.etag, info.contentLength.value, Some(""), "data/" + month + BuildsExt)
  }

  /** The file the fetch leaves on disk: body, or nothing for an empty compressed response. */
  function Unpacked(info: Headers, body: Content): (r: Content)
    ensures info.compressedEmpty ==> r == []
    ensures !info.compressedEmpty ==> r == body
  {
    if info.compressedEmpty then [] else body
  }

  /**
   * Writing the fetched archive and refreshing its entry, which is updated in
   * place. A recorded size of 0 stops the transfer at the first chunk, before
   * the archive is unpacked; an empty compressed response has no chunk and
   * goes on to unpack an empty file.
   */
  function Fetch(c: Cache, sha512: Hash, month: string, info: Headers, body: Content): (Outcome, Cache)
    requires month in c.archives
  {
    var a := c.archives[month];
    if a.size == 0 && !info.compressedEmpty then (Fail(ZeroSize), c)
    else
      var content := Unpacked(info, body);
      var files := c.files[a.file := content];
      var a1 := a.(etag := info.etag);
      if info.contentLength.None? then
        (Fail(NoContentLength), Cache(c.archives[month := a1], c.dirty, files))
      else
        var a2 := a1.(size := info.contentLength.value, sha512 := Some(sha512(content)));
        (Pass, Cache(c.archives[month := a2], c.dirty, files))
  }

  /** What download(month) does, given the headers and the content the server sends. */
  function DownloadSpec(c: Cache, sha512: Hash, month: string, info: Headers, body: Content): (Outcome, Cache) {
    if month in c.archives then
      if Stale(c.archives[month], c.files, sha512, info.etag) then Fetch(c, sha512, month, info, body)
      else (Pass, c)
    else if info.contentLength.None? then (Fail(NoContentLength), c)
    else Fetch(c.(archives := c.archives[month := NewArchive(month, info)], dirty := true), sha512, month, info, body)
  }

  /**
   * For a month in the manifest, download() leaves everything as it was exactly
   * when the file is there, its digest matches and the ETag is unchanged.
   */
  lemma DownloadKnownMonth(c: Cache, sha512: Hash, month: string, info: Headers, body: Content)
    requires month in c.archives
    ensures DownloadSpec(c, sha512, month, info, body) == (Pass, c) <==>
      var a := c.archives[month];
      a.file in c.files && CheckChecksum(c.archives, c.files, sha512, month) == Ok(true) && info.etag == a.etag
  {
  }

  /**
   * For a month not in the manifest, download() fails without a Content-Length;
   * otherwise it adds an entry for data/<month>.txt, marks the manifest dirty
   * and always fetches, which fails when the Content-Length is 0 and the
   * compressed response is not empty.
   */
  lemma DownloadNewMonth(c: Cache, sha512: Hash, month: string, info: Headers, body: Content)
    requires month !in c.archives
    ensures info.contentLength.None? ==> DownloadSpec(c, sha512, month, info, body) == (Fail(NoContentLength), c)
    ensures info.contentLength == Some(0) && !info.compressedEmpty ==>
      DownloadSpec(c, sha512, month, info, body) ==
        (Fail(ZeroSize), c.(archives := c.archives[month := NewArchive(month, info)], dirty := true))
    ensures info.contentLength.Some? && (info.contentLength.value != 0 || info.compressedEmpty) ==>
      var file := "data/" + month + ".txt";
      var content := Unpacked(info, body);
      DownloadSpec(c, sha512, month, info, body) ==
        (Pass, Cache(c.archives[month := Archive(month, info.etag, info.contentLength.value, Some(sha512(content)), file)],
                     true, c.files[file := content]))
  {
    if info.contentLength.Some? && (info.contentLength.value != 0 || info.compressedEmpty) {
      var a := NewArchive(month, info);
      var content := Unpacked(info, body);
      var a2 := a.(etag := info.etag).(size := info.contentLength.value, sha512 := Some(sha512(content)));
      assert a.file == "data/" + month + ".txt";
      assert c.archives[month := a][month := a2] == c.archives[month := a2];
    }
  }

  /**
   * For a month in the manifest that is stale, download() fetches it again: a
   * recorded size of 0 fails at the first chunk of a non-empty response;
   * otherwise the file is written and the entry gets the server's ETag, and
   * then, unless the Content-Length is missing, the server's size and the new
   * file's digest.
   */
  lemma DownloadReload(c: Cache, sha512: Hash, month: string, info: Headers, body: Content)
    requires month in c.archives && Stale(c.archives[month], c.files, sha512, info.etag)
    ensures var a := c.archives[month];
      var content := Unpacked(info, body);
      && (a.size == 0 && !info.compressedEmpty ==> DownloadSpec(c, sha512, month, info, body) == (Fail(ZeroSize), c))
      && ((a.size != 0 || info.compressedEmpty) && info.contentLength.None? ==>
            DownloadSpec(c, sha512, month, info, body) ==
              (Fail(NoContentLength), Cache(c.archives[month := a.(etag := info.etag)], c.dirty, c.files[a.file := content])))
      && ((a.size != 0 || info.compressedEmpty) && info.contentLength.Some? ==>
            DownloadSpec(c, sha512, month, info, body) ==
              (Pass, Cache(c.archives[month := a.(etag := info.etag, size := info.contentLength.value,
                                                  sha512 := Some(sha512(content)))],
                           c.dirty, c.files[a.file := content])))
  {
  }

  /** download(month) changes no other month's entry and no other file. */
  lemma DownloadFrame(c: Cache, sha512: Hash, month: string, info: Headers, body: Content)
    ensures var c' := DownloadSpec(c, sha512, month, info, body).1;
      && c.archives.Keys <= c'.archives.Keys <= c.archives.Keys + {month}
      && (forall m :: m in c.archives && m != month ==> c'.archives[m] == c.archives[m])
      && (forall f :: f in c.files ==> f in c'.files)
      && (forall f :: f in c'.files && (month !in c'.archives || f != c'.archives[month].file) ==>
            f in c.files && c'.files[f] == c.files[f])
      && c'.dirty == (c.dirty || (month !in c.archives && info.contentLength.Some?))
  {
  }

  /**
   * After a successful download() the month's file is on disk, its entry has
   * the server's ETag and its recorded digest is that of the file.
   */
  lemma DownloadVerified(c: Cache, sha512: Hash, month: string, info: Headers, body: Content)
    requires DownloadSpec(c, sha512, month, info, body).0 == Pass
    ensures var c' := DownloadSpec(c, sha512, month, info, body).1;
      && month in c'.archives
      && c'.archives[month].file in c'.files
      && CheckChecksum(c'.archives, c'.files, sha512, month) == Ok(true)
      && c'.archives[month].etag == info.etag
  {
  }

  /** A second download() with the same ETag fetches nothing and changes nothing. */
  lemma DownloadIdempotent(c: Cache, sha512: Hash, month: string, info: Headers, body: Content,
                           info': Headers, body': Content)
    requires DownloadSpec(c, sha512, month, info, body).0 == Pass
    requires info'.etag == info.etag
    ensures var c' := DownloadSpec(c, sha512, month, info, body).1;
      DownloadSpec(c', sha512, month, info', body') == (Pass, c')
  {
    DownloadVerified(c, sha512, month, info, body);
  }

  /** The default of the data_filename argument of lists(). */
  const DefaultDataFilename := "data/months.json"

  /** The cache object: its manifest, dirty flag and the files it reads and writes. */
  class Lists {
    var archives: map<string, Archive>
    var archivesDirty: bool
    var files: map<string, Content>
    const dataFilename: string
    const sha512: Hash

    ghost function State(): Cache
      reads this
    {
      Cache(archives, archivesDirty, files)
    }

    /**
     * lists(data_filename): an empty clean manifest, then load(). Callers that
     * give no name get DefaultDataFilename. stored is the content of the
     * manifest file when that file exists.
     */
    constructor(dataFilename: string, sha512: Hash, files: map<string, Content>, stored: Option<map<string, Archive>>)
      ensures this.sha512 == sha512 && this.files == files && this.dataFilename == dataFilename
      ensures !archivesDirty && archives == stored.GetOr(map[])
    {
      this.sha512 := sha512;
      this.files := files;
      this.dataFilename := dataFilename;
      archives := map[];
      archivesDirty := false;
      new;
      var _ := Load(stored);
    }

    /** load(): refuses while the manifest has unsaved additions, else reads the manifest file if there is one. */
    method Load(stored: Option<map<string, Archive>>) returns (r: Outcome)
      modifies this`archives
      ensures archivesDirty ==> r == Fail("load with dirty archives") && archives == old(archives)
      ensures !archivesDirty ==> r == Pass && archives == (if stored.Some? then stored.value else old(archives))
    {
      if archivesDirty {
        return Fail("load with dirty archives");
      }
      if stored.Some? {
        archives := stored.value;
      }
      return Pass;
    }

    /** download(month): info and body are what the server answers for Url(month). */
    method Download(month: string, info: Headers, body: Content) returns (r: Outcome)
      modifies this`archives, this`archivesDirty, this`files
      ensures (r, State()) == DownloadSpec(old(State()), sha512, month, info, body)
    {
      var load := false;
      if month in archives {
        var archive := archives[month];
        if archive.file in files {
          var matches := CheckChecksum(archives, files, sha512, month);
          if !matches.value {
            load := true;
          }
        } else {
          load := true;
        }
        if info.etag != archive.etag {
          load := true;
        }
        assert load == Stale(archive, files, sha512, info.etag);
      } else {
        if info.contentLength.None? {
          return Fail(NoContentLength);
        }
        var archive := Archive(month, info.etag, info.contentLength.value, Some(""), "data/" + month + BuildsExt);
        archives := archives[month := archive];
        archivesDirty := true;
        load := true;
      }
      if load {
        r := Refresh(month, info, body);
        return;
      }
      return Pass;
    }

    /** The part of download(month) that writes the fetched file and updates the month's entry. */
    method Refresh(month: string, info: Headers, body: Content) returns (r: Outcome)
      requires month in archives
      modifies this`archives, this`files
      ensures (r, State()) == Fetch(old(State()), sha512, month, info, body)
    {
      var archive := archives[month];
      if archive.size == 0 && !info.compressedEmpty {
        // the first chunk's percentage is have / size
        return Fail(ZeroSize);
      }
      var content := Unpacked(info, body);
      files := files[archive.file := content];
      archive := archive.(etag := info.etag);
      archives := archives[month := archive];
      if info.contentLength.None? {
        return Fail(NoContentLength);
      }
      archive := archive.(size := info.contentLength.value);
      archives := archives[month := archive];
      var digest := Checksum(archives, files, sha512, month);
      assert digest.value == sha512(content);
      archive := archive.(sha512 := Some(digest.value));
      archives := archives[month := archive];
      assert archives == old(archives)[month := archive];
      return Pass;
    }
  }
}
