/** Blob naming and the upload contract of
    `backend/integrations/azure/blob_repository.py`.

    A PDF is stored under `uploads/YYYY/MM/DD/<uuid hex><suffix>`. The
    current UTC date and the fresh `uuid4` are parameters here; the SDK
    calls themselves are not modelled: an upload is described by the
    request it hands to the storage service and the descriptor it returns. */
module BlobRepository {
  import opened Wrappers
  import opened PyStr
  import opened Format
  import opened BlobClient

  // ------------------------------------------------------------ the date

  /** A calendar date as `datetime` holds it. */
  datatype Date = Date(year: nat, month: nat, day: nat)

  predicate IsLeapYear(year: nat)
  {
    year % 4 == 0 && (year % 100 != 0 || year % 400 == 0)
  }

  function DaysInMonth(year: nat, month: nat): nat
  {
    if month == 2 then (if IsLeapYear(year) then 29 else 28)
    else if month == 4 || month == 6 || month == 9 || month == 11 then 30
    else 31
  }

  /** The dates `datetime` can represent. */
  predicate ValidDate(d: Date)
  {
    1 <= d.year <= 9999 && 1 <= d.month <= 12 && 1 <= d.day <= DaysInMonth(d.year, d.month)
  }

  /** `strftime('%Y/%m/%d')`: four-digit year, two-digit month and day. */
  function FormatDate(d: Date): (r: string)
    requires ValidDate(d)
    ensures |r| == 10
  {
    Digits(d.year, 10, 4) + "/" + Digits(d.month, 10, 2) + "/" + Digits(d.day, 10, 2)
  }

  /** Reads `YYYY/MM/DD` back. */
  function ParseDate(s: string): Option<Date>
  {
    if |s| == 10 && s[4] == '/' && s[7] == '/'
       && AllDigits(s[..4], 10) && AllDigits(s[5..7], 10) && AllDigits(s[8..], 10)
    then Some(Date(ValueOf(s[..4], 10), ValueOf(s[5..7], 10), ValueOf(s[8..], 10)))
    else None
  }

  /** Every valid date is written so that it reads back unchanged. */
  lemma DateRoundTrip(d: Date)
    requires ValidDate(d)
    ensures ParseDate(FormatDate(d)) == Some(d)
  {
    CutDate(Digits(d.year, 10, 4), Digits(d.month, 10, 2), Digits(d.day, 10, 2));
    DecimalPowers();
    ValueOfDigits(d.year, 10, 4);
    ValueOfDigits(d.month, 10, 2);
    ValueOfDigits(d.day, 10, 2);
  }

  lemma CutDate(y: string, m: string, d: string)
    requires |y| == 4 && |m| == 2 && |d| == 2
    ensures var s := y + "/" + m + "/" + d;
      s[..4] == y && s[4] == '/' && s[5..7] == m && s[7] == '/' && s[8..] == d
  {
    var s := y + "/" + m + "/" + d;
    var t := y + "/" + m + "/";
    assert s == t + d && t == (y + "/" + m) + "/";
  }

  lemma DecimalPowers()
    ensures Pow(10, 2) == 100 && Pow(10, 4) == 10000
  {
    assert Pow(10, 2) == 100;
    assert Pow(10, 4) == Pow(10, 2) * 100;
  }

  /** The number of distinct 128-bit `uuid4` values, 2^128. */
  const UuidSpace: nat := 0x1_0000_0000_0000_0000_0000_0000_0000_0000

  /** 2^128 is exactly what 32 hexadecimal digits can hold. */
  lemma UuidSpaceIsHexWidth()
    ensures UuidSpace == Pow(16, 32)
  {
    assert Pow(16, 4) == 0x1_0000;
    assert Pow(16, 8) == 0x1_0000_0000;
    assert Pow(16, 12) == 0x1_0000_0000_0000;
    assert Pow(16, 16) == 0x1_0000_0000_0000_0000;
    assert Pow(16, 20) == 0x1_0000_0000_0000_0000_0000;
    assert Pow(16, 24) == 0x1_0000_0000_0000_0000_0000_0000;
    assert Pow(16, 28) == 0x1_0000_0000_0000_0000_0000_0000_0000;
  }

  /** `uuid.hex`: the 128-bit value as 32 lower-case hexadecimal digits. */
  function UuidHex(id: nat): (r: string)
    requires id < UuidSpace
    ensures |r| == 32 && AllDigits(r, 16)
  {
    Digits(id, 16, 32)
  }

  // ---------------------------------------------------------- the suffix
  //
  // `PurePath(path).name` is the last component once trailing slashes are
  // dropped; `.suffix` is that name from its last dot on, provided the dot
  // is neither the first nor the last character of the name. The helpers
  // below work on positions of `path` so that the name is `path[b..e]`.

  /** The length of `path[..n]` without its trailing slashes. */
  function NameEnd(path: string, n: nat): (e: nat)
    requires n <= |path|
    ensures e <= n
  {
    if n > 0 && path[n - 1] == '/' then NameEnd(path, n - 1) else n
  }

  /** Where the component that ends at `n` begins: just after the last
      slash before `n`. */
  function NameStart(path: string, n: nat): (b: nat)
    requires n <= |path|
    ensures b <= n
  {
    if n > 0 && path[n - 1] != '/' then NameStart(path, n - 1) else n
  }

  /** `path[lo..n].rfind('.')`, as a position of `path`: the last dot in
      `[lo, n)`, or -1. */
  function LastDot(path: string, lo: nat, n: nat): (i: int)
    requires lo <= n <= |path|
    ensures i == -1 || lo <= i < n
    decreases n - lo
  {
    if n == lo then -1
    else if path[n - 1] == '.' then n - 1
    else LastDot(path, lo, n - 1)
  }

  lemma {:induction false} NameEndSpec(path: string, n: nat)
    requires n <= |path|
    ensures var e := NameEnd(path, n);
      && (e == 0 || path[e - 1] != '/')
      && forall k :: e <= k < n ==> path[k] == '/'
  {
    if n > 0 && path[n - 1] == '/' {
      NameEndSpec(path, n - 1);
    }
  }

  lemma {:induction false} NameStartSpec(path: string, n: nat)
    requires n <= |path|
    ensures var b := NameStart(path, n);
      && (b == 0 || path[b - 1] == '/')
      && forall k :: b <= k < n ==> path[k] != '/'
  {
    if n > 0 && path[n - 1] != '/' {
      NameStartSpec(path, n - 1);
    }
  }

  lemma {:induction false} LastDotSpec(path: string, lo: nat, n: nat)
    requires lo <= n <= |path|
    ensures var i := LastDot(path, lo, n);
      && (i >= 0 ==> path[i] == '.')
      && forall k :: lo <= k < n && i < k ==> path[k] != '.'
    decreases n - lo
  {
    if n != lo && path[n - 1] != '.' {
      LastDotSpec(path, lo, n - 1);
    }
  }

  /** Where the final component of `path` ends (after trailing slashes are
      dropped) and where it begins. */
  function NameEndOf(path: string): nat
  {
    NameEnd(path, |path|)
  }

  function NameStartOf(path: string): nat
  {
    NameStart(path, NameEndOf(path))
  }

  /** `PurePath(path).name`. */
  function FinalComponent(path: string): (name: string)
    ensures |name| <= |path| && '/' !in name
  {
    var b, e := NameStartOf(path), NameEndOf(path);
    NameStartSpec(path, e);
    assert forall k :: 0 <= k < e - b ==> path[b..e][k] == path[b + k];
    path[b..e]
  }

  /** The final component follows a slash or the start of the path, does
      not end in a slash, and only slashes follow it. */
  lemma FinalComponentSpec(path: string)
    ensures NameStartOf(path) <= NameEndOf(path) <= |path|
    ensures FinalComponent(path) == path[NameStartOf(path)..NameEndOf(path)]
    ensures NameStartOf(path) == 0 || path[NameStartOf(path) - 1] == '/'
    ensures NameEndOf(path) == 0 || path[NameEndOf(path) - 1] != '/'
    ensures forall k :: NameEndOf(path) <= k < |path| ==> path[k] == '/'
  {
    NameEndSpec(path, |path|);
    NameStartSpec(path, NameEndOf(path));
  }

  /** Where `PurePath(path).suffix` begins in `path`, when it is not empty. */
  function SuffixAt(path: string): Option<nat>
  {
    var b, e := NameStartOf(path), NameEndOf(path);
    var i := LastDot(path, b, e);
    if b < i < e - 1 then Some(i) else None
  }

  /** `PurePath(path).suffix`. */
  function PathSuffix(path: string): (r: string)
    ensures r != [] ==> |r| >= 2 && r[0] == '.'
  {
    match SuffixAt(path)
    case Some(i) =>
      LastDotSpec(path, NameStartOf(path), NameEndOf(path));
      path[i..NameEndOf(path)]
    case None => []
  }

  const DefaultDocumentName: string := "document.pdf"
  const DefaultSuffix: string := ".pdf"

  /** The suffix of a generated blob name:
      `Path(filename or "document.pdf").suffix or ".pdf"`. */
  function PdfSuffix(filename: Option<string>): (r: string)
    ensures |r| >= 2 && r[0] == '.'
  {
    var s := PathSuffix(OrDefault(filename, DefaultDocumentName));
    if s == [] then DefaultSuffix else s
  }

  /** A non-empty path suffix is a dot followed by at least one character,
      none of them a dot or a slash; its dot lies after the first character
      of the final component, and it runs to the end of that component. */
  lemma PathSuffixSpec(path: string)
    ensures var r := PathSuffix(path);
      && (r == [] <==> SuffixAt(path).None?)
      && (r != [] ==>
          && |r| >= 2 && r[0] == '.' && '.' !in r[1..] && '/' !in r
          && NameStartOf(path) < SuffixAt(path).value
          && SuffixAt(path).value + |r| == NameEndOf(path)
          && OccursAt(r, path, SuffixAt(path).value)
          && forall k :: SuffixAt(path).value + |r| <= k < |path| ==> path[k] == '/')
  {
    FinalComponentSpec(path);
    var b, e := NameStartOf(path), NameEndOf(path);
    if SuffixAt(path).Some? {
      var i := SuffixAt(path).value;
      LastDotSpec(path, b, e);
      var r := PathSuffix(path);
      assert r == path[i..e];
      forall k | 0 <= k < |r| ensures r[k] != '/' && (k > 0 ==> r[k] != '.') {
        assert r[k] == path[i + k];
        assert path[b..e][i + k - b] == path[i + k];
      }
      assert '.' !in r[1..] by {
        forall k | 0 <= k < |r| - 1 ensures r[1..][k] != '.' {
          assert r[1..][k] == r[k + 1];
        }
      }
    }
  }

  /** The generated suffix always starts with a dot, holds no other dot and
      no slash, and is either `.pdf` or the final extension of the given
      file name. */
  lemma PdfSuffixSpec(filename: Option<string>)
    ensures var r := PdfSuffix(filename);
      && |r| >= 2 && r[0] == '.' && '.' !in r[1..] && '/' !in r
      && (r == DefaultSuffix || (filename.Some? && r == PathSuffix(filename.value)))
  {
    PathSuffixSpec(OrDefault(filename, DefaultDocumentName));
    if !Truthy(filename) {
      NoExtensionGivesPdf(filename);
    }
  }

  /** The example of a double extension: `a.tar.gz` gives `.gz`. */
  lemma DoubleExtensionExample()
    ensures PdfSuffix(Some("a.tar.gz")) == ".gz"
  {
    FinalExtensionKept("a.tar", "gz");
    assert "a.tar" + "." + "gz" == "a.tar.gz";
  }

  /** A path has a suffix exactly when its final component ends in
      something other than a dot and holds a dot after its first character:
      `a/b.c/` gives `.c`, while `v1.2/README`, `docs/.bashrc` and `a.b.`
      give none. */
  lemma PathSuffixIff(path: string)
    ensures PathSuffix(path) != [] <==>
      exists j :: NameStartOf(path) < j < NameEndOf(path) - 1 && path[j] == '.' && path[NameEndOf(path) - 1] != '.'
  {
    var b, e := NameStartOf(path), NameEndOf(path);
    FinalComponentSpec(path);
    LastDotSpec(path, b, e);
    var i := LastDot(path, b, e);
    if PathSuffix(path) != [] {
      assert path[i] == '.' && path[e - 1] != '.';
    }
  }

  /** A missing name, or one whose final component holds no dot after its
      first character and before its last, gets `.pdf`: `v1.2/README`,
      `docs/.bashrc` and `notes.` all do. */
  lemma NoExtensionGivesPdf(filename: Option<string>)
    requires filename.None?
      || forall j :: NameStartOf(filename.value) < j < NameEndOf(filename.value) - 1 ==> filename.value[j] != '.'
    ensures PdfSuffix(filename) == ".pdf"
  {
    var path := OrDefault(filename, DefaultDocumentName);
    if path == DefaultDocumentName {
      forall k | 8 < k < |path| ensures path[k] != '.' && path[k] != '/' { }
      SuffixFromLastDot(path, 8);
    } else {
      LastDotSpec(path, NameStartOf(path), NameEndOf(path));
    }
  }

  /** A name ending in `.ext` after a stem that does not end in a slash gets
      exactly its final extension: `report.final.PDF` gives `.PDF`. */
  lemma FinalExtensionKept(stem: string, ext: string)
    requires stem != [] && stem[|stem| - 1] != '/'
    requires ext != [] && '.' !in ext && '/' !in ext
    ensures PdfSuffix(Some(stem + "." + ext)) == "." + ext
  {
    var f := stem + "." + ext;
    var dot := |stem|;
    forall k | dot < k < |f| ensures f[k] != '.' && f[k] != '/' {
      assert f[k] == ext[k - dot - 1];
    }
    assert f[dot] == '.' && f[dot - 1] == stem[dot - 1];
    SuffixFromLastDot(f, dot);
    assert f[dot..] == "." + ext;
  }

  /** A path that ends in a component `x.y` with no dot and no slash in `y`
      has the suffix `.y`. */
  lemma SuffixFromLastDot(f: string, dot: nat)
    requires 0 < dot < |f| - 1 && f[dot] == '.' && f[dot - 1] != '/'
    requires forall k :: dot < k < |f| ==> f[k] != '.' && f[k] != '/'
    ensures PathSuffix(f) == f[dot..]
  {
    assert NameEndOf(f) == |f|;
    var b := NameStartOf(f);
    NameStartSpec(f, |f|);
    assert b < dot;
    LastDotSpec(f, b, |f|);
    assert LastDot(f, b, |f|) == dot;
  }

  /** A hidden file's name (a leading dot and no other) has no suffix, so it
      gets `.pdf`, as does a name whose only dot ends it. */
  lemma LeadingOrTrailingDotGivesPdf(stem: string)
    requires stem != [] && '.' !in stem && '/' !in stem
    ensures PdfSuffix(Some("." + stem)) == ".pdf"
    ensures PdfSuffix(Some(stem + ".")) == ".pdf"
  {
    var f := "." + stem;
    forall k | 0 < k < |f| ensures f[k] != '.' && f[k] != '/' { assert f[k] == stem[k - 1]; }
    assert f[0] == '.';
    assert NameEndOf(f) == |f|;
    NameStartSpec(f, |f|);
    assert NameStartOf(f) == 0;
    LastDotSpec(f, 0, |f|);
    assert LastDot(f, 0, |f|) == 0;
    var g := stem + ".";
    assert NameEndOf(g) == |g|;
    assert LastDot(g, NameStartOf(g), |g|) == |g| - 1;
  }

  // ------------------------------------------------------- the blob name

  const UploadsPrefix: string := "uploads/"

  /** `build_pdf_blob_name(filename)` on a given UTC date and `uuid4` value. */
  function BuildPdfBlobName(filename: Option<string>, today: Date, id: nat): (r: string)
    requires ValidDate(today) && id < UuidSpace
    ensures |r| == 51 + |PdfSuffix(filename)|
  {
    UploadsPrefix + FormatDate(today) + "/" + UuidHex(id) + PdfSuffix(filename)
  }

  /** The parts a blob name is made of. */
  datatype BlobKey = BlobKey(date: Date, id: nat, suffix: string)

  /** Reads a name of the shape `uploads/YYYY/MM/DD/<32 hex digits><suffix>`
      back into its parts. */
  function ParseBlobName(name: string): Option<BlobKey>
  {
    if |name| >= 51 && name[..8] == UploadsPrefix && name[18] == '/' && AllDigits(name[19..51], 16) then
      match ParseDate(name[8..18])
      case Some(date) => Some(BlobKey(date, ValueOf(name[19..51], 16), name[51..]))
      case None => None
    else None
  }

  /** Cutting a five-part concatenation back into its parts. */
  lemma CutName(p: string, d: string, h: string, s: string)
    ensures var n := p + d + "/" + h + s;
      && n[..|p|] == p
      && n[|p|..|p| + |d|] == d
      && n[|p| + |d|] == '/'
      && n[|p| + |d| + 1..|p| + |d| + 1 + |h|] == h
      && n[|p| + |d| + 1 + |h|..] == s
  {
    var n := p + d + "/" + h + s;
    var q := p + d + "/" + h;
    assert n == q + s;
    assert n[..|q|] == q;
    var o := p + d + "/";
    assert q == o + h;
    assert q[..|o|] == o && q[|o|..] == h;
    assert o == (p + d) + "/";
    assert (p + d)[..|p|] == p && (p + d)[|p|..] == d;
  }

  /** Every generated name reads back to the date, the identifier and the
      suffix it was built from. */
  lemma BlobNameRoundTrip(filename: Option<string>, today: Date, id: nat)
    requires ValidDate(today) && id < UuidSpace
    ensures ParseBlobName(BuildPdfBlobName(filename, today, id)) == Some(BlobKey(today, id, PdfSuffix(filename)))
  {
    var date, hex, suffix := FormatDate(today), UuidHex(id), PdfSuffix(filename);
    CutName(UploadsPrefix, date, hex, suffix);
    DateRoundTrip(today);
    UuidSpaceIsHexWidth();
    ValueOfDigits(id, 16, 32);
  }

  /** Names built from different `uuid4` values never collide, whatever the
      file names and dates: every upload gets a fresh key. */
  lemma DistinctIdsGiveDistinctNames(f1: Option<string>, d1: Date, id1: nat, f2: Option<string>, d2: Date, id2: nat)
    requires ValidDate(d1) && id1 < UuidSpace && ValidDate(d2) && id2 < UuidSpace
    requires id1 != id2
    ensures BuildPdfBlobName(f1, d1, id1) != BuildPdfBlobName(f2, d2, id2)
  {
    BlobNameRoundTrip(f1, d1, id1);
    BlobNameRoundTrip(f2, d2, id2);
  }

  /** The blob lands directly in its date folder: after `uploads/YYYY/MM/DD/`
      the name holds no further slash. */
  lemma BlobNameInDateFolder(filename: Option<string>, today: Date, id: nat)
    requires ValidDate(today) && id < UuidSpace
    ensures var r := BuildPdfBlobName(filename, today, id);
      forall k :: 19 <= k < |r| ==> r[k] != '/'
  {
    var date, hex, suffix := FormatDate(today), UuidHex(id), PdfSuffix(filename);
    CutName(UploadsPrefix, date, hex, suffix);
    PdfSuffixSpec(filename);
    var r := BuildPdfBlobName(filename, today, id);
    forall k | 19 <= k < |r| ensures r[k] != '/' {
      if k < 51 {
        assert r[k] == r[19..51][k - 19] == hex[k - 19];
        assert IsDigitOf(hex[k - 19], 16);
      } else {
        assert r[k] == r[51..][k - 51] == suffix[k - 51];
      }
    }
  }

  // ------------------------------------------------------------ metadata

  /** A value in the caller's metadata dictionary. */
  datatype MetaValue = Text(text: string) | Int(number: int) | Bool(flag: bool) | NoneValue

  /** Python's `str(v)` on such a value. */
  function PyStrOf(v: MetaValue): (r: string)
    ensures v.Text? ==> r == v.text
    ensures v.Int? ==> ParseInt(r) == v.number
    ensures v.Bool? ==> r == (if v.flag then "True" else "False")
    ensures v.NoneValue? ==> r == "None"
  {
    match v
    case Text(s) => s
    case Int(i) => IntToStrRoundTrip(i); IntToStr(i)
    case Bool(b) => if b then "True" else "False"
    case NoneValue => "None"
  }

  /** `{k: str(v) for k, v in (metadata or {}).items()}`. */
  function NormalizeMetadata(metadata: Option<map<string, MetaValue>>): (r: map<string, string>)
    ensures metadata.None? ==> r == map[]
    ensures metadata.Some? ==> r.Keys == metadata.value.Keys
    ensures metadata.Some? ==> forall k :: k in r ==> r[k] == PyStrOf(metadata.value[k])
  {
    match metadata
    case None => map[]
    case Some(m) => map k | k in m :: PyStrOf(m[k])
  }

  /** Normalisation leaves string values unchanged, writes integers so
      that they read back as the same integer, and writes booleans and
      `None` as Python does. */
  lemma NormalizedValues(m: map<string, MetaValue>, k: string)
    requires k in m
    ensures k in NormalizeMetadata(Some(m))
    ensures m[k].Text? ==> NormalizeMetadata(Some(m))[k] == m[k].text
    ensures m[k].Int? ==> ParseInt(NormalizeMetadata(Some(m))[k]) == m[k].number
    ensures m[k] == Bool(true) ==> NormalizeMetadata(Some(m))[k] == "True"
    ensures m[k] == Bool(false) ==> NormalizeMetadata(Some(m))[k] == "False"
    ensures m[k] == NoneValue ==> NormalizeMetadata(Some(m))[k] == "None"
  {
    if m[k].Int? {
      IntToStrRoundTrip(m[k].number);
    }
  }

  // -------------------------------------------------------------- upload

  /** The failures of `upload_pdf_bytes` that happen before any storage
      access: empty input (`ValueError`) and no configured store
      (`RuntimeError`). */
  datatype UploadError = EmptyPdfBytes | StorageNotConfigured

  /** What `upload_blob` is called with. */
  datatype UploadRequest = UploadRequest(
    container: string,
    blobName: string,
    data: seq<byte>,
    metadata: map<string, string>,
    overwrite: bool,
    contentType: string)

  /** The dictionary `upload_pdf_bytes` returns (without the URL). */
  datatype BlobDescriptor = BlobDescriptor(container: string, blobName: string, sizeBytes: nat)

  datatype Upload = Upload(request: UploadRequest, descriptor: BlobDescriptor)

  /** `upload_pdf_bytes` on a given environment, UTC date and `uuid4` value. */
  function UploadPdfBytes(
    pdfBytes: seq<byte>,
    filename: Option<string>,
    metadata: Option<map<string, MetaValue>>,
    env: Env,
    today: Date,
    id: nat): (r: Result<Upload, UploadError>)
    requires ValidDate(today) && id < UuidSpace
    ensures |pdfBytes| == 0 ==> r == Err(EmptyPdfBytes)
    ensures |pdfBytes| > 0 && CreateBlobServiceClient(env).None? ==> r == Err(StorageNotConfigured)
    ensures r.Ok? <==> |pdfBytes| > 0 && CreateBlobServiceClient(env).Some?
    ensures r.Ok? ==>
      var u := r.value;
      && u.request.blobName == u.descriptor.blobName == BuildPdfBlobName(filename, today, id)
      && u.request.container == u.descriptor.container == BlobContainerName(env)
      && u.descriptor.sizeBytes == |pdfBytes|
      && u.request.data == pdfBytes
      && u.request.metadata == NormalizeMetadata(metadata)
      && u.request.overwrite
      && u.request.contentType == "application/pdf"
  {
    if |pdfBytes| == 0 then Err(EmptyPdfBytes)
    else if CreateBlobServiceClient(env).None? then Err(StorageNotConfigured)
    else
      var blobName := BuildPdfBlobName(filename, today, id);
      var request := UploadRequest(ContainerFor(env, None), blobName, pdfBytes, NormalizeMetadata(metadata), true, "application/pdf");
      Ok(Upload(request, BlobDescriptor(BlobContainerName(env), blobName, |pdfBytes|)))
  }

  /** Two successful uploads made with different `uuid4` values store
      their bytes under different names, even for identical input. */
  lemma UploadsNeverCollide(
    pdfBytes: seq<byte>, filename: Option<string>, metadata: Option<map<string, MetaValue>>,
    env: Env, today: Date, id1: nat, id2: nat)
    requires ValidDate(today) && id1 < UuidSpace && id2 < UuidSpace && id1 != id2
    requires UploadPdfBytes(pdfBytes, filename, metadata, env, today, id1).Ok?
    ensures UploadPdfBytes(pdfBytes, filename, metadata, env, today, id2).Ok?
    ensures UploadPdfBytes(pdfBytes, filename, metadata, env, today, id1).value.descriptor.blobName
            != UploadPdfBytes(pdfBytes, filename, metadata, env, today, id2).value.descriptor.blobName
  {
    DistinctIdsGiveDistinctNames(filename, today, id1, filename, today, id2);
  }
}
