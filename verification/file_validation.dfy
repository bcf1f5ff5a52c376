/**
 * The file validation utilities: the checks a dropped file must pass
 * (`validateFile`), the file-name sanitizer (`sanitizeFileName`), and the
 * magic-number test on the first bytes of a file (`validateFileSignature`,
 * with the asynchronous read replaced by the file's content as an argument).
 */
module FileValidation {
  import opened Common
  import Text

  // ---------------------------------------------------------------- validateFile

  /** `MAX_FILE_SIZE`: 50 MiB. */
  const MaxFileSize: nat := 50 * 1024 * 1024

  /** `MAX_FILENAME_LENGTH`. */
  const MaxFileNameLength: nat := 255

  const AllowedTypes: seq<string> := [
    "image/jpeg", "image/jpg", "image/png", "image/gif", "image/bmp", "image/webp", "application/pdf"
  ]

  const SuspiciousExtensions: seq<string> := [".exe", ".bat", ".cmd", ".scr", ".com", ".pif"]

  /** One entry of the `errors` list, in place of its message text. */
  datatype ValidationError =
    | UnsupportedType(mimeType: string)
    | TooLarge(size: nat)
    | NameTooLong(length: nat)
    | EmptyFile
    | UnsafeExtension

  /** The position of each check in `validateFile`. */
  function Rank(e: ValidationError): nat
  {
    match e
    case UnsupportedType(_) => 0
    case TooLarge(_) => 1
    case NameTooLong(_) => 2
    case EmptyFile => 3
    case UnsafeExtension => 4
  }

  /** `s.endsWith(suffix)`. */
  predicate EndsWith(s: string, suffix: string)
  {
    |suffix| <= |s| && s[|s| - |suffix|..] == suffix
  }

  /** `s.startsWith(prefix)`. */
  predicate StartsWith<T(==)>(s: seq<T>, prefix: seq<T>)
  {
    |prefix| <= |s| && s[..|prefix|] == prefix
  }

  /** The lowercased name ends with one of the suspicious extensions. */
  predicate HasSuspiciousExtension(name: string)
  {
    exists ext :: ext in SuspiciousExtensions && EndsWith(Text.ToLower(name), ext)
  }

  /** What each error asserts about the file it is reported for. */
  predicate Applies(f: FileRef, e: ValidationError)
  {
    match e
    case UnsupportedType(t) => t == f.mimeType && t !in AllowedTypes
    case TooLarge(s) => s == f.size && s > MaxFileSize
    case NameTooLong(n) => n == |f.name| && n > MaxFileNameLength
    case EmptyFile => f.size == 0
    case UnsafeExtension => HasSuspiciousExtension(f.name)
  }

  /** `if (failed) errors.push(e)`. */
  function Push(errors: seq<ValidationError>, failed: bool, e: ValidationError): seq<ValidationError>
  {
    if failed then errors + [e] else errors
  }

  /** The `errors` array at the end of `validateFile`: one entry per failed check, in the order of the checks. */
  function Errors(f: FileRef): seq<ValidationError>
  {
    var e0 := Push([], f.mimeType !in AllowedTypes, UnsupportedType(f.mimeType));
    var e1 := Push(e0, f.size > MaxFileSize, TooLarge(f.size));
    var e2 := Push(e1, |f.name| > MaxFileNameLength, NameTooLong(|f.name|));
    var e3 := Push(e2, f.size == 0, EmptyFile);
    Push(e3, HasSuspiciousExtension(f.name), UnsafeExtension)
  }

  /** `validateFile(file)`: `true`, or the error thrown with every failed check. */
  function ValidateFile(f: FileRef): (r: Result<bool, seq<ValidationError>>)
    ensures r.Success? ==> r.value
    ensures r.Failure? ==> r.error != []
  {
    var errors := Errors(f);
    if errors != [] then Failure(errors) else Success(true)
  }

  /**
   * A file is accepted exactly when its type is allowed, its size is in
   * 1..50 MiB (both ends included), its name has at most 255 characters and
   * does not end, in any letter case, with a suspicious extension.
   */
  lemma ValidateFileAccepts(f: FileRef)
    ensures ValidateFile(f).Success? <==>
      && f.mimeType in AllowedTypes
      && 0 < f.size <= MaxFileSize
      && |f.name| <= MaxFileNameLength
      && !HasSuspiciousExtension(f.name)
  {
  }

  predicate Ranked(errs: seq<ValidationError>)
  {
    forall i, j :: 0 <= i < j < |errs| ==> Rank(errs[i]) < Rank(errs[j])
  }

  predicate RanksBelow(errs: seq<ValidationError>, r: nat)
  {
    forall i :: 0 <= i < |errs| ==> Rank(errs[i]) < r
  }

  /** Pushing an error of higher rank than all before it keeps the list ranked. */
  lemma PushRanked(errors: seq<ValidationError>, failed: bool, e: ValidationError)
    requires Ranked(errors) && RanksBelow(errors, Rank(e))
    ensures Ranked(Push(errors, failed, e)) && RanksBelow(Push(errors, failed, e), Rank(e) + 1)
  {
  }

  /**
   * The thrown error lists every check that failed and only those, each at
   * most once, in the order type, size, name length, emptiness, extension.
   */
  lemma ValidateFileErrors(f: FileRef)
    requires ValidateFile(f).Failure?
    ensures var errs := ValidateFile(f).error;
      && (forall i :: 0 <= i < |errs| ==> Applies(f, errs[i]))
      && Ranked(errs)
      && (f.mimeType !in AllowedTypes ==> UnsupportedType(f.mimeType) in errs)
      && (f.size > MaxFileSize ==> TooLarge(f.size) in errs)
      && (|f.name| > MaxFileNameLength ==> NameTooLong(|f.name|) in errs)
      && (f.size == 0 ==> EmptyFile in errs)
      && (HasSuspiciousExtension(f.name) ==> UnsafeExtension in errs)
  {
    ErrorsApply(f);
    ErrorsRanked(f);
    ErrorsComplete(f);
  }

  lemma ErrorsApply(f: FileRef)
    ensures forall i :: 0 <= i < |Errors(f)| ==> Applies(f, Errors(f)[i])
  {
    var e0 := Push([], f.mimeType !in AllowedTypes, UnsupportedType(f.mimeType));
    var e1 := Push(e0, f.size > MaxFileSize, TooLarge(f.size));
    var e2 := Push(e1, |f.name| > MaxFileNameLength, NameTooLong(|f.name|));
    var e3 := Push(e2, f.size == 0, EmptyFile);
    assert forall x :: x in e0 ==> Applies(f, x);
    assert forall x :: x in e1 ==> Applies(f, x);
    assert forall x :: x in e2 ==> Applies(f, x);
    assert forall x :: x in e3 ==> Applies(f, x);
    assert forall x :: x in Errors(f) ==> Applies(f, x);
  }

  lemma ErrorsRanked(f: FileRef)
    ensures Ranked(Errors(f))
  {
    var e0 := Push([], f.mimeType !in AllowedTypes, UnsupportedType(f.mimeType));
    var e1 := Push(e0, f.size > MaxFileSize, TooLarge(f.size));
    var e2 := Push(e1, |f.name| > MaxFileNameLength, NameTooLong(|f.name|));
    var e3 := Push(e2, f.size == 0, EmptyFile);
    PushRanked([], f.mimeType !in AllowedTypes, UnsupportedType(f.mimeType));
    PushRanked(e0, f.size > MaxFileSize, TooLarge(f.size));
    PushRanked(e1, |f.name| > MaxFileNameLength, NameTooLong(|f.name|));
    PushRanked(e2, f.size == 0, EmptyFile);
    PushRanked(e3, HasSuspiciousExtension(f.name), UnsafeExtension);
  }

  lemma ErrorsComplete(f: FileRef)
    ensures f.mimeType !in AllowedTypes ==> UnsupportedType(f.mimeType) in Errors(f)
    ensures f.size > MaxFileSize ==> TooLarge(f.size) in Errors(f)
    ensures |f.name| > MaxFileNameLength ==> NameTooLong(|f.name|) in Errors(f)
    ensures f.size == 0 ==> EmptyFile in Errors(f)
    ensures HasSuspiciousExtension(f.name) ==> UnsafeExtension in Errors(f)
  {
  }

  // ---------------------------------------------------------------- sanitizeFileName

  /** The characters `/[<>:"/\\|?*]/g` replaces. */
  const UnsafeChars: set<char> := {'<', '>', ':', '"', '/', '\\', '|', '?', '*'}

  const Underscore: char := '_'

  /** First pass: each unsafe character becomes `_`. */
  function ReplaceUnsafe(s: string): (r: string)
    ensures |r| == |s|
    ensures forall i :: 0 <= i < |s| ==> r[i] == if s[i] in UnsafeChars then Underscore else s[i]
  {
    seq(|s|, i requires 0 <= i < |s| => if s[i] in UnsafeChars then Underscore else s[i])
  }

  /**
   * Second pass, `/\s+/g`: each maximal run of whitespace becomes one `_`,
   * written where the run ends.
   */
  function CollapseSpaces(s: string): string
  {
    if s == [] then []
    else if !Text.IsSpace(s[0]) then [s[0]] + CollapseSpaces(s[1..])
    else if |s| > 1 && Text.IsSpace(s[1]) then CollapseSpaces(s[1..])
    else [Underscore] + CollapseSpaces(s[1..])
  }

  /** `substring(0, n)` (and `slice(0, n)`): the first `n` elements, or all of them. */
  function Truncate<T>(s: seq<T>, n: nat): (r: seq<T>)
    ensures |r| == Min(|s|, n) && r == s[..|r|]
  {
    s[..Min(|s|, n)]
  }

  /** `sanitizeFileName(fileName)`. */
  function SanitizeFileName(name: string): string
  {
    Truncate(CollapseSpaces(ReplaceUnsafe(name)), MaxFileNameLength)
  }

  predicate NoUnsafe(s: string)
  {
    forall i :: 0 <= i < |s| ==> s[i] !in UnsafeChars
  }

  lemma {:induction false} CollapseSpacesSafe(s: string)
    requires NoUnsafe(s)
    ensures Text.NoSpace(CollapseSpaces(s)) && NoUnsafe(CollapseSpaces(s))
    ensures |CollapseSpaces(s)| <= |s|
    decreases |s|
  {
    if s != [] {
      CollapseSpacesSafe(s[1..]);
    }
  }

  /** Text without whitespace passes the second pass unchanged. */
  lemma {:induction false} CollapseSpacesNoSpace(s: string)
    requires Text.NoSpace(s)
    ensures CollapseSpaces(s) == s
  {
    if s != [] {
      CollapseSpacesNoSpace(s[1..]);
    }
  }

  /**
   * The sanitized name contains none of `<>:"/\|?*` and no whitespace, and has
   * at most 255 characters.
   */
  lemma SanitizeFileNameSafe(name: string)
    ensures var r := SanitizeFileName(name);
      NoUnsafe(r) && Text.NoSpace(r) && |r| <= MaxFileNameLength
  {
    ReplaceUnsafeSafe(name);
    var c := CollapseSpaces(ReplaceUnsafe(name));
    CollapseSpacesSafe(ReplaceUnsafe(name));
    PrefixSafe(c, Min(|c|, MaxFileNameLength));
  }

  lemma ReplaceUnsafeSafe(s: string)
    ensures NoUnsafe(ReplaceUnsafe(s))
  {
    assert Underscore !in UnsafeChars;
  }

  lemma PrefixSafe(s: string, n: nat)
    requires n <= |s| && NoUnsafe(s) && Text.NoSpace(s)
    ensures NoUnsafe(s[..n]) && Text.NoSpace(s[..n])
  {
    assert forall i :: 0 <= i < n ==> s[..n][i] == s[i];
  }

  /** Sanitizing a sanitized name changes nothing. */
  lemma SanitizeFileNameIdempotent(name: string)
    ensures SanitizeFileName(SanitizeFileName(name)) == SanitizeFileName(name)
  {
    var r := SanitizeFileName(name);
    SanitizeFileNameSafe(name);
    assert ReplaceUnsafe(r) == r;
    CollapseSpacesNoSpace(r);
  }

  /**
   * A name without whitespace is sanitized character by character: each
   * unsafe character becomes `_`, every other one is kept in place, and the
   * result is cut at 255 characters.
   */
  lemma SanitizeWithoutSpaces(name: string)
    requires Text.NoSpace(name)
    ensures var r := SanitizeFileName(name);
      && |r| == Min(|name|, MaxFileNameLength)
      && forall i :: 0 <= i < |r| ==> r[i] == if name[i] in UnsafeChars then Underscore else name[i]
  {
    var u := ReplaceUnsafe(name);
    assert Text.NoSpace(u) by {
      forall i | 0 <= i < |u|
        ensures !Text.IsSpace(u[i])
      {
        assert u[i] == name[i] || u[i] == Underscore;
      }
    }
    CollapseSpacesNoSpace(u);
  }

  /**
   * A run of whitespace between two non-blank parts turns into exactly one
   * `_`, and the parts on either side are treated independently.
   */
  lemma {:induction false} CollapseRun(a: string, w: string, b: string)
    requires w != [] && forall i :: 0 <= i < |w| ==> Text.IsSpace(w[i])
    requires a == [] || !Text.IsSpace(a[|a| - 1])
    requires b == [] || !Text.IsSpace(b[0])
    ensures CollapseSpaces(a + w + b) == CollapseSpaces(a) + [Underscore] + CollapseSpaces(b)
    decreases |a|
  {
    if a == [] {
      assert a + w + b == w + b;
      RunThenText(w, b);
    } else {
      var x := a + w + b;
      assert x[0] == a[0];
      assert x[1..] == a[1..] + w + b;
      if |a| > 1 {
        assert x[1] == a[1];
      } else {
        assert !Text.IsSpace(a[0]);
      }
      CollapseRun(a[1..], w, b);
      var ct, cb := CollapseSpaces(a[1..]), CollapseSpaces(b);
      assert [a[0]] + (ct + [Underscore] + cb) == ([a[0]] + ct) + [Underscore] + cb;
      assert [Underscore] + (ct + [Underscore] + cb) == ([Underscore] + ct) + [Underscore] + cb;
    }
  }

  /** A whitespace run at the front becomes one `_`. */
  lemma {:induction false} RunThenText(w: string, b: string)
    requires w != [] && forall i :: 0 <= i < |w| ==> Text.IsSpace(w[i])
    requires b == [] || !Text.IsSpace(b[0])
    ensures CollapseSpaces(w + b) == [Underscore] + CollapseSpaces(b)
    decreases |w|
  {
    var x := w + b;
    assert x[1..] == w[1..] + b;
    if |w| > 1 {
      assert x[1] == w[1];
      RunThenText(w[1..], b);
    } else {
      assert x[1..] == b;
    }
  }

  // ---------------------------------------------------------------- validateFileSignature

  const ImagePrefix: string := "image/"

  /** Bytes read from the start of the file: `file.slice(0, 8)`. */
  const HeaderLength: nat := 8

  const PdfMagic: seq<Byte> := [0x25, 0x50, 0x44, 0x46]
  const JpegMagic: seq<Byte> := [0xFF, 0xD8]
  const PngMagic: seq<Byte> := [0x89, 0x50, 0x4E, 0x47]
  const GifMagic: seq<Byte> := [0x47, 0x49, 0x46]
  const BmpMagic: seq<Byte> := [0x42, 0x4D]

  /** "RIFF" and "WEBP": a WebP file is `RIFF <4-byte size> WEBP ...`. */
  const RiffMagic: seq<Byte> := [0x52, 0x49, 0x46, 0x46]
  const WebpTag: seq<Byte> := [0x57, 0x45, 0x42, 0x50]

  datatype SignatureError = InvalidPdf | InvalidImage

  /** `view[i] === v`: a byte past the end of the header is `undefined` and equals nothing. */
  predicate ByteIs(h: seq<Byte>, i: nat, v: Byte)
  {
    i < |h| && h[i] == v
  }

  /** `new Uint8Array(await file.slice(0, n).arrayBuffer())`. */
  function ReadHeader(content: seq<Byte>, n: nat): seq<Byte>
  {
    Truncate(content, n)
  }

  /** The `isValidImage` test as written: JPEG, PNG, GIF or BMP. */
  predicate IsValidImageAsWritten(h: seq<Byte>)
  {
    || (ByteIs(h, 0, 0xFF) && ByteIs(h, 1, 0xD8))
    || (ByteIs(h, 0, 0x89) && ByteIs(h, 1, 0x50) && ByteIs(h, 2, 0x4E) && ByteIs(h, 3, 0x47))
    || (ByteIs(h, 0, 0x47) && ByteIs(h, 1, 0x49) && ByteIs(h, 2, 0x46))
    || (ByteIs(h, 0, 0x42) && ByteIs(h, 1, 0x4D))
  }

  function CheckHeaderAsWritten(mimeType: string, h: seq<Byte>): Result<bool, SignatureError>
  {
    if mimeType == PdfType then
      if !ByteIs(h, 0, 0x25) || !ByteIs(h, 1, 0x50) || !ByteIs(h, 2, 0x44) || !ByteIs(h, 3, 0x46)
      then Failure(InvalidPdf) else Success(true)
    else if StartsWith(mimeType, ImagePrefix) then
      if !IsValidImageAsWritten(h) then Failure(InvalidImage) else Success(true)
    else Success(true)
  }

  /** `validateFileSignature(file)` as written, on the file's content. */
  function ValidateFileSignatureAsWritten(f: FileRef, content: seq<Byte>): Result<bool, SignatureError>
  {
    CheckHeaderAsWritten(f.mimeType, ReadHeader(content, HeaderLength))
  }

  /** The image formats of the allowed image types. */
  datatype ImageFormat = Jpeg | Png | Gif | Bmp | Webp

  /** The content begins with the signature of format `fmt`. */
  predicate HasSignature(fmt: ImageFormat, content: seq<Byte>)
  {
    match fmt
    case Jpeg => StartsWith(content, JpegMagic)
    case Png => StartsWith(content, PngMagic)
    case Gif => StartsWith(content, GifMagic)
    case Bmp => StartsWith(content, BmpMagic)
    case Webp => StartsWith(content, RiffMagic) && |content| >= 12 && content[8..12] == WebpTag
  }

  /**
   * The check as written, stated on the whole content: a PDF passes exactly
   * when the content begins with `%PDF`; an image type exactly when it
   * begins with the JPEG, PNG, GIF or BMP signature; any other type always
   * passes. A content shorter than a signature does not begin with it.
   */
  lemma SignatureAsWrittenIff(f: FileRef, content: seq<Byte>)
    ensures var r := ValidateFileSignatureAsWritten(f, content);
      && (f.mimeType == PdfType ==> (r.Success? <==> StartsWith(content, PdfMagic)))
      && (f.mimeType != PdfType && StartsWith(f.mimeType, ImagePrefix) ==>
            (r.Success? <==> (StartsWith(content, JpegMagic) || StartsWith(content, PngMagic)
                              || StartsWith(content, GifMagic) || StartsWith(content, BmpMagic))))
      && (f.mimeType != PdfType && !StartsWith(f.mimeType, ImagePrefix) ==> r == Success(true))
  {
    PdfHeaderIff(content, HeaderLength);
    ImageHeaderAsWrittenIff(content, HeaderLength);
  }

  /** The four byte tests of the PDF branch amount to the `%PDF` prefix test on the content. */
  lemma PdfHeaderIff(content: seq<Byte>, n: nat)
    requires n >= 4
    ensures var h := ReadHeader(content, n);
      (ByteIs(h, 0, 0x25) && ByteIs(h, 1, 0x50) && ByteIs(h, 2, 0x44) && ByteIs(h, 3, 0x46))
        <==> StartsWith(content, PdfMagic)
  {
    MagicThroughHeader(content, n, PdfMagic);
    BytesAreMagic(ReadHeader(content, n), PdfMagic);
  }

  /** The image test as written accepts a header exactly when the content begins with one of its four signatures. */
  lemma ImageHeaderAsWrittenIff(content: seq<Byte>, n: nat)
    requires n >= 4
    ensures IsValidImageAsWritten(ReadHeader(content, n)) <==>
      (StartsWith(content, JpegMagic) || StartsWith(content, PngMagic)
       || StartsWith(content, GifMagic) || StartsWith(content, BmpMagic))
  {
    var h := ReadHeader(content, n);
    MagicThroughHeader(content, n, JpegMagic);
    MagicThroughHeader(content, n, PngMagic);
    MagicThroughHeader(content, n, GifMagic);
    MagicThroughHeader(content, n, BmpMagic);
    BytesAreMagic(h, JpegMagic);
    BytesAreMagic(h, PngMagic);
    BytesAreMagic(h, GifMagic);
    BytesAreMagic(h, BmpMagic);
  }

  /** A signature no longer than the header is seen in the header exactly when the content begins with it. */
  lemma MagicThroughHeader(content: seq<Byte>, n: nat, magic: seq<Byte>)
    requires |magic| <= n
    ensures StartsWith(ReadHeader(content, n), magic) <==> StartsWith(content, magic)
  {
    var h := ReadHeader(content, n);
    if StartsWith(content, magic) {
      assert h[..|magic|] == content[..|magic|];
    }
    if StartsWith(h, magic) {
      assert content[..|magic|] == h[..|magic|];
    }
  }

  /** Byte-by-byte comparisons of the first bytes are a prefix test. */
  lemma BytesAreMagic(h: seq<Byte>, magic: seq<Byte>)
    requires |magic| <= 4
    ensures StartsWith(h, magic) <==> forall i :: 0 <= i < |magic| ==> ByteIs(h, i, magic[i])
  {
    if forall i :: 0 <= i < |magic| ==> ByteIs(h, i, magic[i]) {
      if |magic| > 0 { assert ByteIs(h, |magic| - 1, magic[|magic| - 1]); }
      assert h[..|magic|] == magic;
    }
  }

  // ---------------------------------------------------------------- WebP

  /**
   * `image/webp` is an allowed type, yet no WebP file passes the check as
   * written: its content begins with "RIFF", which none of the four image
   * tests accepts.
   */
  lemma WebpRejectedAsWritten(f: FileRef, content: seq<Byte>)
    requires f.mimeType == "image/webp" && HasSignature(Webp, content)
    ensures f.mimeType in AllowedTypes
    ensures ValidateFileSignatureAsWritten(f, content) == Failure(InvalidImage)
  {
    SignatureAsWrittenIff(f, content);
    assert content[0] == 0x52;
  }

  /** A concrete WebP header the check as written refuses. */
  lemma WebpCounterexample()
    ensures var f := FileRef("photo.webp", "image/webp", 12);
      && ValidateFile(f).Success?
      && ValidateFileSignatureAsWritten(f, RiffMagic + [12, 0, 0, 0] + WebpTag).Failure?
  {
    var f := FileRef("photo.webp", "image/webp", 12);
    var content: seq<Byte> := RiffMagic + [12, 0, 0, 0] + WebpTag;
    assert content[8..12] == WebpTag;
    assert !HasSuspiciousExtension(f.name) by {
      forall ext | ext in SuspiciousExtensions
        ensures !EndsWith(Text.ToLower(f.name), ext)
      {
        assert Text.ToLower(f.name)[|f.name| - 4..] == ".webp"[1..];
      }
    }
    WebpRejectedAsWritten(f, content);
  }

  /** Bytes read from the start of the file by the corrected check: enough for "WEBP" at 8..11. */
  const FullHeaderLength: nat := 12

  /** The image test with the WebP signature added: "RIFF" at 0..3 and "WEBP" at 8..11. */
  predicate IsValidImage(h: seq<Byte>)
  {
    || IsValidImageAsWritten(h)
    || (ByteIs(h, 0, 0x52) && ByteIs(h, 1, 0x49) && ByteIs(h, 2, 0x46) && ByteIs(h, 3, 0x46)
        && ByteIs(h, 8, 0x57) && ByteIs(h, 9, 0x45) && ByteIs(h, 10, 0x42) && ByteIs(h, 11, 0x50))
  }

  function CheckHeader(mimeType: string, h: seq<Byte>): Result<bool, SignatureError>
  {
    if mimeType == PdfType then
      if !ByteIs(h, 0, 0x25) || !ByteIs(h, 1, 0x50) || !ByteIs(h, 2, 0x44) || !ByteIs(h, 3, 0x46)
      then Failure(InvalidPdf) else Success(true)
    else if StartsWith(mimeType, ImagePrefix) then
      if !IsValidImage(h) then Failure(InvalidImage) else Success(true)
    else Success(true)
  }

  /** `validateFileSignature(file)`, reading 12 bytes and accepting every allowed image format. */
  function ValidateFileSignature(f: FileRef, content: seq<Byte>): Result<bool, SignatureError>
  {
    CheckHeader(f.mimeType, ReadHeader(content, FullHeaderLength))
  }

  /** "WEBP" at bytes 8..11 of the content is seen in a 12-byte header exactly as in the content. */
  lemma WebpThroughHeader(content: seq<Byte>)
    ensures var h := ReadHeader(content, FullHeaderLength);
      HasSignature(Webp, content) <==>
        && ByteIs(h, 0, 0x52) && ByteIs(h, 1, 0x49) && ByteIs(h, 2, 0x46) && ByteIs(h, 3, 0x46)
        && ByteIs(h, 8, 0x57) && ByteIs(h, 9, 0x45) && ByteIs(h, 10, 0x42) && ByteIs(h, 11, 0x50)
  {
    var h := ReadHeader(content, FullHeaderLength);
    MagicThroughHeader(content, FullHeaderLength, RiffMagic);
    BytesAreMagic(h, RiffMagic);
    if |content| >= 12 {
      assert |h| == 12;
      var tag := content[8..12];
      assert tag == [content[8], content[9], content[10], content[11]];
      assert h[8] == content[8] && h[9] == content[9] && h[10] == content[10] && h[11] == content[11];
    }
  }

  /**
   * The corrected check: a PDF passes exactly when the content begins with
   * `%PDF`; an image type exactly when the content carries the signature of
   * one of the five image formats; any other type always passes.
   */
  lemma SignatureIff(f: FileRef, content: seq<Byte>)
    ensures var r := ValidateFileSignature(f, content);
      && (f.mimeType == PdfType ==> (r.Success? <==> StartsWith(content, PdfMagic)))
      && (f.mimeType != PdfType && StartsWith(f.mimeType, ImagePrefix) ==>
            (r.Success? <==> exists fmt :: HasSignature(fmt, content)))
      && (f.mimeType != PdfType && !StartsWith(f.mimeType, ImagePrefix) ==> r == Success(true))
  {
    PdfHeaderIff(content, FullHeaderLength);
    ImageHeaderIff(content);
  }

  /** The corrected image test accepts the 12-byte header exactly when the content carries some image signature. */
  lemma ImageHeaderIff(content: seq<Byte>)
    ensures IsValidImage(ReadHeader(content, FullHeaderLength)) <==> exists fmt :: HasSignature(fmt, content)
  {
    ImageHeaderAsWrittenIff(content, FullHeaderLength);
    WebpThroughHeader(content);
    if IsValidImage(ReadHeader(content, FullHeaderLength)) {
      if HasSignature(Jpeg, content) {
      } else if HasSignature(Png, content) {
      } else if HasSignature(Gif, content) {
      } else if HasSignature(Bmp, content) {
      } else {
        assert HasSignature(Webp, content);
      }
    }
  }

  /** The correction changes nothing for content that is not WebP: only WebP files are newly accepted. */
  lemma SignatureAgreesBesideWebp(f: FileRef, content: seq<Byte>)
    ensures !HasSignature(Webp, content) ==>
      ValidateFileSignature(f, content) == ValidateFileSignatureAsWritten(f, content)
    ensures ValidateFileSignatureAsWritten(f, content).Success? ==> ValidateFileSignature(f, content).Success?
  {
    SignatureIff(f, content);
    SignatureAsWrittenIff(f, content);
  }
}
