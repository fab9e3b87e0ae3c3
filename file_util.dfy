/** FileUtil: validation of declared upload metadata against the fixed policy
    tables, extraction of the extension, generation of stored names and
    normalisation of the user-supplied name. */
module FileUtil {
  import opened Common
  import opened Text
  import opened Entities

  const MiB: int := 1024 * 1024

  /** ALLOWED_TYPES: MIME type -> the extensions accepted for it. */
  const AllowedTypes: map<string, seq<string>> := map[
    "image/jpeg" := ["jpg", "jpeg"],
    "image/png" := ["png"],
    "image/gif" := ["gif"],
    "image/webp" := ["webp"],
    "video/mp4" := ["mp4"],
    "video/webm" := ["webm"],
    "video/quicktime" := ["mov"],
    "audio/mpeg" := ["mp3"],
    "audio/wav" := ["wav"],
    "audio/ogg" := ["ogg"],
    "application/pdf" := ["pdf"],
    "application/msword" := ["doc"],
    "application/vnd.openxmlformats-officedocument.wordprocessingml.document" := ["docx"]
  ]

  /** FILE_SIZE_LIMITS: type family -> largest accepted size in bytes. */
  const FileSizeLimits: map<string, int> := map[
    "image" := 10 * MiB,
    "video" := 50 * MiB,
    "audio" := 20 * MiB,
    "application" := 20 * MiB
  ]

  /** mime.split("/")[0]: the text before the first '/'. (For a string made only
      of '/' characters Java's split yields no element and throws; the code only
      splits keys of AllowedTypes, where this cannot happen.) */
  function Family(mime: string): (f: string)
    ensures '/' !in f && |f| <= |mime| && f == mime[..|f|]
    ensures |f| < |mime| ==> mime[|f|] == '/'
  {
    if mime == [] || mime[0] == '/' then [] else [mime[0]] + Family(mime[1..])
  }

  /** getFileType: the family word of a MIME type; null gives the generic word. */
  function GetFileType(mimetype: Option<string>): (k: FileKind) {
    if mimetype.None? then OtherFile
    else
      var family := Family(mimetype.value);
      if family == "image" then Image
      else if family == "video" then Video
      else if family == "audio" then Audio
      else if family == "application" then Document
      else OtherFile
  }

  /** FILE_SIZE_LIMITS.getOrDefault(family, FILE_SIZE_LIMITS.get("application")). */
  function SizeLimit(contentType: string): (limit: int) {
    var family := Family(contentType);
    if family in FileSizeLimits then FileSizeLimits[family] else FileSizeLimits["application"]
  }

  /** The kind names the family: null gives the generic kind, and each of the four
      known families its own kind, the generic one covering every other family. */
  lemma FileTypeByFamily(mimetype: Option<string>)
    ensures mimetype.None? ==> GetFileType(mimetype) == OtherFile
    ensures mimetype.Some? ==> (GetFileType(mimetype) == Image <==> Family(mimetype.value) == "image")
    ensures mimetype.Some? ==> (GetFileType(mimetype) == Video <==> Family(mimetype.value) == "video")
    ensures mimetype.Some? ==> (GetFileType(mimetype) == Audio <==> Family(mimetype.value) == "audio")
    ensures mimetype.Some? ==> (GetFileType(mimetype) == Document <==> Family(mimetype.value) == "application")
  {
  }

  /** The limit names the family: 10 MiB exactly for images, 50 MiB exactly for
      video, and the 20 MiB application limit for every other family. */
  lemma SizeLimitByFamily(contentType: string)
    ensures SizeLimit(contentType) == 10 * MiB <==> Family(contentType) == "image"
    ensures SizeLimit(contentType) == 50 * MiB <==> Family(contentType) == "video"
    ensures SizeLimit(contentType) == 20 * MiB <==> Family(contentType) != "image" && Family(contentType) != "video"
  {
  }

  /** The family of "f/rest" is f when f has no '/'. */
  lemma {:induction false} FamilyOf(f: string, rest: string)
    requires '/' !in f
    ensures Family(f + "/" + rest) == f
  {
    if f != [] {
      assert (f + "/" + rest)[0] == f[0];
      assert (f + "/" + rest)[1..] == f[1..] + "/" + rest;
      FamilyOf(f[1..], rest);
    } else {
      assert (f + "/" + rest)[0] == '/';
    }
  }

  // ---------------------------------------------------------------------------
  // The six rules of validateMetadata, each stated on its own.

  predicate NamePresent(r: UploadRequest) {
    r.originalFilename.Some? && HasText(r.originalFilename.value)
  }

  predicate NameFits(r: UploadRequest) {
    r.originalFilename.Some? && Utf8Length(r.originalFilename.value) <= 255
  }

  predicate TypeKnown(r: UploadRequest) {
    r.contentType.Some? && r.contentType.value in AllowedTypes
  }

  predicate ExtensionAllowed(r: UploadRequest) {
    && r.originalFilename.Some?
    && TypeKnown(r)
    && ToLower(GetFileExtension(r.originalFilename.value)) in AllowedTypes[r.contentType.value]
  }

  predicate SizePositive(r: UploadRequest) {
    r.size > 0
  }

  predicate WithinFamilyLimit(r: UploadRequest) {
    TypeKnown(r) && r.size <= SizeLimit(r.contentType.value)
  }

  /** A request every rule accepts. */
  predicate Conforms(r: UploadRequest) {
    NamePresent(r) && NameFits(r) && TypeKnown(r) && ExtensionAllowed(r)
    && SizePositive(r) && WithinFamilyLimit(r)
  }

  /** validateMetadata: the first failing rule decides the rejection. */
  function ValidateMetadata(request: Option<UploadRequest>): (v: Verdict)
    ensures v.Accept? <==> request.Some? && Conforms(request.value)
    ensures request.None? ==> v == Reject(MissingRequest)
  {
    if request.None? then Reject(MissingRequest)
    else
      var r := request.value;
      if r.originalFilename.None? || !HasText(r.originalFilename.value) then Reject(InvalidFilename)
      else if Utf8Length(r.originalFilename.value) > 255 then Reject(FilenameTooLong)
      else if r.contentType.None? || r.contentType.value !in AllowedTypes then Reject(UnsupportedType)
      else
        var contentType := r.contentType.value;
        var extension := ToLower(GetFileExtension(r.originalFilename.value));
        if extension !in AllowedTypes[contentType] then
          Reject(InvalidExtension(GetFileType(r.contentType)))
        else if r.size <= 0 then Reject(InvalidSize)
        else if r.size > SizeLimit(contentType) then
          Reject(TooLarge(GetFileType(r.contentType), SizeLimit(contentType) / 1024 / 1024))
        else Accept
  }

  /** The rules are checked in order and the first one violated is reported. */
  lemma ValidationOrder(r: UploadRequest)
    ensures ValidateMetadata(Some(r)) == Reject(InvalidFilename) <==> !NamePresent(r)
    ensures ValidateMetadata(Some(r)) == Reject(FilenameTooLong)
        <==> NamePresent(r) && !NameFits(r)
    ensures ValidateMetadata(Some(r)) == Reject(UnsupportedType)
        <==> NamePresent(r) && NameFits(r) && !TypeKnown(r)
    ensures ValidateMetadata(Some(r)) == Reject(InvalidExtension(GetFileType(r.contentType)))
        <==> NamePresent(r) && NameFits(r) && TypeKnown(r) && !ExtensionAllowed(r)
    ensures ValidateMetadata(Some(r)) == Reject(InvalidSize)
        <==> NamePresent(r) && NameFits(r) && TypeKnown(r) && ExtensionAllowed(r) && !SizePositive(r)
    ensures (ValidateMetadata(Some(r)).Reject? && ValidateMetadata(Some(r)).reason.TooLarge?)
        <==> NamePresent(r) && NameFits(r) && TypeKnown(r) && ExtensionAllowed(r) && SizePositive(r)
             && !WithinFamilyLimit(r)
  {
  }

  /** The family limits: images 10 MiB, video 50 MiB, audio and documents 20 MiB. */
  lemma FamilyLimits(contentType: string)
    ensures GetFileType(Some(contentType)) == Image ==> SizeLimit(contentType) == 10 * MiB
    ensures GetFileType(Some(contentType)) == Video ==> SizeLimit(contentType) == 50 * MiB
    ensures GetFileType(Some(contentType)) == Audio ==> SizeLimit(contentType) == 20 * MiB
    ensures GetFileType(Some(contentType)) == Document ==> SizeLimit(contentType) == 20 * MiB
    ensures GetFileType(Some(contentType)) == OtherFile ==> SizeLimit(contentType) == 20 * MiB
  {
  }

  /** A request meeting every rule is accepted. */
  lemma AcceptsConforming(r: UploadRequest)
    requires Conforms(r)
    ensures ValidateMetadata(Some(r)) == Accept
  {
  }

  /** A request meeting every rule but the family limit is refused with that limit in MiB. */
  lemma RejectsOverLimit(r: UploadRequest)
    requires NamePresent(r) && NameFits(r) && TypeKnown(r) && ExtensionAllowed(r)
    requires r.size > SizeLimit(r.contentType.value)
    ensures ValidateMetadata(Some(r)) == Reject(TooLarge(GetFileType(r.contentType), SizeLimit(r.contentType.value) / MiB))
  {
    LimitInMiB(r.contentType.value);
    OverLimitSteps(r.originalFilename.value, r.contentType.value, r.size);
  }

  /** The over-limit verdict as validateMetadata computes it, dividing twice by 1024. */
  lemma OverLimitSteps(name: string, contentType: string, size: int)
    requires HasText(name) && Utf8Length(name) <= 255 && contentType in AllowedTypes
    requires ToLower(GetFileExtension(name)) in AllowedTypes[contentType]
    requires size > SizeLimit(contentType)
    ensures ValidateMetadata(Some(UploadRequest(Some(name), Some(contentType), size)))
         == Reject(TooLarge(GetFileType(Some(contentType)), SizeLimit(contentType) / 1024 / 1024))
  {
    LimitPositive(contentType);
  }

  /** Every family limit is at least the 10 MiB image limit. */
  lemma LimitPositive(contentType: string)
    ensures SizeLimit(contentType) >= 10 * MiB
  {
  }

  lemma OverLimitVerdict(r: UploadRequest, kind: FileKind, limitMiB: int)
    requires NamePresent(r) && NameFits(r) && TypeKnown(r) && ExtensionAllowed(r)
    requires GetFileType(r.contentType) == kind && SizeLimit(r.contentType.value) / MiB == limitMiB
    requires r.size > SizeLimit(r.contentType.value)
    ensures ValidateMetadata(Some(r)) == Reject(TooLarge(kind, limitMiB))
  {
    RejectsOverLimit(r);
  }

  /** Every family limit is a whole number of MiB, so dividing twice by 1024 is exact. */
  lemma LimitInMiB(contentType: string)
    ensures SizeLimit(contentType) / 1024 / 1024 == SizeLimit(contentType) / MiB
    ensures SizeLimit(contentType) % MiB == 0
  {
    var l := SizeLimit(contentType);
    assert l == 10 * MiB || l == 50 * MiB || l == 20 * MiB;
  }

  /** The size limit is inclusive: exactly the limit passes, one byte more fails. */
  lemma LimitIsInclusive(r: UploadRequest)
    requires NamePresent(r) && NameFits(r) && TypeKnown(r) && ExtensionAllowed(r)
    ensures ValidateMetadata(Some(r.(size := SizeLimit(r.contentType.value)))) == Accept
    ensures ValidateMetadata(Some(r.(size := SizeLimit(r.contentType.value) + 1)))
         == Reject(TooLarge(GetFileType(r.contentType), SizeLimit(r.contentType.value) / MiB))
  {
    var limit := SizeLimit(r.contentType.value);
    FamilyLimits(r.contentType.value);
    AcceptsConforming(r.(size := limit));
    RejectsOverLimit(r.(size := limit + 1));
  }

  /** The verdict depends on the filename only through the first three rules. */
  lemma SameRulesSameVerdict(r1: UploadRequest, r2: UploadRequest)
    requires r1.contentType == r2.contentType && r1.size == r2.size
    requires NamePresent(r1) == NamePresent(r2) && NameFits(r1) == NameFits(r2)
    requires ExtensionAllowed(r1) == ExtensionAllowed(r2)
    requires r1.originalFilename.Some? && r2.originalFilename.Some?
    ensures ValidateMetadata(Some(r1)) == ValidateMetadata(Some(r2))
  {
  }

  /** The extension is compared case-insensitively: upper-casing it never changes
      the verdict. */
  lemma ExtensionCaseInsensitive(r: UploadRequest, base: string, ext: string)
    requires ext != [] && '.' !in ext
    ensures ValidateMetadata(Some(r.(originalFilename := Some(base + "." + ext))))
         == ValidateMetadata(Some(r.(originalFilename := Some(base + "." + ToUpper(ext)))))
  {
    var upper := ToUpper(ext);
    var n1, n2 := base + "." + ext, base + "." + upper;
    var r1, r2 := r.(originalFilename := Some(n1)), r.(originalFilename := Some(n2));
    assert '.' !in upper by {
      forall i | 0 <= i < |upper| ensures upper[i] != '.' {
        assert ext[i] != '.';
      }
    }
    assert ExtensionAllowed(r1) == ExtensionAllowed(r2) by {
      ExtensionOfJoin(base, ext);
      ExtensionOfJoin(base, upper);
      LowerOfUpper(ext);
    }
    assert NameFits(r1) == NameFits(r2) by {
      Utf8LengthConcat(base + ".", ext);
      Utf8LengthConcat(base + ".", upper);
      Utf8LengthOfUpper(ext);
    }
    assert NamePresent(r1) && NamePresent(r2) by {
      assert n1[|base|] == '.' && n2[|base|] == '.';
    }
    SameRulesSameVerdict(r1, r2);
  }

  lemma {:induction false} Utf8LengthConcat(a: string, b: string)
    ensures Utf8Length(a + b) == Utf8Length(a) + Utf8Length(b)
  {
    if a != [] {
      assert (a + b)[0] == a[0];
      assert (a + b)[1..] == a[1..] + b;
      Utf8LengthConcat(a[1..], b);
    } else {
      assert a + b == b;
    }
  }

  lemma {:induction false} Utf8LengthOfUpper(s: string)
    ensures Utf8Length(ToUpper(s)) == Utf8Length(s)
  {
    if s != [] {
      assert ToUpper(s)[1..] == ToUpper(s[1..]);
      Utf8LengthOfUpper(s[1..]);
    }
  }

  /** A short name "base.ext" beginning with a letter has text and fits the byte budget. */
  lemma ShortNameFits(base: string, ext: string)
    requires 0 < |base| && 'a' <= base[0] <= 'z' && |base| + |ext| < 60
    ensures HasText(base + "." + ext) && Utf8Length(base + "." + ext) <= 255
  {
    var n := base + "." + ext;
    assert n[0] == base[0] && !IsWhitespace(n[0]);
    Utf8LengthBounds(n);
  }

  /** The name rules for a short "base.ext" name beginning with a letter. */
  lemma ShortNameRules(base: string, ext: string, contentType: Option<string>, size: int)
    requires 0 < |base| && 'a' <= base[0] <= 'z' && |base| + |ext| < 60
    ensures NamePresent(UploadRequest(Some(base + "." + ext), contentType, size))
    ensures NameFits(UploadRequest(Some(base + "." + ext), contentType, size))
  {
    ShortNameFits(base, ext);
  }

  /** The extension rule for "base.ext" declared as contentType. */
  lemma ExtensionRule(base: string, ext: string, contentType: string, size: int)
    requires '.' !in ext && ext != [] && contentType in AllowedTypes
    ensures ExtensionAllowed(UploadRequest(Some(base + "." + ext), Some(contentType), size))
        <==> ToLower(ext) in AllowedTypes[contentType]
  {
    ExtensionOfJoin(base, ext);
  }

  lemma PhotoPngName(size: int)
    ensures NamePresent(UploadRequest(Some("photo.PNG"), Some("image/png"), size))
    ensures NameFits(UploadRequest(Some("photo.PNG"), Some("image/png"), size))
  {
    ShortNameRules("photo", "PNG", Some("image/png"), size);
    assert "photo.PNG" == "photo" + "." + "PNG";
  }

  lemma PhotoPngExtension(size: int)
    ensures ExtensionAllowed(UploadRequest(Some("photo.PNG"), Some("image/png"), size))
  {
    ImagePngEntry();
    ExtensionRule("photo", "PNG", "image/png", size);
    assert "photo.PNG" == "photo" + "." + "PNG";
    assert ToLower("PNG") == "png";
  }

  lemma ImagePngFamily()
    ensures Family("image/png") == "image"
  {
    FamilyOf("image", "png");
    assert "image/png" == "image" + "/" + "png";
  }

  lemma ImagePngEntry()
    ensures "image/png" in AllowedTypes && AllowedTypes["image/png"] == ["png"]
  {
  }

  lemma ImagePngLimit()
    ensures GetFileType(Some("image/png")) == Image && SizeLimit("image/png") == 10 * MiB
  {
    ImagePngFamily();
  }

  /** photo.PNG declared as image/png passes at any size from one byte to 10 MiB. */
  lemma PhotoPngAccepted(size: int)
    requires 0 < size <= 10 * MiB
    ensures ValidateMetadata(Some(UploadRequest(Some("photo.PNG"), Some("image/png"), size))) == Accept
  {
    var r := UploadRequest(Some("photo.PNG"), Some("image/png"), size);
    assert NamePresent(r) && NameFits(r) by { PhotoPngName(size); }
    assert ExtensionAllowed(r) by { PhotoPngExtension(size); }
    assert TypeKnown(r) by { ImagePngEntry(); }
    assert SizePositive(r);
    assert WithinFamilyLimit(r) by { ImagePngLimit(); }
    AcceptsConforming(r);
  }

  lemma JpgName()
    ensures NamePresent(UploadRequest(Some("x.jpg"), Some("image/png"), 1048576))
    ensures NameFits(UploadRequest(Some("x.jpg"), Some("image/png"), 1048576))
  {
    ShortNameRules("x", "jpg", Some("image/png"), 1048576);
    assert "x.jpg" == "x" + "." + "jpg";
  }

  lemma JpgExtensionForPng()
    ensures !ExtensionAllowed(UploadRequest(Some("x.jpg"), Some("image/png"), 1048576))
  {
    ExtensionOfJoin("x", "jpg");
    assert "x" + "." + "jpg" == "x.jpg";
    assert ToLower("jpg") == "jpg";
    ImagePngEntry();
  }

  /** A PNG declared with a .jpg name is refused at the extension rule. */
  lemma MismatchedExtensionRejected()
    ensures ValidateMetadata(Some(UploadRequest(Some("x.jpg"), Some("image/png"), 1048576)))
         == Reject(InvalidExtension(Image))
  {
    JpgName();
    JpgExtensionForPng();
    ImagePngFamily();
    ValidationOrder(UploadRequest(Some("x.jpg"), Some("image/png"), 1048576));
  }

  /** A PNG over 10 MiB is refused at the size rule, quoting the 10 MiB image limit. */
  lemma OversizedPngRejected(size: int)
    requires size > 10 * MiB
    ensures ValidateMetadata(Some(UploadRequest(Some("photo.PNG"), Some("image/png"), size)))
         == Reject(TooLarge(Image, 10))
  {
    var r := UploadRequest(Some("photo.PNG"), Some("image/png"), size);
    assert NamePresent(r) && NameFits(r) by { PhotoPngName(size); }
    assert ExtensionAllowed(r) by { PhotoPngExtension(size); }
    assert TypeKnown(r) by { ImagePngEntry(); }
    assert GetFileType(r.contentType) == Image && SizeLimit(r.contentType.value) == 10 * MiB by {
      ImagePngLimit();
    }
    assert SizeLimit(r.contentType.value) / MiB == 10 by { assert MiB == 1048576; }
    OverLimitVerdict(r, Image, 10);
  }

  // ---------------------------------------------------------------------------
  // getFileExtension

  /** getFileExtension: the text after the last '.', or "" for a blank name, a
      name without a dot or a name ending in a dot. */
  function GetFileExtension(filename: string): (ext: string)
    ensures '.' !in ext
    ensures ext == [] <==> !HasText(filename) || '.' !in filename || filename[|filename| - 1] == '.'
    ensures ext != [] ==> |ext| < |filename| && filename == filename[..|filename| - |ext| - 1] + "." + ext
  {
    if !HasText(filename) then ""
    else
      var lastDot := LastIndexOf(filename, '.');
      if lastDot == -1 || lastDot == |filename| - 1 then ""
      else
        var ext := filename[lastDot + 1..];
        assert filename == filename[..lastDot] + "." + ext;
        ext
  }

  /** A name with text before a non-empty dot-free suffix has that suffix as its extension. */
  lemma ExtensionOfJoin(base: string, ext: string)
    requires ext != [] && '.' !in ext
    ensures GetFileExtension(base + "." + ext) == ext
  {
    var n := base + "." + ext;
    assert n == base + ['.'] + ext;
    LastIndexOfJoin(base, '.', ext);
    assert n[|base|] == '.' && !IsWhitespace(n[|base|]);
    assert n[LastIndexOf(n, '.') + 1..] == ext;
  }

  // ---------------------------------------------------------------------------
  // bytesToHex

  /** A Java byte: signed, -128..127. */
  newtype JavaByte = x: int | -128 <= x < 128

  /** The value "%x" prints for a byte: its two's-complement bits read unsigned. */
  function Unsigned(b: JavaByte): (u: nat)
    ensures u < 256
  {
    if b < 0 then b as int + 256 else b as int
  }

  function HexDigit(d: nat): (c: char)
    requires d < 16
    ensures IsLowerHex(c)
  {
    if d < 10 then ('0' as int + d) as char else ('a' as int + d - 10) as char
  }

  predicate IsLowerHex(c: char) {
    '0' <= c <= '9' || 'a' <= c <= 'f'
  }

  function HexValue(c: char): (d: nat)
    requires IsLowerHex(c)
    ensures d < 16
  {
    if c <= '9' then c as int - '0' as int else c as int - 'a' as int + 10
  }

  /** String.format("%02x", b): two lower-case hex digits of the unsigned byte. */
  function ByteHex(b: JavaByte): (h: string)
    ensures |h| == 2 && IsLowerHex(h[0]) && IsLowerHex(h[1])
    ensures 16 * HexValue(h[0]) + HexValue(h[1]) == Unsigned(b)
  {
    HexValueOfDigit(Unsigned(b) / 16);
    HexValueOfDigit(Unsigned(b) % 16);
    [HexDigit(Unsigned(b) / 16), HexDigit(Unsigned(b) % 16)]
  }

  /** The byte two hex digits denote. */
  function HexPair(hi: char, lo: char): JavaByte
    requires IsLowerHex(hi) && IsLowerHex(lo)
  {
    var v := 16 * HexValue(hi) + HexValue(lo);
    if v >= 128 then (v - 256) as JavaByte else v as JavaByte
  }

  /** The hex text of a byte sequence, byte after byte. */
  function Hex(bytes: seq<JavaByte>): (h: string)
    ensures |h| == 2 * |bytes|
    ensures forall i :: 0 <= i < |h| ==> IsLowerHex(h[i])
  {
    if bytes == [] then "" else Hex(bytes[..|bytes| - 1]) + ByteHex(bytes[|bytes| - 1])
  }

  /** Reads hex text back into bytes (the partner of Hex). */
  function UnHex(h: string): seq<JavaByte>
    requires |h| % 2 == 0 && forall i :: 0 <= i < |h| ==> IsLowerHex(h[i])
  {
    if h == [] then []
    else UnHex(h[..|h| - 2]) + [HexPair(h[|h| - 2], h[|h| - 1])]
  }

  /** Hex loses nothing: reading it back gives the bytes, so distinct bytes give distinct names. */
  lemma {:induction false} HexRoundTrip(bytes: seq<JavaByte>)
    ensures UnHex(Hex(bytes)) == bytes
  {
    if bytes != [] {
      var init, last := bytes[..|bytes| - 1], bytes[|bytes| - 1];
      var h := Hex(bytes);
      assert h == Hex(init) + ByteHex(last);
      assert h[..|h| - 2] == Hex(init);
      assert h[|h| - 2..] == ByteHex(last);
      ByteHexRoundTrip(last);
      HexRoundTrip(init);
      assert bytes == init + [last];
    }
  }

  lemma ByteHexRoundTrip(b: JavaByte)
    ensures HexPair(ByteHex(b)[0], ByteHex(b)[1]) == b
  {
    HexValueOfDigit(Unsigned(b) / 16);
    HexValueOfDigit(Unsigned(b) % 16);
  }

  lemma HexValueOfDigit(d: nat)
    requires d < 16
    ensures IsLowerHex(HexDigit(d)) && HexValue(HexDigit(d)) == d
  {
  }

  /** bytesToHex: appends the two hex digits of each byte in turn. */
  method BytesToHex(bytes: array<JavaByte>) returns (hex: string)
    ensures hex == Hex(bytes[..])
  {
    hex := "";
    var i := 0;
    while i < bytes.Length
      invariant 0 <= i <= bytes.Length
      invariant hex == Hex(bytes[..i])
    {
      assert bytes[..i + 1][..i] == bytes[..i];
      hex := hex + ByteHex(bytes[i]);
      i := i + 1;
    }
    assert bytes[..bytes.Length] == bytes[..];
  }

  // ---------------------------------------------------------------------------
  // The shared SecureRandom and the generated names

  /** The next n bytes a source hands out from position from on. */
  function Draw(source: nat -> JavaByte, from: nat, n: nat): (r: seq<JavaByte>)
    ensures |r| == n && forall k :: 0 <= k < n ==> r[k] == source(from + k)
  {
    seq(n, (k: int) requires 0 <= k < n => source(from + k))
  }

  /** next(31): the next four bytes read as a big-endian unsigned 32-bit value,
      shifted right by one, i.e. its high 31 bits. */
  function Bits31(source: nat -> JavaByte, from: nat): (bits: nat)
    ensures bits < 0x8000_0000
  {
    (Unsigned(source(from)) * 0x100_0000 + Unsigned(source(from + 1)) * 0x1_0000
     + Unsigned(source(from + 2)) * 0x100 + Unsigned(source(from + 3))) / 2
  }

  /** nextInt(bound): next(31) reduced below bound. */
  function IntFrom(source: nat -> JavaByte, from: nat, bound: int): (r: int)
    requires bound > 0
    ensures 0 <= r < bound
  {
    Bits31(source, from) % bound
  }

  /** The first byte's top bit lands in the result: bytes 80 00 00 00 give
      next(31) = 2^30, so nextInt(10000) is 1824. */
  lemma IntFromHighBits(source: nat -> JavaByte, from: nat)
    requires source(from) == -128 && source(from + 1) == 0 && source(from + 2) == 0 && source(from + 3) == 0
    ensures Bits31(source, from) == 0x4000_0000
    ensures IntFrom(source, from, 10000) == 1824
  {
    assert Unsigned(source(from)) == 128;
  }

  /** The process-wide SecureRandom: a stream of bytes and how far it has been read. */
  class SecureRandom {
    const source: nat -> JavaByte
    var position: nat

    constructor (source: nat -> JavaByte)
      ensures this.source == source && position == 0
    {
      this.source := source;
      position := 0;
    }

    /** nextBytes: fills the array in place with the next bytes of the stream. */
    method NextBytes(bytes: array<JavaByte>)
      modifies this, bytes
      ensures bytes[..] == Draw(source, old(position), bytes.Length)
      ensures position == old(position) + bytes.Length
    {
      var i := 0;
      while i < bytes.Length
        invariant 0 <= i <= bytes.Length
        invariant position == old(position) + i
        invariant forall k :: 0 <= k < i ==> bytes[k] == source(old(position) + k)
      {
        bytes[i] := source(position);
        position := position + 1;
        i := i + 1;
      }
    }

    /** nextInt(bound): a value in [0, bound). */
    method NextInt(bound: int) returns (r: int)
      requires bound > 0
      modifies this
      ensures r == IntFrom(source, old(position), bound)
      ensures position == old(position) + 4
    {
      r := IntFrom(source, position, bound);
      position := position + 4;
    }
  }

  /** "%d_%s.%s" of timestamp, random hex and extension, or "%d_%s" without one. */
  function SafeName(timestamp: nat, randomHex: string, extension: string): string {
    if extension != "" then NatToDecimal(timestamp) + "_" + randomHex + "." + extension
    else NatToDecimal(timestamp) + "_" + randomHex
  }

  /** generateRandomFileName: "%s_%d_%04d" of prefix, timestamp and random value. */
  function RandomFileName(prefix: string, timestamp: nat, random: nat): string
    requires random < 10000
  {
    prefix + "_" + NatToDecimal(timestamp) + "_" + Pad4(random)
  }

  /** The stored name keeps the extension: a '.' and the extension end it when
      there is one, and there is no '.' at all otherwise. */
  lemma SafeNameExtension(timestamp: nat, randomHex: string, extension: string)
    requires forall i :: 0 <= i < |randomHex| ==> IsLowerHex(randomHex[i])
    requires '.' !in extension
    ensures GetFileExtension(SafeName(timestamp, randomHex, extension)) == extension
    ensures extension == "" ==> '.' !in SafeName(timestamp, randomHex, extension)
  {
    StemDotFree(timestamp, randomHex);
    if extension != "" {
      ExtensionOfJoin(NatToDecimal(timestamp) + "_" + randomHex, extension);
    }
  }

  /** The random name ends in '_' and four digits that read back as the random value. */
  lemma RandomNameShape(prefix: string, timestamp: nat, random: nat)
    requires random < 10000
    ensures var name := RandomFileName(prefix, timestamp, random);
            var digits := name[|name| - 4..];
            && name == prefix + "_" + NatToDecimal(timestamp) + "_" + digits
            && IsDigits(digits) && DecimalValue(digits) == random
  {
    var name := RandomFileName(prefix, timestamp, random);
    assert name[|name| - 4..] == Pad4(random);
    Pad4RoundTrip(random);
  }

  /** The name generateSafeFileName returns at a given clock reading and random
      position; a non-blank original keeps its extension. */
  function GeneratedName(originalFilename: string, timestamp: nat, source: nat -> JavaByte, position: nat): (name: string)
    ensures HasText(originalFilename) ==> GetFileExtension(name) == GetFileExtension(originalFilename)
  {
    if !HasText(originalFilename) then RandomFileName("file", timestamp, IntFrom(source, position, 10000))
    else
      var hex := Hex(Draw(source, position, 8));
      var ext := GetFileExtension(originalFilename);
      SafeNameExtension(timestamp, hex, ext);
      SafeName(timestamp, hex, ext)
  }

  /** generateRandomFileName(prefix) at clock reading nowMillis. */
  method GenerateRandomFileName(prefix: string, nowMillis: nat, rng: SecureRandom) returns (name: string)
    modifies rng
    ensures name == RandomFileName(prefix, nowMillis, IntFrom(rng.source, old(rng.position), 10000))
    ensures rng.position == old(rng.position) + 4
  {
    var random := rng.NextInt(10000);
    name := prefix + "_" + NatToDecimal(nowMillis) + "_" + Pad4(random);
  }

  /** generateSafeFileName at clock reading nowMillis. */
  method GenerateSafeFileName(originalFilename: string, nowMillis: nat, rng: SecureRandom) returns (name: string)
    modifies rng
    ensures name == GeneratedName(originalFilename, nowMillis, rng.source, old(rng.position))
    ensures rng.position == old(rng.position) + (if HasText(originalFilename) then 8 else 4)
  {
    if !HasText(originalFilename) {
      name := GenerateRandomFileName("file", nowMillis, rng);
      return;
    }
    var extension := GetFileExtension(originalFilename);
    var timestamp := nowMillis;
    var randomBytes := new JavaByte[8];
    rng.NextBytes(randomBytes);
    var randomHex := BytesToHex(randomBytes);
    if extension != "" {
      name := NatToDecimal(timestamp) + "_" + randomHex + "." + extension;
    } else {
      name := NatToDecimal(timestamp) + "_" + randomHex;
    }
  }

  /** A stored name for a non-blank original: digits, '_', sixteen lower-case hex
      digits, then the original's extension verbatim (case kept) after a '.', or
      no '.' at all when the original has no extension. */
  lemma GeneratedNameShape(originalFilename: string, timestamp: nat, source: nat -> JavaByte, position: nat)
    requires HasText(originalFilename)
    ensures var name := GeneratedName(originalFilename, timestamp, source, position);
            var ext := GetFileExtension(originalFilename);
            var hex := Hex(Draw(source, position, 8));
            && |hex| == 16 && (forall i :: 0 <= i < 16 ==> IsLowerHex(hex[i]))
            && name == NatToDecimal(timestamp) + "_" + hex + (if ext == "" then "" else "." + ext)
            && GetFileExtension(name) == ext
            && (ext == "" ==> '.' !in name)
  {
    var ext := GetFileExtension(originalFilename);
    var hex := Hex(Draw(source, position, 8));
    var name := GeneratedName(originalFilename, timestamp, source, position);
    assert name == SafeName(timestamp, hex, ext);
    SafeNameExtension(timestamp, hex, ext);
    SafeNameJoin(timestamp, hex, ext);
  }

  lemma SafeNameJoin(timestamp: nat, randomHex: string, extension: string)
    ensures SafeName(timestamp, randomHex, extension)
         == NatToDecimal(timestamp) + "_" + randomHex + (if extension == "" then "" else "." + extension)
  {
    var stem := NatToDecimal(timestamp) + "_" + randomHex;
    if extension == "" {
      assert stem + "" == stem;
    } else {
      assert stem + "." + extension == stem + ("." + extension);
    }
  }

  /** The timestamp-and-hex part of a stored name has no '.'. */
  lemma StemDotFree(timestamp: nat, hex: string)
    requires forall i :: 0 <= i < |hex| ==> IsLowerHex(hex[i])
    ensures '.' !in NatToDecimal(timestamp) + "_" + hex
  {
    var d := NatToDecimal(timestamp);
    var stem := d + "_" + hex;
    forall i | 0 <= i < |stem| ensures stem[i] != '.' {
      if i < |d| {
        assert stem[i] == d[i];
      } else if i > |d| {
        assert stem[i] == hex[i - |d| - 1];
      }
    }
  }

  /** A blank original yields file_<timestamp>_<four digits> for a value in [0, 9999]. */
  lemma BlankNameShape(originalFilename: string, timestamp: nat, source: nat -> JavaByte, position: nat)
    requires !HasText(originalFilename)
    ensures var name := GeneratedName(originalFilename, timestamp, source, position);
            var digits := name[|name| - 4..];
            && name == "file_" + NatToDecimal(timestamp) + "_" + digits
            && IsDigits(digits) && 0 <= DecimalValue(digits) <= 9999
  {
    RandomNameShape("file", timestamp, IntFrom(source, position, 10000));
    assert "file" + "_" == "file_";
  }

  /** The extensions of the table contain no '/' once lower-cased, so neither does
      the original extension. */
  lemma AllowedExtensionSlashFree(contentType: string, ext: string)
    requires contentType in AllowedTypes && ToLower(ext) in AllowedTypes[contentType]
    ensures '/' !in ext
  {
    assert '/' !in ToLower(ext);
    forall i | 0 <= i < |ext| ensures ext[i] != '/' {
      assert ToLower(ext)[i] == LowerChar(ext[i]);
    }
  }

  /** The stored name generated for a request validateMetadata accepts contains no '/'. */
  lemma ValidatedNameSlashFree(r: UploadRequest, timestamp: nat, source: nat -> JavaByte, position: nat)
    requires ValidateMetadata(Some(r)).Accept?
    ensures '/' !in GeneratedName(r.originalFilename.value, timestamp, source, position)
  {
    var orig := r.originalFilename.value;
    var ext := GetFileExtension(orig);
    AllowedExtensionSlashFree(r.contentType.value, ext);
    SafeNameSlashFree(timestamp, Hex(Draw(source, position, 8)), ext);
  }

  /** A stored name built from lower-case hex and a slash-free extension has no '/'. */
  lemma SafeNameSlashFree(timestamp: nat, randomHex: string, extension: string)
    requires forall i :: 0 <= i < |randomHex| ==> IsLowerHex(randomHex[i])
    requires '/' !in extension
    ensures '/' !in SafeName(timestamp, randomHex, extension)
  {
    var d := NatToDecimal(timestamp);
    assert '/' !in d by {
      forall i | 0 <= i < |d| ensures d[i] != '/' { assert '0' <= d[i] <= '9'; }
    }
    assert '/' !in randomHex by {
      forall i | 0 <= i < |randomHex| ensures randomHex[i] != '/' { assert IsLowerHex(randomHex[i]); }
    }
  }

  // ---------------------------------------------------------------------------
  // normalizeOriginalFilename

  predicate IsSlash(c: char) {
    c == '/' || c == '\\'
  }

  /** replaceAll("[/\\\\]", ""): drops every '/' and '\'. */
  function RemoveSlashes(s: string): (r: string)
    ensures |r| <= |s|
    ensures forall i :: 0 <= i < |r| ==> !IsSlash(r[i])
  {
    if s == [] then [] else (if IsSlash(s[0]) then [] else [s[0]]) + RemoveSlashes(s[1..])
  }

  /** Removing slashes works piece by piece, so it keeps the other characters in order. */
  lemma {:induction false} RemoveSlashesConcat(a: string, b: string)
    ensures RemoveSlashes(a + b) == RemoveSlashes(a) + RemoveSlashes(b)
  {
    if a != [] {
      var head := if IsSlash(a[0]) then [] else [a[0]];
      assert (a + b)[0] == a[0];
      assert (a + b)[1..] == a[1..] + b;
      assert RemoveSlashes(a + b) == head + RemoveSlashes(a[1..] + b);
      RemoveSlashesConcat(a[1..], b);
      assert head + (RemoveSlashes(a[1..]) + RemoveSlashes(b)) == (head + RemoveSlashes(a[1..])) + RemoveSlashes(b);
    } else {
      assert a + b == b;
    }
  }

  /** A string without slashes is left as it is. */
  lemma {:induction false} RemoveSlashesKeepsClean(s: string)
    requires forall i :: 0 <= i < |s| ==> !IsSlash(s[i])
    ensures RemoveSlashes(s) == s
  {
    if s != [] {
      RemoveSlashesKeepsClean(s[1..]);
    }
  }

  /** Every character other than a slash occurs as often as before. */
  lemma {:induction false} RemoveSlashesCounts(s: string, c: char)
    requires !IsSlash(c)
    ensures multiset(RemoveSlashes(s))[c] == multiset(s)[c]
  {
    if s != [] {
      assert s == [s[0]] + s[1..];
      RemoveSlashesCounts(s[1..], c);
    }
  }

  /** normalizeOriginalFilename with the NFC normaliser given as a function. */
  function NormalizeOriginalFilename(originalFilename: string, nfc: string -> string): (r: string)
    ensures !HasText(originalFilename) ==> r == ""
    ensures HasText(originalFilename) ==> r == nfc(RemoveSlashes(originalFilename))
  {
    if !HasText(originalFilename) then "" else nfc(RemoveSlashes(originalFilename))
  }

  /** "a/b\c.txt" becomes NFC of "abc.txt"; in general, slash-free pieces joined
      by '/' and '\' are joined without them. */
  lemma NormalizeDropsSeparators(x: string, y: string, z: string, nfc: string -> string)
    requires forall i :: 0 <= i < |x| ==> !IsSlash(x[i])
    requires forall i :: 0 <= i < |y| ==> !IsSlash(y[i])
    requires forall i :: 0 <= i < |z| ==> !IsSlash(z[i])
    ensures NormalizeOriginalFilename(x + "/" + y + "\\" + z, nfc) == nfc(x + y + z)
  {
    var s := x + "/" + y + "\\" + z;
    assert HasText(s) by { assert s[|x|] == '/' && !IsWhitespace(s[|x|]); }
    RemoveSlashesConcat(x + "/" + y + "\\", z);
    RemoveSlashesConcat(x + "/" + y, "\\");
    RemoveSlashesConcat(x + "/", y);
    RemoveSlashesConcat(x, "/");
    RemoveSlashesKeepsClean(x);
    RemoveSlashesKeepsClean(y);
    RemoveSlashesKeepsClean(z);
    assert RemoveSlashes("/") == [] && RemoveSlashes("\\") == [];
    assert RemoveSlashes(x + "/") == x;
    assert RemoveSlashes(x + "/" + y) == x + y;
    assert RemoveSlashes(x + "/" + y + "\\") == x + y;
    assert RemoveSlashes(s) == x + y + z;
  }
}
