/**
 * The upload validation layer of `lib/fileValidation.js`: the format matrix
 * (category to input and output extensions), the per-plan size limits,
 * extension parsing, secure file names, the conversion compatibility test,
 * the ordered checks of `validateFile` and the advisory signature scan.
 *
 * The content sniffer and MD5 are parameters (`sniff`, `md5`), as are the
 * clock reading (`now`) and the eight random bytes (`random`).
 */
module FileValidation {
  import opened Wrappers
  import opened JsText
  import opened Sequences

  // ---------------------------------------------------------------------------
  // Format matrix (SUPPORTED_FORMATS) and plan limits (SIZE_LIMITS)
  // ---------------------------------------------------------------------------

  datatype Category = Images | Documents | Audio | Video | Archives

  /** The keys of SUPPORTED_FORMATS in declaration order, the order `Object.entries` visits them. */
  const CategoryOrder: seq<Category> := [Images, Documents, Audio, Video, Archives]

  /** The key under which a category is stored and reported. */
  function CategoryName(c: Category): string
  {
    match c
    case Images => "images"
    case Documents => "documents"
    case Audio => "audio"
    case Video => "video"
    case Archives => "archives"
  }

  function InputExtensions(c: Category): seq<string>
  {
    match c
    case Images => ["jpg", "jpeg", "png", "gif", "bmp", "webp", "svg", "tiff"]
    case Documents => ["pdf", "docx", "doc", "txt", "rtf", "odt"]
    case Audio => ["mp3", "wav", "flac", "m4a", "aac", "ogg", "wma"]
    case Video => ["mp4", "avi", "mov", "mkv", "webm", "flv", "3gp"]
    case Archives => ["zip", "rar", "7z", "tar", "gz"]
  }

  function OutputExtensions(c: Category): seq<string>
  {
    match c
    case Images => ["jpg", "jpeg", "png", "webp", "gif", "bmp", "svg", "pdf"]
    case Documents => ["pdf", "docx", "txt", "jpg", "png"]
    case Audio => ["mp3", "wav", "flac", "m4a", "aac", "ogg"]
    case Video => ["mp4", "avi", "mov", "webm", "gif", "mp3"]
    case Archives => ["zip", "7z", "tar"]
  }

  const GiB: nat := 1024 * 1024 * 1024

  /** SIZE_LIMITS[plan].max in bytes: 2 GiB on the free plan, 100 GiB on the pro plan. */
  const MaxSizeByPlan: map<string, nat> := map["free" := 2 * GiB, "pro" := 100 * GiB]

  /**
   * The property names every object literal inherits from `Object.prototype`.
   * `SIZE_LIMITS[name]` is then a function or an object, whose `max` is `undefined`.
   */
  const InheritedPropertyNames: set<string> := {
    "constructor", "__proto__", "hasOwnProperty", "isPrototypeOf", "propertyIsEnumerable",
    "toLocaleString", "toString", "valueOf",
    "__defineGetter__", "__defineSetter__", "__lookupGetter__", "__lookupSetter__"
  }

  /**
   * `!(size > SIZE_LIMITS[plan].max)` for a plan whose lookup does not throw:
   * a real plan compares with its maximum, and an inherited name compares with
   * `undefined`, which is never exceeded.
   */
  predicate WithinPlan(plan: string, size: nat)
  {
    if plan in MaxSizeByPlan then size <= MaxSizeByPlan[plan] else plan in InheritedPropertyNames
  }

  /** No extension is an input of two categories. */
  lemma InputListsDisjoint(c1: Category, c2: Category, ext: string)
    requires ext in InputExtensions(c1) && ext in InputExtensions(c2)
    ensures c1 == c2
  {
    match c1
    case Images => OnlyInputOf(Images, ext);
    case Documents => OnlyInputOf(Documents, ext);
    case Audio => OnlyInputOf(Audio, ext);
    case Video => OnlyInputOf(Video, ext);
    case Archives => OnlyInputOf(Archives, ext);
  }

  /** An input extension of `c` is not an input of any other category. */
  lemma OnlyInputOf(c: Category, ext: string)
    requires ext in InputExtensions(c)
    ensures forall d :: d != c ==> ext !in InputExtensions(d)
  {
    forall d | d != c ensures ext !in InputExtensions(d) {
      NotInputOfBoth(c, d, ext);
    }
  }

  /** One lemma per category below keeps each comparison of literal lists small. */
  lemma NotInputOfBoth(c: Category, d: Category, ext: string)
    requires c != d && ext in InputExtensions(c)
    ensures ext !in InputExtensions(d)
  {
    match c
    case Images => NotImagesInput(d, ext);
    case Documents => NotDocumentsInput(d, ext);
    case Audio => NotAudioInput(d, ext);
    case Video => NotVideoInput(d, ext);
    case Archives => NotArchivesInput(d, ext);
  }

  lemma NotImagesInput(d: Category, ext: string)
    requires d != Images && ext in InputExtensions(Images)
    ensures ext !in InputExtensions(d)
  {
  }

  lemma NotDocumentsInput(d: Category, ext: string)
    requires d != Documents && ext in InputExtensions(Documents)
    ensures ext !in InputExtensions(d)
  {
  }

  lemma NotAudioInput(d: Category, ext: string)
    requires d != Audio && ext in InputExtensions(Audio)
    ensures ext !in InputExtensions(d)
  {
  }

  lemma NotVideoInput(d: Category, ext: string)
    requires d != Video && ext in InputExtensions(Video)
    ensures ext !in InputExtensions(d)
  {
  }

  lemma NotArchivesInput(d: Category, ext: string)
    requires d != Archives && ext in InputExtensions(Archives)
    ensures ext !in InputExtensions(d)
  {
  }

  /** Every input extension is lower-case letters and digits only. */
  lemma InputExtensionChars(c: Category, ext: string)
    requires ext in InputExtensions(c)
    ensures forall i :: 0 <= i < |ext| ==> IsAsciiAlnum(ext[i]) && !IsUpper(ext[i])
  {
  }

  // ---------------------------------------------------------------------------
  // getFileCategory
  // ---------------------------------------------------------------------------

  /** The first category of `cats` whose input list holds `ext`. */
  function FirstCategoryAccepting(cats: seq<Category>, ext: string): (r: Option<Category>)
    ensures r.Some? ==> r.value in cats && ext in InputExtensions(r.value)
    ensures r.None? ==> forall c :: c in cats ==> ext !in InputExtensions(c)
  {
    if cats == [] then None
    else if ext in InputExtensions(cats[0]) then Some(cats[0])
    else FirstCategoryAccepting(cats[1..], ext)
  }

  /** `getFileCategory(extension)`: the category whose input list holds the extension, or null. */
  function GetFileCategory(ext: string): (r: Option<Category>)
    ensures r.Some? ==> ext in InputExtensions(r.value)
    ensures r.None? <==> forall c: Category :: ext !in InputExtensions(c)
  {
    assert forall c: Category :: c in CategoryOrder by {
      forall c: Category ensures c in CategoryOrder {
        assert c == CategoryOrder[0] || c == CategoryOrder[1] || c == CategoryOrder[2]
            || c == CategoryOrder[3] || c == CategoryOrder[4];
      }
    }
    FirstCategoryAccepting(CategoryOrder, ext)
  }

  /** The category found is the only one accepting the extension. */
  lemma GetFileCategoryUnique(ext: string, c: Category)
    requires ext in InputExtensions(c)
    ensures GetFileCategory(ext) == Some(c)
  {
    var r := GetFileCategory(ext);
    InputListsDisjoint(r.value, c, ext);
  }

  // ---------------------------------------------------------------------------
  // getFileExtension
  // ---------------------------------------------------------------------------

  /**
   * `filename.split('.').pop() || ''`: the last piece of the split, which is the
   * text after the last dot, the whole name when there is no dot, and empty when
   * the name ends with a dot (the `|| ''` never changes the result).
   */
  function GetFileExtension(name: string): (ext: string)
    ensures |ext| <= |name| && name[|name| - |ext|..] == ext
    ensures '.' !in ext
    ensures |ext| < |name| ==> name[|name| - |ext| - 1] == '.'
  {
    var parts := Split(name, '.');
    SplitLast(name, '.');
    parts[|parts| - 1]
  }

  lemma ExtensionOfDotlessName(name: string)
    requires '.' !in name
    ensures GetFileExtension(name) == name
  {
  }

  lemma ExtensionOfTrailingDot(name: string)
    requires |name| > 0 && name[|name| - 1] == '.'
    ensures GetFileExtension(name) == ""
  {
  }

  // ---------------------------------------------------------------------------
  // generateSecureFileName
  // ---------------------------------------------------------------------------

  /**
   * A match of the pattern /\.[^/.]+$/ at position `p`: a dot followed by one or
   * more characters, none of them a dot or a slash, up to the end of the name.
   */
  ghost predicate ExtensionSuffixAt(name: string, p: int)
  {
    0 <= p && p + 1 < |name| && name[p] == '.'
    && forall i :: p < i < |name| ==> name[i] != '.' && name[i] != '/'
  }

  /** `originalName.replace(/\.[^/.]+$/, "")`: drops the final extension if the pattern matches. */
  function StripExtension(name: string): (base: string)
    ensures |base| <= |name| && base == name[..|base|]
    ensures |base| < |name| ==> ExtensionSuffixAt(name, |base|)
    ensures |base| == |name| ==> forall p :: !ExtensionSuffixAt(name, p)
  {
    var ext := GetFileExtension(name);
    var dot := |name| - |ext| - 1;
    if |ext| < |name| && ext != [] && '/' !in ext then
      assert forall i :: dot < i < |name| ==> name[i] == ext[i - dot - 1];
      name[..dot]
    else
      assert forall p :: !ExtensionSuffixAt(name, p);
      name
  }

  predicate IsSafeNameChar(c: char) { IsAsciiAlnum(c) || c == '_' }

  /** `.replace(/[^a-zA-Z0-9]/g, '_')`: every character outside the class becomes an underscore. */
  function SanitizeBaseName(s: string): (r: string)
    ensures |r| == |s|
    ensures forall i :: 0 <= i < |s| ==> IsSafeNameChar(r[i])
    ensures forall i :: 0 <= i < |s| && IsAsciiAlnum(s[i]) ==> r[i] == s[i]
    ensures forall i :: 0 <= i < |s| && !IsAsciiAlnum(s[i]) ==> r[i] == '_'
  {
    if s == [] then []
    else [if IsAsciiAlnum(s[0]) then s[0] else '_'] + SanitizeBaseName(s[1..])
  }

  /**
   * `${timestamp}_${randomString}_${baseName}.${extension}` with the clock reading
   * `now` and the eight random bytes `random` as inputs. The extension is copied
   * from the original name as it is; only the base name is sanitised.
   */
  function GenerateSecureFileName(originalName: string, now: nat, random: seq<byte>): string
  {
    Decimal(now) + "_" + HexEncode(random) + "_"
      + SanitizeBaseName(StripExtension(originalName)) + "." + GetFileExtension(originalName)
  }

  /** Where each of the five parts of `stamp_token_base.ext` sits. */
  lemma NameParts(stamp: string, token: string, base: string, ext: string)
    ensures var r := stamp + "_" + token + "_" + base + "." + ext;
      var k := |stamp| + 1;
      var at := k + |token| + 1;
      && |r| == at + |base| + 1 + |ext|
      && r[..|stamp|] == stamp && r[|stamp|] == '_'
      && r[k..k + |token|] == token && r[k + |token|] == '_'
      && r[at..at + |base|] == base && r[at + |base|] == '.'
      && r[at + |base| + 1..] == ext
  {
    var r := stamp + "_" + token + "_" + base + "." + ext;
    var k := |stamp| + 1;
    var at := k + |token| + 1;
    var a := stamp + "_" + token + "_";
    PeelFront(stamp + "_" + token + "_" + base + ".", ext);
    PeelFront(a + base, ".");
    PeelFront(a, base);
    PeelFront(stamp + "_" + token, "_");
    PeelFront(stamp + "_", token);
    PeelFront(stamp, "_");
    SliceOfPrefix(r, a + base + ".", |a|, at + |base|);
    SliceOfPrefix(r, a, k, k + |token|);
    SliceOfPrefix(r, a, 0, |stamp|);
  }

  /**
   * After the timestamp and token, the secure name holds the sanitised base name,
   * as long as the name without its final extension, then a dot and the
   * extension exactly as it was in the original name.
   */
  lemma SecureNameShape(originalName: string, now: nat, random: seq<byte>)
    ensures var r := GenerateSecureFileName(originalName, now, random);
      var at := |Decimal(now)| + 2 * |random| + 2;
      var base := StripExtension(originalName);
      var ext := GetFileExtension(originalName);
      && |r| == at + |base| + 1 + |ext|
      && (forall i :: at <= i < at + |base| ==> IsSafeNameChar(r[i]))
      && r[at + |base|] == '.'
      && r[at + |base| + 1..] == ext
  {
    var r := GenerateSecureFileName(originalName, now, random);
    var at := |Decimal(now)| + 2 * |random| + 2;
    var base := SanitizeBaseName(StripExtension(originalName));
    NameParts(Decimal(now), HexEncode(random), base, GetFileExtension(originalName));
    forall i | at <= i < at + |base| ensures IsSafeNameChar(r[i]) {
      assert r[i] == r[at..at + |base|][i - at];
    }
  }

  /** The secure name starts with the decimal timestamp, which reads back as `now`, then an underscore. */
  lemma SecureNameTimestamp(originalName: string, now: nat, random: seq<byte>)
    ensures var r := GenerateSecureFileName(originalName, now, random);
      var k := |Decimal(now)|;
      && k < |r| && r[k] == '_'
      && (forall i :: 0 <= i < k ==> IsDigit(r[i]))
      && DecimalValue(r[..k]) == now
  {
    var r := GenerateSecureFileName(originalName, now, random);
    var stamp := Decimal(now);
    NameParts(stamp, HexEncode(random), SanitizeBaseName(StripExtension(originalName)), GetFileExtension(originalName));
    assert forall i :: 0 <= i < |stamp| ==> r[i] == r[..|stamp|][i];
    DecimalRoundTrip(now);
  }

  /** After the timestamp come the random bytes in hexadecimal (which HexRoundTrip reads back), then an underscore. */
  lemma SecureNameToken(originalName: string, now: nat, random: seq<byte>)
    ensures var r := GenerateSecureFileName(originalName, now, random);
      var k := |Decimal(now)| + 1;
      var m := k + 2 * |random|;
      && m < |r| && r[m] == '_'
      && r[k..m] == HexEncode(random)
  {
    NameParts(Decimal(now), HexEncode(random), SanitizeBaseName(StripExtension(originalName)), GetFileExtension(originalName));
  }

  /** The extension is not sanitised: a slash after the last dot survives into the secure name. */
  lemma SecureNameKeepsSlashInExtension(now: nat, random: seq<byte>)
    ensures '/' in GenerateSecureFileName("a./b", now, random)
  {
    var name := "a./b";
    var ext := GetFileExtension(name);
    assert name[1] == '.';
    assert |ext| == 2;
    assert ext[0] == '/';
    var r := GenerateSecureFileName(name, now, random);
    assert r[|r| - 2] == '/';
  }

  // ---------------------------------------------------------------------------
  // validateFile
  // ---------------------------------------------------------------------------

  /** What the content sniffer reports: the detected extension and MIME type. */
  datatype SniffedType = SniffedType(ext: string, mime: string)

  /** The fields of a successful validation (`sizeFormatted` is not modelled). */
  datatype FileInfo = FileInfo(
    originalName: string,
    secureFileName: string,
    extension: string,
    category: Category,
    size: nat,
    mimeType: string,
    hash: string,
    supportedOutputs: seq<string>,
    extensionMismatch: bool)  // the condition under which the source logs a warning

  datatype ValidationError =
    | EmptyFile
    | UnknownPlan(plan: string)
    | SizeLimitExceeded(limit: nat)
    | UnsupportedFormat(extension: string)

  datatype Validation = Valid(info: FileInfo) | Invalid(error: ValidationError)

  /** The `error` string of an invalid result. */
  function ErrorMessage(e: ValidationError): string
  {
    match e
    case EmptyFile => "File is empty or corrupted"
    case UnknownPlan(_) => "Cannot read properties of undefined (reading 'max')"
    case SizeLimitExceeded(limit) => "File size exceeds limit. Max allowed: " + Decimal(limit / GiB) + " GB"
    case UnsupportedFormat(ext) => "Unsupported file format: " + ext
  }

  lemma FreePlanLimitMessage()
    ensures ErrorMessage(SizeLimitExceeded(MaxSizeByPlan["free"])) == "File size exceeds limit. Max allowed: 2 GB"
  {
    assert Decimal(2) == "2";
  }

  /**
   * `validateFile(buffer, originalName, userPlan)`: empty input, then the plan's
   * size limit, then the extension's category; a sniffed type that disagrees with
   * the extension is only flagged. A plan name that is neither a plan nor an
   * inherited property makes `SIZE_LIMITS[userPlan].max` throw, and the `catch`
   * reports the engine's message.
   */
  function ValidateFile(buffer: seq<byte>, originalName: string, userPlan: string,
                        sniff: seq<byte> -> Option<SniffedType>, md5: seq<byte> -> string,
                        now: nat, random: seq<byte>): (r: Validation)
    ensures |buffer| == 0 ==> r == Invalid(EmptyFile)
    ensures |buffer| > 0 && userPlan !in MaxSizeByPlan && userPlan !in InheritedPropertyNames
      ==> r == Invalid(UnknownPlan(userPlan))
    ensures |buffer| > 0 && userPlan in MaxSizeByPlan && |buffer| > MaxSizeByPlan[userPlan]
      ==> r == Invalid(SizeLimitExceeded(MaxSizeByPlan[userPlan]))
    ensures |buffer| > 0 && WithinPlan(userPlan, |buffer|)
      && (forall c :: ToLower(GetFileExtension(originalName)) !in InputExtensions(c))
      ==> r == Invalid(UnsupportedFormat(ToLower(GetFileExtension(originalName))))
    ensures r.Valid? <==>
      && |buffer| > 0
      && WithinPlan(userPlan, |buffer|)
      && exists c :: ToLower(GetFileExtension(originalName)) in InputExtensions(c)
    ensures r.Invalid? && r.error.UnsupportedFormat? ==>
      r.error.extension == ToLower(GetFileExtension(originalName))
    ensures r.Valid? ==>
      var info := r.info;
      var detected := sniff(buffer);
      && info.originalName == originalName
      && info.size == |buffer|
      && info.extension == ToLower(GetFileExtension(originalName))
      && info.extension in InputExtensions(info.category)
      && info.supportedOutputs == OutputExtensions(info.category)
      && info.hash == md5(buffer)
      && info.secureFileName == GenerateSecureFileName(originalName, now, random)
      && info.mimeType == (if detected.Some? && detected.value.mime != "" then detected.value.mime
                           else "application/" + info.extension)
      && info.extensionMismatch == (detected.Some? && detected.value.ext != info.extension)
  {
    if |buffer| == 0 then Invalid(EmptyFile)
    else if userPlan !in MaxSizeByPlan && userPlan !in InheritedPropertyNames then Invalid(UnknownPlan(userPlan))
    else if userPlan in MaxSizeByPlan && |buffer| > MaxSizeByPlan[userPlan] then Invalid(SizeLimitExceeded(MaxSizeByPlan[userPlan]))
    else
      var fileType := sniff(buffer);
      var extension := ToLower(GetFileExtension(originalName));
      var mismatch := fileType.Some? && fileType.value.ext != extension;
      match GetFileCategory(extension)
      case None => Invalid(UnsupportedFormat(extension))
      case Some(category) =>
        Valid(FileInfo(
          originalName,
          GenerateSecureFileName(originalName, now, random),
          extension,
          category,
          |buffer|,
          if fileType.Some? && fileType.value.mime != "" then fileType.value.mime else "application/" + extension,
          md5(buffer),
          OutputExtensions(category),
          mismatch))
  }

  /** The sniffed type never decides acceptance: two sniffers give the same verdict and the same error. */
  lemma SniffedTypeOnlyWarns(buffer: seq<byte>, originalName: string, userPlan: string,
                             sniff1: seq<byte> -> Option<SniffedType>, sniff2: seq<byte> -> Option<SniffedType>,
                             md5: seq<byte> -> string, now: nat, random: seq<byte>)
    ensures var r1 := ValidateFile(buffer, originalName, userPlan, sniff1, md5, now, random);
      var r2 := ValidateFile(buffer, originalName, userPlan, sniff2, md5, now, random);
      && r1.Valid? == r2.Valid?
      && (r1.Invalid? ==> r1.error == r2.error)
      && (r1.Valid? ==> r1.info.category == r2.info.category && r1.info.hash == r2.info.hash)
  {
  }

  /** The hash is a function of the bytes alone: equal buffers get equal hashes whatever their names. */
  lemma HashIgnoresName(buffer: seq<byte>, name1: string, name2: string, userPlan: string,
                        sniff: seq<byte> -> Option<SniffedType>, md5: seq<byte> -> string,
                        now1: nat, now2: nat, random1: seq<byte>, random2: seq<byte>)
    requires ValidateFile(buffer, name1, userPlan, sniff, md5, now1, random1).Valid?
    requires ValidateFile(buffer, name2, userPlan, sniff, md5, now2, random2).Valid?
    ensures ValidateFile(buffer, name1, userPlan, sniff, md5, now1, random1).info.hash
         == ValidateFile(buffer, name2, userPlan, sniff, md5, now2, random2).info.hash
  {
  }

  /**
   * A non-empty buffer that the plan admits (up to and including a real plan's
   * maximum) with a known extension is accepted, in the one category that lists
   * the extension.
   */
  lemma AcceptedWithinLimit(buffer: seq<byte>, originalName: string, userPlan: string,
                           sniff: seq<byte> -> Option<SniffedType>, md5: seq<byte> -> string,
                           now: nat, random: seq<byte>, c: Category)
    requires 0 < |buffer| && WithinPlan(userPlan, |buffer|)
    requires ToLower(GetFileExtension(originalName)) in InputExtensions(c)
    ensures var r := ValidateFile(buffer, originalName, userPlan, sniff, md5, now, random);
      r.Valid? && r.info.category == c
  {
    GetFileCategoryUnique(ToLower(GetFileExtension(originalName)), c);
  }

  /**
   * An inherited property name as the plan skips the size check: any non-empty
   * buffer with a listed extension is accepted, however large.
   */
  lemma InheritedPlanSkipsSizeCheck(buffer: seq<byte>, originalName: string, plan: string,
                                    sniff: seq<byte> -> Option<SniffedType>, md5: seq<byte> -> string,
                                    now: nat, random: seq<byte>, c: Category)
    requires plan in InheritedPropertyNames && |buffer| > 0
    requires ToLower(GetFileExtension(originalName)) in InputExtensions(c)
    ensures var r := ValidateFile(buffer, originalName, plan, sniff, md5, now, random);
      r.Valid? && r.info.category == c
  {
    InheritedNameIsNoPlan(plan);
    AcceptedWithinLimit(buffer, originalName, plan, sniff, md5, now, random, c);
  }

  lemma InheritedNameIsNoPlan(plan: string)
    requires plan in InheritedPropertyNames
    ensures plan !in MaxSizeByPlan
  {
  }

  /**
   * As written, the secure name copies the raw extension. The Kelvin sign
   * lower-cases to `k`, so `x.m\u212Av` passes as an `mkv` video, and its secure
   * name carries the Kelvin sign, which is outside `[a-zA-Z0-9_.]`.
   */
  lemma KelvinExtensionReachesSecureName(buffer: seq<byte>, sniff: seq<byte> -> Option<SniffedType>,
                                         md5: seq<byte> -> string, now: nat, random: seq<byte>)
    requires 0 < |buffer| <= 2 * GiB
    ensures var r := ValidateFile(buffer, "x.m\U{212A}v", "free", sniff, md5, now, random);
      && r.Valid? && r.info.category == Video && r.info.extension == "mkv"
      && KelvinSign in r.info.secureFileName
      && !NameChars(r.info.secureFileName)
  {
    var name := "x.m\U{212A}v";
    var ext := GetFileExtension(name);
    assert name[1] == '.';
    assert |ext| == 3;
    assert ext == "m\U{212A}v";
    assert ToLower(ext) == "mkv";
    AcceptedWithinLimit(buffer, name, "free", sniff, md5, now, random, Video);
    var r := GenerateSecureFileName(name, now, random);
    SecureNameShape(name, now, random);
    assert r[|r| - 2] == KelvinSign;
    LowerCharIntoAlnum(KelvinSign);
  }

  /** Corrected: the secure name ends with the validated, lower-cased extension instead of the raw one. */
  function SecureFileNameWithExtension(originalName: string, extension: string, now: nat, random: seq<byte>): string
  {
    Decimal(now) + "_" + HexEncode(random) + "_" + SanitizeBaseName(StripExtension(originalName)) + "." + extension
  }

  /** An extension that lower-casing leaves alone gives the same name either way. */
  lemma CorrectedNameAgreesOnLowerCase(originalName: string, now: nat, random: seq<byte>)
    requires forall i :: 0 <= i < |GetFileExtension(originalName)| ==> IsLowerFixed(GetFileExtension(originalName)[i])
    ensures SecureFileNameWithExtension(originalName, ToLower(GetFileExtension(originalName)), now, random)
         == GenerateSecureFileName(originalName, now, random)
  {
    ToLowerOfLower(GetFileExtension(originalName));
  }

  /**
   * On the validation path the corrected secure name holds only letters, digits,
   * underscores and dots: the extension is a listed one, so nothing unsanitised survives.
   */
  lemma CorrectedSecureNameIsSafe(buffer: seq<byte>, originalName: string, userPlan: string,
                                  sniff: seq<byte> -> Option<SniffedType>, md5: seq<byte> -> string,
                                  now: nat, random: seq<byte>)
    requires ValidateFile(buffer, originalName, userPlan, sniff, md5, now, random).Valid?
    ensures var info := ValidateFile(buffer, originalName, userPlan, sniff, md5, now, random).info;
      NameChars(SecureFileNameWithExtension(originalName, info.extension, now, random))
  {
    var info := ValidateFile(buffer, originalName, userPlan, sniff, md5, now, random).info;
    ListedExtensionGivesSafeName(originalName, info.category, info.extension, now, random);
  }

  lemma ListedExtensionGivesSafeName(originalName: string, c: Category, ext: string, now: nat, random: seq<byte>)
    requires ext in InputExtensions(c)
    ensures NameChars(SecureFileNameWithExtension(originalName, ext, now, random))
  {
    InputExtensionChars(c, ext);
    var stamp, token := Decimal(now), HexEncode(random);
    HexEncodeChars(random);
    var base := SanitizeBaseName(StripExtension(originalName));
    NameCharsConcat(stamp, "_");
    NameCharsConcat(stamp + "_", token);
    NameCharsConcat(stamp + "_" + token, "_");
    NameCharsConcat(stamp + "_" + token + "_", base);
    NameCharsConcat(stamp + "_" + token + "_" + base, ".");
    NameCharsConcat(stamp + "_" + token + "_" + base + ".", ext);
  }

  /** Every character is a letter, a digit, an underscore or a dot. */
  ghost predicate NameChars(s: string)
  {
    forall i :: 0 <= i < |s| ==> IsSafeNameChar(s[i]) || s[i] == '.'
  }

  lemma NameCharsConcat(a: string, b: string)
    requires NameChars(a) && NameChars(b)
    ensures NameChars(a + b)
  {
    forall i | 0 <= i < |a + b| ensures IsSafeNameChar((a + b)[i]) || (a + b)[i] == '.' {
      if i >= |a| { assert (a + b)[i] == b[i - |a|]; }
    }
  }

  /** A 5 MiB `clip.mp4` on the free plan is a video with the video outputs. */
  lemma ClipMp4OnFreePlan(buffer: seq<byte>, sniff: seq<byte> -> Option<SniffedType>,
                          md5: seq<byte> -> string, now: nat, random: seq<byte>)
    requires |buffer| == 5 * 1024 * 1024
    ensures var r := ValidateFile(buffer, "clip.mp4", "free", sniff, md5, now, random);
      && r.Valid? && r.info.category == Video && CategoryName(r.info.category) == "video"
      && r.info.extension == "mp4"
      && r.info.supportedOutputs == ["mp4", "avi", "mov", "webm", "gif", "mp3"]
  {
    var name := "clip.mp4";
    var ext := GetFileExtension(name);
    assert name[4] == '.';
    assert |ext| == 3;
    assert ext == "mp4";
    ToLowerOfLower(ext);
    AcceptedWithinLimit(buffer, name, "free", sniff, md5, now, random, Video);
  }

  /** A 3 GiB file on the free plan is refused with the 2 GiB limit. */
  lemma ThreeGiBOnFreePlan(buffer: seq<byte>, originalName: string, sniff: seq<byte> -> Option<SniffedType>,
                           md5: seq<byte> -> string, now: nat, random: seq<byte>)
    requires |buffer| == 3 * GiB
    ensures ValidateFile(buffer, originalName, "free", sniff, md5, now, random) == Invalid(SizeLimitExceeded(2 * GiB))
  {
  }

  // ---------------------------------------------------------------------------
  // isConversionSupported
  // ---------------------------------------------------------------------------

  /** `isConversionSupported(fromFormat, toFormat)`, both compared in lower case. */
  function IsConversionSupported(fromFormat: string, toFormat: string): (b: bool)
    ensures b <==> exists c :: ToLower(fromFormat) in InputExtensions(c) && ToLower(toFormat) in OutputExtensions(c)
  {
    var from := ToLower(fromFormat);
    match GetFileCategory(from)
    case None => false
    case Some(c) =>
      assert forall c' :: from in InputExtensions(c') ==> c' == c by {
        forall c' | from in InputExtensions(c') ensures c' == c {
          InputListsDisjoint(c, c', from);
        }
      }
      ToLower(toFormat) in OutputExtensions(c)
  }

  /** Video may target mp3 (audio extraction), whatever the case of the source extension. */
  lemma VideoToMp3Supported()
    ensures IsConversionSupported("MP4", "mp3")
  {
    assert ToLower("MP4") == "mp4";
    ToLowerOfLower("mp3");
    assert "mp4" in InputExtensions(Video) && "mp3" in OutputExtensions(Video);
  }

  /** An image may not target mp3. */
  lemma ImageToMp3Unsupported()
    ensures !IsConversionSupported("jpg", "mp3")
  {
    ToLowerOfLower("mp3");
    ToLowerOfLower("jpg");
    OnlyInputOf(Images, "jpg");
    assert "mp3" !in OutputExtensions(Images);
  }

  // ---------------------------------------------------------------------------
  // basicVirusScan
  // ---------------------------------------------------------------------------

  /** The hexadecimal signatures searched for, as written in the scan. */
  const MalwareSignatures: seq<string> := ["4d5a90", "504b03", "255044462d"]

  /** Only the first 100 bytes are rendered. */
  const ScanWindow: nat := 100

  /** `buffer.toString('hex', 0, 100).toLowerCase()`. */
  function ScannedHex(buffer: seq<byte>): (hex: string)
    ensures |hex| == 2 * Min(|buffer|, ScanWindow)
    ensures hex == HexEncode(buffer[..Min(|buffer|, ScanWindow)])
  {
    HexIsLower(buffer[..Min(|buffer|, ScanWindow)]);
    ToLower(HexEncode(buffer[..Min(|buffer|, ScanWindow)]))
  }

  /** The scan's verdict and the signatures it logged a warning for. */
  datatype ScanReport = ScanReport(safe: bool, warnings: seq<string>)

  /** The signatures, in order, that occur in `hex`. */
  function SignaturesFound(signatures: seq<string>, hex: string): (found: seq<string>)
    ensures forall s :: s in found <==> s in signatures && Includes(hex, s)
    ensures IsSubsequence(found, signatures)
    ensures |found| <= |signatures|
  {
    if signatures == [] then []
    else
      var rest := SignaturesFound(signatures[1..], hex);
      if Includes(hex, signatures[0]) then [signatures[0]] + rest
      else
        SubsequenceOfTail(rest, signatures);
        rest
  }

  /** `basicVirusScan(buffer)`: always reports safe; a signature found only produces a warning. */
  function BasicVirusScan(buffer: seq<byte>): (r: ScanReport)
    ensures r.safe
    ensures forall s :: s in r.warnings <==> s in MalwareSignatures && Includes(ScannedHex(buffer), s)
  {
    ScanReport(true, SignaturesFound(MalwareSignatures, ScannedHex(buffer)))
  }

  /** Bytes beyond the first 100 are never looked at. */
  lemma ScanIgnoresBytesPastWindow(buffer: seq<byte>, rest: seq<byte>)
    requires |buffer| >= ScanWindow
    ensures BasicVirusScan(buffer + rest) == BasicVirusScan(buffer)
  {
    assert (buffer + rest)[..ScanWindow] == buffer[..ScanWindow];
  }

  /** The byte sequences the hexadecimal signatures denote. */
  const MalwareSignatureBytes: seq<seq<byte>> := [[0x4d, 0x5a, 0x90], [0x50, 0x4b, 0x03], [0x25, 0x50, 0x44, 0x46, 0x2d]]

  lemma SignatureBytesMatchText()
    ensures |MalwareSignatureBytes| == |MalwareSignatures|
    ensures forall k :: 0 <= k < |MalwareSignatures| ==> HexEncode(MalwareSignatureBytes[k]) == MalwareSignatures[k]
  {
    PeHeaderHex();
    ZipHeaderHex();
    PdfHeaderHex();
  }

  lemma PeHeaderHex()
    ensures HexEncode([0x4d, 0x5a, 0x90]) == "4d5a90"
  {
  }

  lemma ZipHeaderHex()
    ensures HexEncode([0x50, 0x4b, 0x03]) == "504b03"
  {
  }

  lemma PdfHeaderHex()
    ensures HexEncode([0x25, 0x50, 0x44, 0x46, 0x2d]) == "255044462d"
  {
  }

  /**
   * The search runs over hexadecimal text, so it also matches at odd digit
   * positions, across byte boundaries: these four bytes do not contain the bytes
   * 4d 5a 90, yet the PE-header warning is raised.
   */
  lemma ScanFlagsSignatureAcrossByteBoundary()
    ensures var buffer: seq<byte> := [0x04, 0xd5, 0xa9, 0x00];
      && "4d5a90" in BasicVirusScan(buffer).warnings
      && !Includes(buffer, MalwareSignatureBytes[0])
  {
    var buffer: seq<byte> := [0x04, 0xd5, 0xa9, 0x00];
    BoundaryBufferHex();
    assert OccursAt(ScannedHex(buffer), "4d5a90", 1);
    BoundaryBufferLacksPeHeader();
  }

  lemma BoundaryBufferHex()
    ensures ScannedHex([0x04, 0xd5, 0xa9, 0x00]) == "04d5a900"
  {
    var buffer: seq<byte> := [0x04, 0xd5, 0xa9, 0x00];
    assert buffer[..Min(|buffer|, ScanWindow)] == buffer;
  }

  lemma BoundaryBufferLacksPeHeader()
    ensures !Includes([0x04, 0xd5, 0xa9, 0x00], MalwareSignatureBytes[0])
  {
    var buffer: seq<byte> := [0x04, 0xd5, 0xa9, 0x00];
    assert buffer[0..3][0] != MalwareSignatureBytes[0][0];
    assert buffer[1..4][0] != MalwareSignatureBytes[0][0];
  }

  /** The signatures, in order, whose bytes occur in `window` at a byte position. */
  function ByteSignaturesFound(k: nat, window: seq<byte>): (found: seq<string>)
    requires k <= |MalwareSignatures|
    ensures forall s :: s in found ==> s in MalwareSignatures[k..]
    ensures forall j :: k <= j < |MalwareSignatures| ==>
      (MalwareSignatures[j] in found <==> Includes(window, MalwareSignatureBytes[j]))
    decreases |MalwareSignatures| - k
  {
    if k == |MalwareSignatures| then []
    else
      var rest := ByteSignaturesFound(k + 1, window);
      assert MalwareSignatures[k] !in MalwareSignatures[k + 1..];
      (if Includes(window, MalwareSignatureBytes[k]) then [MalwareSignatures[k]] else []) + rest
  }

  /** The scan with byte-aligned matching: a warning exactly when the signature's bytes occur in the first 100 bytes. */
  function AlignedVirusScan(buffer: seq<byte>): (r: ScanReport)
    ensures r.safe
    ensures forall s :: s in r.warnings ==> s in MalwareSignatures
    ensures forall k :: 0 <= k < |MalwareSignatures| ==>
      (MalwareSignatures[k] in r.warnings <==> Includes(buffer[..Min(|buffer|, ScanWindow)], MalwareSignatureBytes[k]))
  {
    ScanReport(true, ByteSignaturesFound(0, buffer[..Min(|buffer|, ScanWindow)]))
  }

  /** Every byte-aligned warning is also raised by the scan as written; the converse fails (see above). */
  lemma AlignedScanWarningsAreHexWarnings(buffer: seq<byte>)
    ensures forall s :: s in AlignedVirusScan(buffer).warnings ==> s in BasicVirusScan(buffer).warnings
  {
    var window := buffer[..Min(|buffer|, ScanWindow)];
    SignatureBytesMatchText();
    var aligned := AlignedVirusScan(buffer).warnings;
    forall k | 0 <= k < |MalwareSignatures| && MalwareSignatures[k] in aligned
      ensures Includes(ScannedHex(buffer), MalwareSignatures[k])
    {
      var sig := MalwareSignatureBytes[k];
      var i :| OccursAt(window, sig, i);
      OccurrenceInHex(window, sig, i);
    }
  }

  /** A byte occurrence at position i shows up in the hexadecimal text at digit position 2i. */
  lemma OccurrenceInHex(bytes: seq<byte>, sig: seq<byte>, i: int)
    requires OccursAt(bytes, sig, i)
    ensures OccursAt(HexEncode(bytes), HexEncode(sig), 2 * i)
  {
    var pre, post := bytes[..i], bytes[i + |sig|..];
    assert bytes == pre + sig + post;
    HexEncodeAppend(pre + sig, post);
    HexEncodeAppend(pre, sig);
    OccursInMiddle(HexEncode(pre), HexEncode(sig), HexEncode(post));
  }
}
