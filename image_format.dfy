/**
 * Image-format decisions of nova_prompt_v12.py: sniffing a local file's
 * first bytes (`detect_image_format`), choosing an extension for a
 * downloaded image from its content type or URL, and mapping an extension
 * to the format name the Bedrock converse API expects (`format_mapping`).
 */
module ImageFormat {
  import opened Wrappers
  import opened PyStrings

  newtype byte = b: int | 0 <= b < 256

  /** The formats the converse API accepts for images. */
  datatype Format = Jpeg | Png | Gif | Webp

  /** What `detect_image_format` returns: `(format, needs_conversion)`. */
  datatype Detected = Detected(format: Format, needsConversion: bool)

  function FormatName(f: Format): (name: string)
    ensures |name| >= 3 && '.' !in name
  {
    match f
    case Jpeg => "jpeg"
    case Png => "png"
    case Gif => "gif"
    case Webp => "webp"
  }

  /** `f'.{actual_format}'`: the extension of a detected format. */
  function Extension(f: Format): (ext: string)
    ensures ext == "." + FormatName(f)
    ensures ext in {".jpeg", ".png", ".gif", ".webp"}
  {
    match f
    case Jpeg => ".jpeg"
    case Png => ".png"
    case Gif => ".gif"
    case Webp => ".webp"
  }

  // ---------------------------------------------------------------- magic bytes

  /** `b'<!DOCTYPE'` */
  const DoctypeTag: seq<byte> := [0x3C, 0x21, 0x44, 0x4F, 0x43, 0x54, 0x59, 0x50, 0x45]
  /** `b'<html'` */
  const HtmlTag: seq<byte> := [0x3C, 0x68, 0x74, 0x6D, 0x6C]
  /** The JPEG start-of-image marker followed by the first byte of the next marker. */
  const JpegMagic: seq<byte> := [0xFF, 0xD8, 0xFF]
  /** The eight-byte PNG signature (section 5.2 of the PNG specification). */
  const PngMagic: seq<byte> := [0x89, 0x50, 0x4E, 0x47, 0x0D, 0x0A, 0x1A, 0x0A]
  /** `b'GIF87a'` */
  const Gif87a: seq<byte> := [0x47, 0x49, 0x46, 0x38, 0x37, 0x61]
  /** `b'GIF89a'` */
  const Gif89a: seq<byte> := [0x47, 0x49, 0x46, 0x38, 0x39, 0x61]
  /** `b'RIFF'` */
  const RiffTag: seq<byte> := [0x52, 0x49, 0x46, 0x46]
  /** `b'WEBP'` */
  const WebpTag: seq<byte> := [0x57, 0x45, 0x42, 0x50]
  /** `b'ftypavif'`: an ISO base media file type box of brand `avif` (ISO/IEC 14496-12 section 4.3). */
  const FtypAvif: seq<byte> := [0x66, 0x74, 0x79, 0x70, 0x61, 0x76, 0x69, 0x66]

  /** `f.read(16)`: at most the first sixteen bytes of the file. */
  function Header(content: seq<byte>): (h: seq<byte>)
    ensures |h| <= 16 && StartsWith(content, h)
    ensures |content| >= 16 ==> |h| == 16
    ensures |content| < 16 ==> h == content
  {
    if |content| <= 16 then content else content[..16]
  }

  /** The first test: the header opens like an HTML document (case-sensitive). */
  predicate LooksLikeHtml(h: seq<byte>) {
    StartsWith(h, DoctypeTag) || StartsWith(h, HtmlTag)
  }

  /** The signature that, on its own, identifies format `f` without any conversion. */
  predicate Signature(h: seq<byte>, f: Format) {
    match f
    case Jpeg => StartsWith(h, JpegMagic)
    case Png => StartsWith(h, PngMagic)
    case Gif => StartsWith(h, Gif87a) || StartsWith(h, Gif89a)
    case Webp => StartsWith(h, RiffTag) && Slice(h, 8, 12) == WebpTag
  }

  /** `len(header) >= 12 and header[4:12] == b'ftypavif'`: an AVIF file. */
  predicate IsAvif(h: seq<byte>) {
    |h| >= 12 && h[4..12] == FtypAvif
  }

  predicate NoSignature(h: seq<byte>) {
    forall f: Format :: !Signature(h, f)
  }

  /** The message of the exception raised for an HTML header. */
  function HtmlMessage(path: string): (m: string)
    ensures Contains(m, "HTML")
  {
    var m := "File appears to be HTML, not an image: " + path;
    assert m[19..][..4] == "HTML";
    ContainsAt(m, "HTML", 19);
    m
  }

  /** The message of the exception raised when the image decoder refuses the file. */
  function UnsupportedMessage(path: string): (m: string)
    ensures StartsWith(m, "Unsupported or corrupted image file: ")
  {
    "Unsupported or corrupted image file: " + path
  }

  /** The HTML prefixes and the signatures all begin with different first bytes. */
  lemma HtmlExcludesSignatures(h: seq<byte>, f: Format)
    requires LooksLikeHtml(h)
    ensures !Signature(h, f) && !IsAvif(h)
  {
    assert h[0] == 0x3C;
    assert |h| >= 12 ==> h[4..12][0] == h[4];
    assert StartsWith(h, DoctypeTag) ==> h[4] == 0x43;
    assert StartsWith(h, HtmlTag) ==> h[4] == 0x6C;
  }

  /**
   * At most one format's signature matches a header, and only the JPEG
   * signature can coexist with the AVIF brand: the PNG, GIF and RIFF
   * signatures fix bytes 4..8 or 8..12 to something other than `ftypavif`.
   */
  lemma SignaturesExclusive(h: seq<byte>, f: Format, g: Format)
    requires Signature(h, f) && Signature(h, g)
    ensures f == g
  {
    assert Signature(h, Jpeg) ==> h[0] == 0xFF;
    assert Signature(h, Png) ==> h[0] == 0x89;
    assert Signature(h, Gif) ==> h[0] == 0x47;
    assert Signature(h, Webp) ==> h[0] == 0x52;
  }

  lemma SignatureUnique(h: seq<byte>)
    ensures forall f: Format, g: Format :: Signature(h, f) && Signature(h, g) ==> f == g
  {
    forall f: Format, g: Format | Signature(h, f) && Signature(h, g) ensures f == g {
      SignaturesExclusive(h, f, g);
    }
  }

  lemma AvifExcludesOtherSignatures(h: seq<byte>)
    requires IsAvif(h)
    ensures !Signature(h, Png) && !Signature(h, Gif) && !Signature(h, Webp)
  {
    assert h[4] == h[4..12][0] == 0x66;
    assert h[8] == h[4..12][4] == 0x61;
    assert h[..8][4] == h[4];
    assert h[..6][4] == h[4];
    assert Slice(h, 8, 12)[0] == h[8];
  }

  /**
   * `detect_image_format` on a file of bytes `content` at `path`. The image
   * decoder the script falls back on is the oracle `canDecode`.
   *
   * The contract characterises the result without relying on the order of
   * the tests: an HTML header is rejected; a header carrying a format's
   * signature is that format, unconverted; an AVIF header with no other
   * signature is converted to JPEG; anything else is converted to JPEG when
   * the decoder accepts the file and rejected otherwise.
   */
  function DetectImageFormat(path: string, content: seq<byte>, canDecode: seq<byte> -> bool): (r: Result<Detected, string>)
    ensures LooksLikeHtml(Header(content)) ==> r == Failure(HtmlMessage(path))
    ensures forall f: Format ::
      (!LooksLikeHtml(Header(content)) && Signature(Header(content), f) ==> r == Success(Detected(f, false)))
    ensures !LooksLikeHtml(Header(content)) && NoSignature(Header(content)) && IsAvif(Header(content))
      ==> r == Success(Detected(Jpeg, true))
    ensures !LooksLikeHtml(Header(content)) && NoSignature(Header(content)) && !IsAvif(Header(content))
      ==> r == if canDecode(content) then Success(Detected(Jpeg, true)) else Failure(UnsupportedMessage(path))
  {
    var header := Header(content);
    SignatureUnique(header);
    if StartsWith(header, DoctypeTag) || StartsWith(header, HtmlTag) then
      Failure(HtmlMessage(path))
    else if StartsWith(header, JpegMagic) then
      assert Signature(header, Jpeg);
      Success(Detected(Jpeg, false))
    else if StartsWith(header, PngMagic) then
      assert Signature(header, Png);
      Success(Detected(Png, false))
    else if StartsWith(header, Gif87a) || StartsWith(header, Gif89a) then
      assert Signature(header, Gif);
      Success(Detected(Gif, false))
    else if StartsWith(header, RiffTag) && Slice(header, 8, 12) == WebpTag then
      assert Signature(header, Webp);
      Success(Detected(Webp, false))
    else if |header| >= 12 && header[4..12] == FtypAvif then
      Success(Detected(Jpeg, true))
    else if canDecode(content) then
      // the text/HTML test that precedes the decoder raises inside its own
      // bare `except`, so it never decides anything
      Success(Detected(Jpeg, true))
    else
      Failure(UnsupportedMessage(path))
  }

  /** A detection succeeds only with a signature, the AVIF brand or the decoder's consent. */
  lemma DetectionJustified(path: string, content: seq<byte>, canDecode: seq<byte> -> bool)
    ensures var r := DetectImageFormat(path, content, canDecode);
      && (r.Success? && !r.value.needsConversion ==> Signature(Header(content), r.value.format))
      && (r.Success? && r.value.needsConversion ==>
            r.value.format == Jpeg && NoSignature(Header(content)) && (IsAvif(Header(content)) || canDecode(content)))
      && (r.Failure? ==> LooksLikeHtml(Header(content)) || (NoSignature(Header(content)) && !IsAvif(Header(content)) && !canDecode(content)))
  {
    var h := Header(content);
    if LooksLikeHtml(h) {
      forall f: Format ensures !Signature(h, f) {
        HtmlExcludesSignatures(h, f);
      }
    } else if !NoSignature(h) {
      var f: Format :| Signature(h, f);
    }
  }

  /**
   * The JPEG signature wins over the AVIF brand: a header that starts with
   * the JPEG marker and carries `ftypavif` at offset 4 is sent unconverted.
   */
  lemma JpegBeforeAvif(path: string, content: seq<byte>, canDecode: seq<byte> -> bool)
    requires StartsWith(Header(content), JpegMagic) && IsAvif(Header(content))
    ensures DetectImageFormat(path, content, canDecode) == Success(Detected(Jpeg, false))
  {
    assert Signature(Header(content), Jpeg);
    JpegMarkerNotHtml(Header(content));
  }

  /** A header starting with the JPEG marker does not look like HTML. */
  lemma JpegMarkerNotHtml(h: seq<byte>)
    requires StartsWith(h, JpegMagic)
    ensures !LooksLikeHtml(h)
  {
    assert h[0] == 0xFF;
  }

  /** `b'<head'` */
  const HeadTag: seq<byte> := [0x3C, 0x68, 0x65, 0x61, 0x64]

  /**
   * The second, case-insensitive HTML test never rejects anything: a file
   * that opens with `<head` passes the first test and is sent on, converted,
   * whenever the decoder accepts it, and otherwise fails as unsupported.
   */
  lemma TextHeaderDecidedByDecoder(path: string, content: seq<byte>, canDecode: seq<byte> -> bool)
    requires StartsWith(Header(content), HeadTag)
    ensures DetectImageFormat(path, content, canDecode)
      == if canDecode(content) then Success(Detected(Jpeg, true)) else Failure(UnsupportedMessage(path))
  {
    var h := Header(content);
    assert h[0] == 0x3C && h[1] == 0x68 && h[2] == 0x65;
    assert !StartsWith(h, DoctypeTag) && !StartsWith(h, HtmlTag);
    assert h[4] == h[..5][4] == 0x64;
    assert |h| >= 12 ==> h[4..12][0] == h[4];
  }

  // ---------------------------------------------------------------- extensions

  /**
   * The extension chosen for an image downloaded from `url`: PNG, then GIF,
   * then WEBP, each recognised by the lowered content type mentioning it or
   * the lowered URL ending in it; anything else is taken for JPEG.
   */
  function UrlExtension(url: string, contentType: string): (ext: string)
    ensures ext in {".png", ".gif", ".webp", ".jpeg"}
  {
    var ct := AsciiLower(contentType);
    var u := AsciiLower(url);
    if Contains(ct, "png") || EndsWith(u, ".png") then ".png"
    else if Contains(ct, "gif") || EndsWith(u, ".gif") then ".gif"
    else if Contains(ct, "webp") || EndsWith(u, ".webp") then ".webp"
    else ".jpeg"
  }

  /** `format_mapping`: the five known extensions and their Bedrock format names. */
  const FormatMapping: map<string, string> :=
    map[".jpg" := "jpeg", ".jpeg" := "jpeg", ".png" := "png", ".gif" := "gif", ".webp" := "webp"]

  /** `format_mapping.get(file_extension, 'jpeg')`. */
  function BedrockFormat(ext: string): (name: string)
    ensures name in {"jpeg", "png", "gif", "webp"}
    ensures name != "jpeg" ==> ext == "." + name
    ensures ext in {".jpg", ".jpeg"} ==> name == "jpeg"
    ensures ext in {".png", ".gif", ".webp"} ==> name == ext[1..]
    ensures ext !in FormatMapping ==> name == "jpeg"
  {
    if ext in FormatMapping then FormatMapping[ext] else "jpeg"
  }

  /** The extension built from a detected format maps back to that format's name. */
  lemma BedrockFormatOfDetected(f: Format)
    ensures BedrockFormat(Extension(f)) == FormatName(f)
  {
  }

  /**
   * A downloaded image is sent as PNG, GIF or WEBP exactly when the content
   * type or URL named that format and no earlier one; otherwise as JPEG.
   */
  lemma UrlFormatPriority(url: string, contentType: string)
    ensures var ct, u := AsciiLower(contentType), AsciiLower(url);
      var name := BedrockFormat(UrlExtension(url, contentType));
      && (name == "png" <==> Contains(ct, "png") || EndsWith(u, ".png"))
      && (name == "gif" <==> !(Contains(ct, "png") || EndsWith(u, ".png")) && (Contains(ct, "gif") || EndsWith(u, ".gif")))
      && (name == "webp" <==> !(Contains(ct, "png") || EndsWith(u, ".png")) && !(Contains(ct, "gif") || EndsWith(u, ".gif"))
                              && (Contains(ct, "webp") || EndsWith(u, ".webp")))
  {
  }

  /** An upper-case `.PNG` URL with an empty content type is still sent as PNG. */
  lemma UpperCaseUrlSuffix(stem: string)
    ensures BedrockFormat(UrlExtension(stem + ".PNG", "")) == "png"
  {
    var s := stem + ".PNG";
    var u := AsciiLower(s);
    assert s[|s| - 4..] == ".PNG";
    assert u[|u| - 4..] == ".png" by {
      forall i | 0 <= i < 4 ensures u[|u| - 4 + i] == ".png"[i] {
        assert u[|u| - 4 + i] == LowerChar(".PNG"[i]);
      }
    }
    assert AsciiLower("") == "";
  }
}
