/**
 * The image handling of the Product model: the `image` mutator, which
 * either clears the three image columns or fills them from a JPEG
 * re-encoding of the upload shrunk to at most 800 pixels wide, and the
 * `image` accessor, which turns the stored bytes into a `data:` URI
 * (section 3 of RFC 2397) with a base64 payload.
 *
 * The image library is not modelled: decoding an upload is the parameter
 * `read` (None when the bytes are not an image it can decode) and JPEG
 * encoding at quality 75 is the parameter `toJpeg` (None when encoding
 * fails). Only the library's width/height arithmetic is modelled.
 */
module ProductImage {
  import opened Wrappers
  import opened Base64

  /** The width bound passed to resize(800, null). */
  const MaxWidth: int := 800

  const JpegMime: string := "image/jpeg"

  /** A decoded image's side length in pixels. */
  type Pixels = n: int | n >= 1 witness 1

  datatype Dims = Dims(width: Pixels, height: Pixels)

  /** Encoder output: a JPEG stream always starts with the SOI marker FF D8. */
  type Jpeg = s: seq<Byte> | |s| >= 2 && s[0] == 0xFF && s[1] == 0xD8 witness [0xFF, 0xD8]

  function Min(a: int, b: int): int { if a <= b then a else b }

  function Max(a: int, b: int): int { if a >= b then a else b }

  /** PHP `round(a / b)` for a >= 0 and b > 0: the nearest integer, halves rounded up. */
  function RoundDiv(a: nat, b: Pixels): (q: nat)
    ensures b * (2 * q - 1) <= 2 * a < b * (2 * q + 1)
  {
    var q := (2 * a + b) / (2 * b);
    assert (2 * a + b) == q * (2 * b) + (2 * a + b) % (2 * b);
    assert b * (2 * q - 1) == q * (2 * b) - b;
    assert b * (2 * q + 1) == q * (2 * b) + b;
    q
  }

  /**
   * The dimensions Intervention Image's resize(800, null) produces under
   * the aspectRatio() and upsize() constraints: the width is 800, but never
   * more than the original width; the height is the new width divided by
   * the original ratio width / height, rounded, at least 1, and never more
   * than the original height.
   */
  function Resized(d: Dims): (r: Dims)
    ensures r.width <= MaxWidth && r.width <= d.width && r.height <= d.height
  {
    var w := Min(d.width, MaxWidth);
    var h := Min(d.height, Max(1, RoundDiv(w * d.height, d.width)));
    Dims(w, h)
  }

  /** Cancelling a positive factor from both sides of an inequality. */
  lemma CancelFactor(k: int, x: int, y: int)
    requires k > 0 && k * x < k * y
    ensures x < y
  {
  }

  /** No upscaling: an image at most 800 pixels wide keeps its dimensions. */
  lemma ResizedKeepsNarrowImage(d: Dims)
    requires d.width <= MaxWidth
    ensures Resized(d) == d
  {
    var w, h := d.width, d.height;
    var q: int := RoundDiv(w * h, w);
    assert w * (2 * h + 1) == 2 * (w * h) + w;
    RoundDivAtMost(w * h, w, h);
    assert 2 * (w * h) == w * (2 * h);
    CancelFactor(w, 2 * h, 2 * q + 1);
  }

  /** A rounded quotient below c + 1/2 is at most c. */
  lemma RoundDivAtMost(a: nat, b: Pixels, c: nat)
    requires 2 * a < b * (2 * c + 1)
    ensures RoundDiv(a, b) <= c
  {
    var q: int := RoundDiv(a, b);
    CancelFactor(b, 2 * q - 1, 2 * c + 1);
  }

  /** A quotient of at least one half rounds to at least 1. */
  lemma RoundDivPositive(a: nat, b: Pixels)
    requires b <= 2 * a
    ensures RoundDiv(a, b) >= 1
  {
    var q: int := RoundDiv(a, b);
    assert b * 1 < b * (2 * q + 1);
    CancelFactor(b, 1, 2 * q + 1);
  }

  /** A quotient below one half rounds to 0. */
  lemma RoundDivZero(a: nat, b: Pixels)
    requires 2 * a < b
    ensures RoundDiv(a, b) == 0
  {
    var q: int := RoundDiv(a, b);
    assert b * (2 * q - 1) < b * 1;
    CancelFactor(b, 2 * q - 1, 1);
  }

  /** For a width above 800, 800 * h / w stays below h + 1/2. */
  lemma WideRatioBelowHeight(w: Pixels, h: Pixels)
    requires w > MaxWidth
    ensures 2 * (MaxWidth * h) < w * (2 * h + 1)
  {
    assert (w - MaxWidth) * (2 * h) >= 0;
    assert w * (2 * h + 1) == (w - MaxWidth) * (2 * h) + MaxWidth * (2 * h) + w;
  }

  /**
   * An image wider than 800 pixels comes out exactly 800 wide; its height
   * is 800 * h / w rounded to the nearest pixel, or 1 where that rounds
   * to 0, so the aspect ratio is kept to within half a pixel.
   */
  lemma ResizedShrinksWideImage(d: Dims)
    requires d.width > MaxWidth
    ensures Resized(d).width == MaxWidth
    ensures var h' := Resized(d).height;
      if 2 * MaxWidth * d.height >= d.width
      then d.width * (2 * h' - 1) <= 2 * MaxWidth * d.height < d.width * (2 * h' + 1)
      else h' == 1
  {
    var w, h := d.width, d.height;
    var q := RoundDiv(MaxWidth * h, w);
    WideRatioBelowHeight(w, h);
    RoundDivAtMost(MaxWidth * h, w, h);
    if 2 * MaxWidth * h >= w {
      RoundDivPositive(MaxWidth * h, w);
      assert Resized(d).height == q;
    } else {
      RoundDivZero(MaxWidth * h, w);
    }
  }

  /** Resizing an already resized image changes nothing. */
  lemma ResizedIdempotent(d: Dims)
    ensures Resized(Resized(d)) == Resized(d)
  {
    ResizedKeepsNarrowImage(Resized(d));
  }

  /** Worked cases: 2000x1000 becomes 800x400; 400x300 and the tall 500x3000 are kept. */
  lemma ResizedExamples()
    ensures Resized(Dims(2000, 1000)) == Dims(800, 400)
    ensures Resized(Dims(400, 300)) == Dims(400, 300)
    ensures Resized(Dims(500, 3000)) == Dims(500, 3000)
  {
    ResizedKeepsNarrowImage(Dims(400, 300));
    ResizedKeepsNarrowImage(Dims(500, 3000));
  }

  /** The value assigned to the `image` attribute. */
  datatype ImageInput =
    | Null
    | Text(bytes: seq<Byte>)           // a plain (binary) string
    | UploadedFile(contents: seq<Byte>) // an upload object, whose contents the library reads

  /** PHP truthiness of a binary string: "" and "0" are falsy. */
  function FalsyString(s: seq<Byte>): (b: bool)
    ensures b ==> |s| <= 1
    ensures |s| == 1 ==> (b <==> s[0] == '0' as int)
  {
    s == [] || s == ['0' as int]
  }

  /** Only "" and "0" are falsy: "00", "0.0", " " and "false" are truthy strings. */
  lemma TruthyLookalikes()
    ensures FalsyString([]) && FalsyString(['0' as int])
    ensures !FalsyString(['0' as int, '0' as int]) && !FalsyString(['0' as int, '.' as int, '0' as int])
    ensures !FalsyString([' ' as int]) && !FalsyString(['f' as int, 'a' as int, 'l' as int, 's' as int, 'e' as int])
  {
  }

  /** PHP `!$file`: null and the falsy strings; an object is always truthy. */
  function Falsy(file: ImageInput): (b: bool)
    ensures file.UploadedFile? ==> !b
    ensures b ==> file.Null? || |file.bytes| <= 1
  {
    file.Null? || (file.Text? && FalsyString(file.bytes))
  }

  /** The bytes the library reads from a truthy input. */
  function Payload(file: ImageInput): seq<Byte>
    requires !file.Null?
  {
    if file.Text? then file.bytes else file.contents
  }

  /** The three image columns of a product row: bytes, MIME type and size. */
  datatype ImageColumns = ImageColumns(image: Option<seq<Byte>>, mimeType: Option<string>, size: Option<int>)

  const NoImage: ImageColumns := ImageColumns(None, None, None)

  /** The all-or-nothing invariant: all three null, or all three set with the size the byte count. */
  predicate AllOrNothing(c: ImageColumns)
  {
    c == NoImage || (c.image.Some? && c.mimeType.Some? && c.size == Some(|c.image.value|))
  }

  datatype ImageError = UnsupportedImageFormat | EncodingFailed

  /**
   * What the mutator stores for an input, or the error it raises. A falsy
   * input clears the columns; otherwise the upload is decoded, resized and
   * re-encoded, and the columns hold the JPEG, "image/jpeg" and its length.
   */
  function EncodeImage(file: ImageInput, read: seq<Byte> -> Option<Dims>, toJpeg: (seq<Byte>, Dims) -> Option<Jpeg>)
    : (r: Result<ImageColumns, ImageError>)
    ensures Falsy(file) ==> r == Success(NoImage)
    ensures r.Success? ==> AllOrNothing(r.value)
    ensures r.Success? && !Falsy(file) ==>
      r.value.mimeType == Some(JpegMime) && r.value.image.Some? && |r.value.image.value| > 0
      && read(Payload(file)).Some?
      && Some(r.value.image.value) == toJpeg(Payload(file), Resized(read(Payload(file)).value))
    ensures r == Failure(UnsupportedImageFormat) <==> !Falsy(file) && read(Payload(file)).None?
    ensures r == Failure(EncodingFailed) <==>
      !Falsy(file) && read(Payload(file)).Some? && toJpeg(Payload(file), Resized(read(Payload(file)).value)).None?
  {
    if Falsy(file) then Success(NoImage)
    else match read(Payload(file))
      case None => Failure(UnsupportedImageFormat)
      case Some(d) =>
        match toJpeg(Payload(file), Resized(d))
        case None => Failure(EncodingFailed)
        case Some(jpeg) => Success(ImageColumns(Some(jpeg), Some(JpegMime), Some(|jpeg|)))
  }

  /** The text of an optional string when PHP concatenates it: null reads as "". */
  function OrEmpty(s: Option<string>): string
  {
    if s.Some? then s.value else ""
  }

  /** The image accessor: null for a falsy stored value, else "data:" + MIME + ";base64," + payload. */
  function ImageDataUri(value: Option<seq<Byte>>, mime: Option<string>): (r: Option<string>)
    ensures r.None? <==> value.None? || FalsyString(value.value)
  {
    if value.None? || FalsyString(value.value) then None
    else Some("data:" + OrEmpty(mime) + ";base64," + Encode(value.value))
  }

  /** The text after the first comma: the payload of a data URI. */
  function AfterFirstComma(s: string): string
  {
    if s == [] then []
    else if s[0] == ',' then s[1..]
    else AfterFirstComma(s[1..])
  }

  lemma {:induction false} AfterFirstCommaSkipsPrefix(p: string, rest: string)
    requires ',' !in p
    ensures AfterFirstComma(p + [','] + rest) == rest
  {
    if p == [] {
      assert p + [','] + rest == [','] + rest;
    } else {
      assert (p + [','] + rest)[1..] == p[1..] + [','] + rest;
      AfterFirstCommaSkipsPrefix(p[1..], rest);
    }
  }

  /**
   * The payload of the accessor's URI is the base64 text of exactly the
   * stored bytes, 4 * ceil(n / 3) characters long, when the MIME type has
   * no comma in it.
   */
  lemma DataUriPayload(value: seq<Byte>, mime: string)
    requires !FalsyString(value) && ',' !in mime
    ensures ImageDataUri(Some(value), Some(mime)).Some?
    ensures var payload := AfterFirstComma(ImageDataUri(Some(value), Some(mime)).value);
      Decode(payload) == Some(value) && |payload| == 4 * ((|value| + 2) / 3)
  {
    var p := "data:" + mime + ";base64";
    assert ',' !in p by {
      assert p == "data:" + mime + ";base64";
      forall i | 0 <= i < |p| ensures p[i] != ',' {
        if i >= 5 && i < 5 + |mime| { assert p[i] == mime[i - 5]; }
      }
    }
    assert ImageDataUri(Some(value), Some(mime)).value == p + [','] + Encode(value);
    AfterFirstCommaSkipsPrefix(p, Encode(value));
    DecodeEncode(value);
  }

  /** The URI starts with "data:", the MIME type and ";base64,". */
  lemma DataUriPrefix(value: seq<Byte>, mime: string)
    requires !FalsyString(value)
    ensures var prefix := "data:" + mime + ";base64,";
      var uri := ImageDataUri(Some(value), Some(mime)).value;
      |uri| >= |prefix| && uri[..|prefix|] == prefix
  {
    var prefix := "data:" + mime + ";base64,";
    assert ImageDataUri(Some(value), Some(mime)).value == prefix + Encode(value);
  }

  /** A JPEG stream is never a falsy PHP string. */
  lemma JpegIsTruthy(jpeg: Jpeg)
    ensures !FalsyString(jpeg)
  {
    assert jpeg[0] == 0xFF;
  }

  /** How the accessor's URI of a stored JPEG begins. */
  const JpegUriPrefix: string := "data:image/jpeg;base64,"

  lemma JpegUriPrefixSpelled()
    ensures "data:" + JpegMime + ";base64," == JpegUriPrefix
  {
  }

  /** The URI of a stored JPEG: the "image/jpeg" prefix, then a payload that decodes to the JPEG. */
  lemma JpegDataUri(jpeg: Jpeg)
    ensures var uri := ImageDataUri(Some(jpeg), Some(JpegMime));
      uri.Some? && |uri.value| >= |JpegUriPrefix| && uri.value[..|JpegUriPrefix|] == JpegUriPrefix
      && Decode(AfterFirstComma(uri.value)) == Some(jpeg)
  {
    JpegIsTruthy(jpeg);
    JpegUriPrefixSpelled();
    var uri := ImageDataUri(Some(jpeg), Some(JpegMime)).value;
    assert uri == JpegUriPrefix + Encode(jpeg);
    assert uri[..|JpegUriPrefix|] == JpegUriPrefix;
    DataUriPayload(jpeg, JpegMime);
  }

  /**
   * After the mutator stores a real upload, the accessor yields a URI that
   * starts with "data:image/jpeg;base64," and whose payload decodes to the
   * stored JPEG bytes.
   */
  lemma StoredImageReadsBack(file: ImageInput, read: seq<Byte> -> Option<Dims>, toJpeg: (seq<Byte>, Dims) -> Option<Jpeg>)
    requires !Falsy(file)
    requires EncodeImage(file, read, toJpeg).Success?
    ensures var c := EncodeImage(file, read, toJpeg).value;
      var uri := ImageDataUri(c.image, c.mimeType);
      uri.Some? && |uri.value| >= |JpegUriPrefix| && uri.value[..|JpegUriPrefix|] == JpegUriPrefix
      && Decode(AfterFirstComma(uri.value)) == Some(c.image.value)
  {
    var c := EncodeImage(file, read, toJpeg).value;
    var jpeg: Jpeg := toJpeg(Payload(file), Resized(read(Payload(file)).value)).value;
    assert c.image == Some(jpeg) && c.mimeType == Some(JpegMime);
    JpegDataUri(jpeg);
  }

  /** A row with no image reads as null. */
  lemma NoImageReadsNull()
    ensures ImageDataUri(NoImage.image, NoImage.mimeType) == None
  {
  }

  /** A product row's image columns, which the mutator writes in place. */
  class Product {
    var image: Option<seq<Byte>>
    var imageMimeType: Option<string>
    var imageSize: Option<int>

    function Columns(): ImageColumns
      reads this
    {
      ImageColumns(image, imageMimeType, imageSize)
    }

    constructor ()
      ensures Columns() == NoImage
    {
      image, imageMimeType, imageSize := None, None, None;
    }

    /**
     * setImageAttribute. On a falsy input the three columns are cleared
     * together; otherwise they are written only once the JPEG exists, so a
     * decode or encode failure leaves all three as they were.
     */
    method SetImageAttribute(file: ImageInput, read: seq<Byte> -> Option<Dims>, toJpeg: (seq<Byte>, Dims) -> Option<Jpeg>)
      returns (result: Result<(), ImageError>)
      modifies this
      ensures var e := EncodeImage(file, read, toJpeg);
        if e.Success? then result.Success? && Columns() == e.value
        else result == Failure(e.error) && Columns() == old(Columns())
      ensures AllOrNothing(old(Columns())) ==> AllOrNothing(Columns())
    {
      if Falsy(file) {
        image := None;
        imageMimeType := None;
        imageSize := None;
        return Success(());
      }
      var decoded := read(Payload(file));
      if decoded.None? {
        return Failure(UnsupportedImageFormat);
      }
      var compressed := toJpeg(Payload(file), Resized(decoded.value));
      if compressed.None? {
        return Failure(EncodingFailed);
      }
      image := Some(compressed.value);
      imageMimeType := Some(JpegMime);
      imageSize := Some(|compressed.value|);
      result := Success(());
    }

    /** getImageAttribute on this row's stored columns. */
    function ImageAttribute(): (r: Option<string>)
      reads this
      ensures r.None? <==> image.None? || FalsyString(image.value)
    {
      ImageDataUri(image, imageMimeType)
    }
  }
}
