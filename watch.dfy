/**
 * The clipboard watcher: `fingerprintClipboard` and one tick of the
 * `setInterval` in `pollClipboard`, as functions of the clipboard contents.
 * A tick reads the clipboard image twice (once to fingerprint it, once to
 * store it); the two reads are separate parameters.
 */
module Watch {
  import opened Options
  import opened JsStrings
  import opened Encoding
  import opened Clips

  /** PNGs below this size are "tiny/stale icons": they give no fingerprint and are not stored. */
  const MinPngBytes := 2048
  /** How many leading PNG bytes enter an image fingerprint. */
  const HeadBytes := 64

  /** `"i:" + hex(first 64 bytes) + ":" + byte length` */
  function ImageFingerprint(png: seq<byte>): string {
    "i:" + Hex(png[..if |png| < HeadBytes then |png| else HeadBytes]) + ":" + Decimal(|png|)
  }

  /**
   * `fingerprintClipboard()`: `clipText` is `clipboard.readText()`, `image` is
   * the PNG encoding of `clipboard.readImage()`, None when that image is empty.
   */
  function Fingerprint(clipText: string, image: Option<seq<byte>>): string {
    var text := Trim(clipText);
    if text != "" then "t:" + text
    else match image
      case None => ""
      case Some(png) => if |png| < MinPngBytes then "" else ImageFingerprint(png)
  }

  /** `` `data:image/png;base64,${png.toString("base64")}` `` */
  function DataUrl(png: seq<byte>): (url: string)
    ensures StartsWith(url, PngDataUrlPrefix)
    ensures |url| == |PngDataUrlPrefix| + 4 * ((|png| + 2) / 3)
  {
    PngDataUrlPrefix + Base64(png)
  }

  /** `lastFingerprint` after one tick. */
  function TickFingerprint(last: string, clipText: string, image: Option<seq<byte>>): string {
    var fp := Fingerprint(clipText, image);
    if fp == "" || fp == last then last else fp
  }

  /**
   * The rows after a tick that computed the fingerprint `fp`, given the last
   * one; `reread` is the second image read the stored data URL is made from.
   */
  function StepRows(rows: seq<Row>, last: string, fp: string, reread: Option<seq<byte>>, id: string, now: int): seq<Row> {
    if fp == "" || fp == last then rows
    else if StartsWith(fp, "t:") then InsertedText(rows, fp[2..], id, now)
    else match reread
      case None => rows
      case Some(png) => if |png| < MinPngBytes then rows else InsertedImage(rows, DataUrl(png), id, now)
  }

  /** The rows after one tick: `image` is the read the fingerprint is taken from. */
  function TickRows(rows: seq<Row>, last: string, clipText: string, image: Option<seq<byte>>,
                    reread: Option<seq<byte>>, id: string, now: int): seq<Row>
  {
    StepRows(rows, last, Fingerprint(clipText, image), reread, id, now)
  }

  /**
   * Text wins over an image whenever the trimmed text is non-empty; with no
   * text, an absent image or a PNG under 2048 bytes gives the empty
   * fingerprint, and a larger PNG an `i:` fingerprint.
   */
  lemma FingerprintSpec(clipText: string, image: Option<seq<byte>>)
    ensures !AllWhiteSpace(clipText) ==> Fingerprint(clipText, image) == "t:" + Trim(clipText)
    ensures AllWhiteSpace(clipText) && (image.None? || |image.value| < MinPngBytes) ==> Fingerprint(clipText, image) == ""
    ensures AllWhiteSpace(clipText) && image.Some? && |image.value| >= MinPngBytes ==>
              StartsWith(Fingerprint(clipText, image), "i:")
  {
    TrimEmpty(clipText);
  }

  /**
   * Two large PNGs get the same fingerprint exactly when they have the same
   * length and the same first 64 bytes (the accepted collision risk).
   */
  lemma ImageFingerprintMatch(a: seq<byte>, b: seq<byte>)
    requires |a| >= MinPngBytes && |b| >= MinPngBytes
    ensures ImageFingerprint(a) == ImageFingerprint(b) <==> |a| == |b| && a[..HeadBytes] == b[..HeadBytes]
  {
    var fa, fb := ImageFingerprint(a), ImageFingerprint(b);
    var ha, hb := Hex(a[..HeadBytes]), Hex(b[..HeadBytes]);
    if fa == fb {
      assert fa[2..2 + 2 * HeadBytes] == ha;
      assert fb[2..2 + 2 * HeadBytes] == hb;
      HexInjective(a[..HeadBytes], b[..HeadBytes]);
      assert fa[3 + 2 * HeadBytes..] == Decimal(|a|);
      assert fb[3 + 2 * HeadBytes..] == Decimal(|b|);
      DecimalInjective(|a|, |b|);
    }
  }

  /** Different non-blank texts give different fingerprints, and no text fingerprint equals an image one. */
  lemma TextFingerprintMatch(s: string, t: string, image: Option<seq<byte>>, other: Option<seq<byte>>)
    requires !AllWhiteSpace(s)
    ensures !AllWhiteSpace(t) ==> (Fingerprint(s, image) == Fingerprint(t, other) <==> Trim(s) == Trim(t))
    ensures AllWhiteSpace(t) ==> Fingerprint(s, image) != Fingerprint(t, other)
  {
    FingerprintSpec(s, image);
    FingerprintSpec(t, other);
    var fs, ft := Fingerprint(s, image), Fingerprint(t, other);
    if !AllWhiteSpace(t) && fs == ft {
      assert fs[2..] == Trim(s) && ft[2..] == Trim(t);
    }
    if AllWhiteSpace(t) && ft != "" {
      assert fs[0] == 't' && ft[0] == 'i';
    }
  }

  /**
   * An empty fingerprint, or one equal to the last, makes the tick a no-op;
   * any other fingerprint becomes the last one, whether or not a row is then
   * stored.
   */
  lemma TickNoOp(rows: seq<Row>, last: string, clipText: string, image: Option<seq<byte>>,
                 reread: Option<seq<byte>>, id: string, now: int)
    ensures var fp := Fingerprint(clipText, image);
      && (fp == "" || fp == last ==>
            TickRows(rows, last, clipText, image, reread, id, now) == rows
            && TickFingerprint(last, clipText, image) == last)
      && (fp != "" ==> TickFingerprint(last, clipText, image) == fp)
  {
  }

  /** A second tick on an unchanged clipboard changes nothing, whatever it would have stored. */
  lemma TickIdempotent(rows: seq<Row>, last: string, clipText: string, image: Option<seq<byte>>,
                       reread: Option<seq<byte>>, id: string, now: int,
                       reread2: Option<seq<byte>>, id2: string, now2: int)
    ensures var rows1 := TickRows(rows, last, clipText, image, reread, id, now);
      var last1 := TickFingerprint(last, clipText, image);
      && TickRows(rows1, last1, clipText, image, reread2, id2, now2) == rows1
      && TickFingerprint(last1, clipText, image) == last1
  {
  }

  /** A tick that sees new non-blank text stores exactly the trimmed text, whatever image is on the clipboard. */
  lemma TickStoresText(rows: seq<Row>, last: string, clipText: string, image: Option<seq<byte>>,
                       reread: Option<seq<byte>>, id: string, now: int)
    requires !AllWhiteSpace(clipText) && "t:" + Trim(clipText) != last
    ensures TickRows(rows, last, clipText, image, reread, id, now) == InsertedText(rows, Trim(clipText), id, now)
    ensures InsertedText(rows, Trim(clipText), id, now)
            == WithoutText(rows, Trim(clipText)) + [Row(id, Text, Some(Trim(clipText)), None, now, 0, Encoded([]))]
  {
    var t := Trim(clipText);
    var fp := Fingerprint(clipText, image);
    assert StartsWith(fp, "t:") && fp[2..] == t by {
      FingerprintSpec(clipText, image);
    }
    assert Trim(t) == t && t != "" by {
      TrimIdempotent(clipText);
      TrimEmpty(clipText);
    }
  }

  /** The base64 data URL of an `n`-byte PNG passes the 3000-character guard exactly when n >= 2233. */
  lemma DataUrlAccepted(png: seq<byte>)
    ensures AcceptsImage(DataUrl(png)) <==> |png| >= 2233
  {
  }

  /**
   * With no text and the same large PNG on both reads, a new fingerprint is
   * always recorded, but the image is stored only from 2233 bytes on: a PNG
   * of 2048 to 2232 bytes moves `lastFingerprint` and leaves the rows as they
   * were.
   */
  lemma TickImageThresholds(rows: seq<Row>, last: string, clipText: string, png: seq<byte>, id: string, now: int)
    requires AllWhiteSpace(clipText) && |png| >= MinPngBytes && ImageFingerprint(png) != last
    ensures TickFingerprint(last, clipText, Some(png)) == ImageFingerprint(png)
    ensures |png| < 2233 ==> TickRows(rows, last, clipText, Some(png), Some(png), id, now) == rows
    ensures |png| >= 2233 ==>
              TickRows(rows, last, clipText, Some(png), Some(png), id, now) == InsertedImage(rows, DataUrl(png), id, now)
              && AcceptsImage(DataUrl(png))
  {
    var fp := ImageFingerprint(png);
    assert Fingerprint(clipText, Some(png)) == fp by {
      TrimEmpty(clipText);
    }
    assert !StartsWith(fp, "t:") by {
      assert fp[0] == 'i';
    }
    DataUrlAccepted(png);
    assert TickRows(rows, last, clipText, Some(png), Some(png), id, now) == InsertedImage(rows, DataUrl(png), id, now) by {
      StepLargeImage(rows, last, fp, png, id, now);
    }
  }

  /** A new image fingerprint with a reread PNG of at least 2048 bytes goes to the image insert. */
  lemma StepLargeImage(rows: seq<Row>, last: string, fp: string, png: seq<byte>, id: string, now: int)
    requires fp != "" && fp != last && !StartsWith(fp, "t:") && |png| >= MinPngBytes
    ensures StepRows(rows, last, fp, Some(png), id, now) == InsertedImage(rows, DataUrl(png), id, now)
  {
  }

  /** Whatever the fingerprint, the rest of a tick keeps the store valid. */
  lemma StepValid(rows: seq<Row>, last: string, fp: string, reread: Option<seq<byte>>, id: string, now: int)
    requires ValidRows(rows) && FreshId(rows, id)
    ensures ValidRows(StepRows(rows, last, fp, reread, id, now))
  {
    if fp != "" && fp != last {
      if StartsWith(fp, "t:") {
        InsertedTextValid(rows, fp[2..], id, now);
      } else if reread.Some? && |reread.value| >= MinPngBytes {
        InsertedImageValid(rows, DataUrl(reread.value), id, now);
      }
    }
  }

  /** A tick keeps the store valid. */
  lemma TickValid(rows: seq<Row>, last: string, clipText: string, image: Option<seq<byte>>,
                  reread: Option<seq<byte>>, id: string, now: int)
    requires ValidRows(rows) && FreshId(rows, id)
    ensures ValidRows(TickRows(rows, last, clipText, image, reread, id, now))
  {
    StepValid(rows, last, Fingerprint(clipText, image), reread, id, now);
  }
}
