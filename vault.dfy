/**
 * The clip store of the main process: the `clips` table and the watcher's
 * `lastFingerprint`, with `insertClip`, one polling tick and the per-id IPC
 * handlers as methods that update them in place.
 */
module Vault {
  import opened Options
  import opened JsStrings
  import opened Encoding
  import opened Clips
  import opened Watch

  /** The argument of `insertClip`. */
  datatype NewClip = TextClip(text: string) | ImageClip(imageDataUrl: string)

  class ClipVault {
    /** The rows of the `clips` table. */
    var rows: seq<Row>
    /** The fingerprint of the clipboard content last acted on. */
    var lastFingerprint: string

    ghost predicate Valid()
      reads this
    {
      ValidRows(rows)
    }

    /**
     * The store at start-up: the `clips` table as an earlier run left it
     * (empty when the database is new) and `lastFingerprint = ""`.
     */
    constructor (saved: seq<Row>)
      requires ValidRows(saved)
      ensures Valid() && rows == saved && lastFingerprint == ""
    {
      rows := saved;
      lastFingerprint := "";
    }

    /** `insertClip(item)`, with the id from `nowId()` and the time from `Date.now()` as parameters. */
    method InsertClip(item: NewClip, id: string, now: int)
      requires Valid() && FreshId(rows, id)
      modifies this`rows
      ensures Valid()
      ensures rows == match item
        case TextClip(text) => InsertedText(old(rows), text, id, now)
        case ImageClip(url) => InsertedImage(old(rows), url, id, now)
    {
      match item
      case TextClip(text) => InsertText(text, id, now);
      case ImageClip(url) => InsertImage(url, id, now);
    }

    /** The text branch of `insertClip`: drop the row with the same trimmed text, then append. */
    method InsertText(raw: string, id: string, now: int)
      requires Valid() && FreshId(rows, id)
      modifies this`rows
      ensures Valid()
      ensures rows == InsertedText(old(rows), raw, id, now)
    {
      InsertedTextValid(rows, raw, id, now);
      var text := Trim(raw);
      if text == "" {
        return;
      }
      FindTextThenDelete(rows, text);
      var existing := FindText(rows, text);
      if existing.Some? {
        rows := WithoutId(rows, existing.value.id);
      }
      rows := rows + [NewRow(id, Text, Some(text), None, now)];
    }

    /**
     * The image branch of `insertClip`: the two guards, then a scan of the 40
     * most recent images that stops at the first with the same signature,
     * which is deleted, and the append.
     */
    method InsertImage(dataUrl: string, id: string, now: int)
      requires Valid() && FreshId(rows, id)
      modifies this`rows
      ensures Valid()
      ensures rows == InsertedImage(old(rows), dataUrl, id, now)
    {
      InsertedImageValid(rows, dataUrl, id, now);
      if !StartsWith(dataUrl, PngDataUrlPrefix) {
        return;
      }
      if |dataUrl| < MinImageUrlLength {
        return;
      }
      var sig := Signature(dataUrl);
      var recent := RecentImages(rows);
      var i := ScanSignatures(recent, sig);
      if i < |recent| {
        rows := WithoutId(rows, recent[i].id);
      }
      rows := rows + [NewRow(id, Image, None, Some(dataUrl), now)];
    }

    /**
     * The `for` loop over the recent images with its `break`: the position of
     * the first row whose signature is `sig`, or `|recent|` when none has it.
     */
    static method ScanSignatures(recent: seq<Row>, sig: string) returns (i: nat)
      ensures i <= |recent|
      ensures i < |recent| <==> FirstMatch(recent, sig).Some?
      ensures i < |recent| ==> FirstMatch(recent, sig) == Some(i)
    {
      i := 0;
      while i < |recent| && RowSignature(recent[i]) != sig
        invariant i <= |recent|
        invariant forall k :: 0 <= k < i ==> RowSignature(recent[k]) != sig
      {
        i := i + 1;
      }
    }

    /**
     * One tick of the polling interval. `clipText` and `image` are the reads
     * the fingerprint is taken from, `reread` the image read the stored data
     * URL is made from.
     */
    method Tick(clipText: string, image: Option<seq<byte>>, reread: Option<seq<byte>>, id: string, now: int)
      requires Valid() && FreshId(rows, id)
      modifies this
      ensures Valid()
      ensures lastFingerprint == TickFingerprint(old(lastFingerprint), clipText, image)
      ensures rows == TickRows(old(rows), old(lastFingerprint), clipText, image, reread, id, now)
    {
      var fp := Fingerprint(clipText, image);
      Step(fp, reread, id, now);
    }

    /** The rest of a tick once the fingerprint `fp` is computed. */
    method Step(fp: string, reread: Option<seq<byte>>, id: string, now: int)
      requires Valid() && FreshId(rows, id)
      modifies this
      ensures Valid()
      ensures lastFingerprint == if fp == "" || fp == old(lastFingerprint) then old(lastFingerprint) else fp
      ensures rows == StepRows(old(rows), old(lastFingerprint), fp, reread, id, now)
    {
      if fp == "" {
        return;
      }
      if fp == lastFingerprint {
        return;
      }
      lastFingerprint := fp;
      if StartsWith(fp, "t:") {
        InsertText(fp[2..], id, now);
        return;
      }
      match reread
      case None =>
      case Some(png) =>
        if |png| < MinPngBytes {
          return;
        }
        InsertImage(DataUrl(png), id, now);
    }

    /** The `delete-clip` handler. */
    method DeleteClip(id: string) returns (ok: bool)
      requires Valid()
      modifies this`rows
      ensures Valid() && ok
      ensures rows == WithoutId(old(rows), id)
    {
      WithoutIdValid(rows, id);
      rows := WithoutId(rows, id);
      ok := true;
    }

    /** The `clear-all` handler. */
    method ClearAll() returns (ok: bool)
      modifies this`rows
      ensures Valid() && ok
      ensures rows == []
    {
      rows := [];
      ok := true;
    }

    /** The `toggle-pin` handler: read the pin of the row with that id, write the other value. */
    method TogglePin(id: string) returns (ok: bool)
      requires Valid()
      modifies this`rows
      ensures Valid() && ok
      ensures rows == PinToggled(old(rows), id)
    {
      PinToggledSpec(rows, id);
      var found := FindRow(rows, id);
      var next := if found.Some? && found.value.pinned != 0 then 0 else 1;
      rows := SetPinned(rows, id, next);
      ok := true;
    }

    /** The `set-tags` handler; `tags` is None when the payload's tags are not an array. */
    method SetTags(id: string, tags: Option<seq<string>>) returns (ok: bool)
      requires Valid()
      modifies this`rows
      ensures Valid() && ok
      ensures rows == TagsSet(old(rows), id, match tags case Some(t) => t case None => [])
    {
      var list := match tags case Some(t) => t case None => [];
      TagsSetValid(rows, id, list);
      rows := TagsSet(rows, id, list);
      ok := true;
    }
  }
}
