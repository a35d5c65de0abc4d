/**
 * The `clips` table of the clip store and the row-level operations on it:
 * the insert-or-bump of `insertClip`, the DELETE / UPDATE statements of the
 * per-id handlers, and the two orderings its SELECTs use. The SQLite table is
 * an in-memory sequence of rows; the order of that sequence carries no
 * meaning except to break ties the SQL leaves open.
 */
module Clips {
  import opened Options
  import opened JsStrings

  datatype Kind = Text | Image

  /** The `tagsJson` column: JSON text that parses to a list of strings, or text that does not parse. */
  datatype TagsJson = Encoded(tags: seq<string>) | Unparseable

  /** One row of the `clips` table. */
  datatype Row = Row(id: string, kind: Kind, text: Option<string>, imageDataUrl: Option<string>,
                     createdAt: int, pinned: int, tagsJson: TagsJson)

  /** A history entry as the renderer receives it. */
  datatype ClipItem = ClipItem(id: string, kind: Kind, text: Option<string>, imageDataUrl: Option<string>,
                               createdAt: int, pinned: int, tags: seq<string>)

  /** `rowToClip`: the columns carried over, the tags parsed with `safeJson(tagsJson, [])`. */
  function RowToClip(r: Row): (c: ClipItem)
    ensures c.id == r.id && c.kind == r.kind && c.text == r.text && c.imageDataUrl == r.imageDataUrl
    ensures c.createdAt == r.createdAt && c.pinned == r.pinned
    ensures r.tagsJson.Unparseable? ==> c.tags == []
    ensures r.tagsJson.Encoded? ==> c.tags == r.tagsJson.tags
  {
    var tags := match r.tagsJson
      case Encoded(t) => t
      case Unparseable => [];
    ClipItem(r.id, r.kind, r.text, r.imageDataUrl, r.createdAt, r.pinned, tags)
  }

  // ---------------------------------------------------------------- ordering

  /** The two ORDER BY clauses: `createdAt DESC` and `pinned DESC, createdAt DESC`. */
  datatype Order = Recency | PinnedThenRecency

  /** `pinned DESC, createdAt DESC`: the first key pair may be listed ahead of the second. */
  predicate PinnedFirst(pinnedA: int, createdA: int, pinnedB: int, createdB: int) {
    pinnedA > pinnedB || (pinnedA == pinnedB && createdA >= createdB)
  }

  /** `a` may be listed ahead of `b` under the order `o` (ties go either way). */
  predicate Ahead(o: Order, a: Row, b: Row) {
    match o
    case Recency => a.createdAt >= b.createdAt
    case PinnedThenRecency => PinnedFirst(a.pinned, a.createdAt, b.pinned, b.createdAt)
  }

  predicate Sorted(o: Order, s: seq<Row>) {
    forall i, j :: 0 <= i < j < |s| ==> Ahead(o, s[i], s[j])
  }

  /** Puts `x` in front of the first row it may precede. */
  function Place(o: Order, x: Row, s: seq<Row>): (r: seq<Row>)
    ensures multiset(r) == multiset(s) + multiset{x}
  {
    if s == [] then [x]
    else if Ahead(o, x, s[0]) then [x] + s
    else
      assert s == [s[0]] + s[1..];
      [s[0]] + Place(o, x, s[1..])
  }

  /** One ordering SQLite may produce for an ORDER BY: a stable insertion sort. */
  function Sort(o: Order, s: seq<Row>): (r: seq<Row>)
    ensures multiset(r) == multiset(s)
  {
    if s == [] then []
    else
      assert s == [s[0]] + s[1..];
      Place(o, s[0], Sort(o, s[1..]))
  }

  lemma {:induction false} PlaceSorted(o: Order, x: Row, s: seq<Row>)
    requires Sorted(o, s)
    ensures Sorted(o, Place(o, x, s))
  {
    if s != [] && !Ahead(o, x, s[0]) {
      var tail := Place(o, x, s[1..]);
      PlaceSorted(o, x, s[1..]);
      forall j | 0 <= j < |tail| ensures Ahead(o, s[0], tail[j]) {
        assert tail[j] in multiset(tail);
        if tail[j] != x {
          assert tail[j] in s[1..];
        }
      }
    }
  }

  lemma {:induction false} SortSorted(o: Order, s: seq<Row>)
    ensures Sorted(o, Sort(o, s))
  {
    if s != [] {
      SortSorted(o, s[1..]);
      PlaceSorted(o, s[0], Sort(o, s[1..]));
    }
  }

  function Take<T>(s: seq<T>, k: nat): seq<T> {
    if |s| <= k then s else s[..k]
  }

  /** `ORDER BY ... LIMIT k` */
  function Top(o: Order, rows: seq<Row>, k: nat): seq<Row> {
    Take(Sort(o, rows), k)
  }

  /** In a sorted listing every row of a prefix may precede every row after it. */
  lemma SortedSplit(o: Order, s: seq<Row>, m: nat)
    requires Sorted(o, s) && m <= |s|
    ensures Sorted(o, s[..m])
    ensures forall y, z :: y in s[..m] && z in s[m..] ==> Ahead(o, y, z)
  {
    forall y, z | y in s[..m] && z in s[m..] ensures Ahead(o, y, z) {
      var i :| 0 <= i < m && s[..m][i] == y;
      var j :| 0 <= j < |s| - m && s[m..][j] == z;
      assert s[i] == y && s[m + j] == z;
    }
  }

  /**
   * `ORDER BY ... LIMIT k` returns min(k, |rows|) of the rows, in order, and
   * no row it leaves out ranks strictly ahead of a row it keeps.
   */
  lemma TopSpec(o: Order, rows: seq<Row>, k: nat)
    ensures |Top(o, rows, k)| == if |rows| <= k then |rows| else k
    ensures Sorted(o, Top(o, rows, k))
    ensures multiset(Top(o, rows, k)) <= multiset(rows)
    ensures forall y, z :: y in Top(o, rows, k) && z in multiset(rows) - multiset(Top(o, rows, k)) ==> Ahead(o, y, z)
  {
    var s := Sort(o, rows);
    var t := Top(o, rows, k);
    SortSorted(o, rows);
    assert |s| == |rows| by {
      assert |multiset(s)| == |multiset(rows)|;
    }
    var m := if |s| <= k then |s| else k;
    assert t == s[..m];
    var rest := s[m..];
    assert multiset(rows) == multiset(t) + multiset(rest) by {
      assert s == t + rest;
    }
    SortedSplit(o, s, m);
    forall y, z | y in t && z in multiset(rows) - multiset(t) ensures Ahead(o, y, z) {
      assert z in multiset(rest);
      assert z in rest;
    }
  }

  // ------------------------------------------------------ store invariants

  const PngDataUrlPrefix := "data:image/png;base64,"
  /** Data URLs shorter than this are "too small -> likely invalid". */
  const MinImageUrlLength := 3000

  /** The image guards of `insertClip`. */
  predicate AcceptsImage(url: string) {
    StartsWith(url, PngDataUrlPrefix) && |url| >= MinImageUrlLength
  }

  predicate IsTextRow(r: Row, t: string) {
    r.kind == Text && r.text == Some(t)
  }

  /** The shape of every row `insertClip` writes and the pin handler keeps: one payload, matching the kind. */
  predicate WellFormed(r: Row) {
    0 <= r.pinned <= 1 &&
    match r.kind
    case Text => r.text.Some? && r.imageDataUrl.None? && r.text.value != "" && Trim(r.text.value) == r.text.value
    case Image => r.imageDataUrl.Some? && r.text.None? && AcceptsImage(r.imageDataUrl.value)
  }

  /** Two distinct rows: different ids, and never two text rows with the same text. */
  predicate Compatible(a: Row, b: Row) {
    a.id != b.id && !(a.kind == Text && b.kind == Text && a.text == b.text)
  }

  /** What the store keeps true: well-formed rows, a unique id each, at most one text row per value. */
  predicate ValidRows(rows: seq<Row>) {
    (forall i :: 0 <= i < |rows| ==> WellFormed(rows[i])) &&
    (forall i, j :: 0 <= i < j < |rows| ==> Compatible(rows[i], rows[j]))
  }

  predicate FreshId(rows: seq<Row>, id: string) {
    forall r :: r in rows ==> r.id != id
  }

  lemma ValidCons(x: Row, s: seq<Row>)
    ensures ValidRows([x] + s) <==> WellFormed(x) && ValidRows(s) && forall y :: y in s ==> Compatible(x, y)
  {
    if WellFormed(x) && ValidRows(s) && forall y :: y in s ==> Compatible(x, y) {
      ValidConsIntro(x, s);
    }
    if ValidRows([x] + s) {
      ValidConsElim(x, s);
    }
  }

  lemma ValidConsIntro(x: Row, s: seq<Row>)
    requires WellFormed(x) && ValidRows(s) && forall y :: y in s ==> Compatible(x, y)
    ensures ValidRows([x] + s)
  {
    var xs := [x] + s;
    forall i | 0 <= i < |xs| ensures WellFormed(xs[i]) {
      if i > 0 {
        assert xs[i] == s[i - 1];
      }
    }
    forall i, j | 0 <= i < j < |xs| ensures Compatible(xs[i], xs[j]) {
      assert xs[j] == s[j - 1];
      if i > 0 {
        assert xs[i] == s[i - 1];
      }
    }
  }

  lemma ValidConsElim(x: Row, s: seq<Row>)
    requires ValidRows([x] + s)
    ensures WellFormed(x) && ValidRows(s) && forall y :: y in s ==> Compatible(x, y)
  {
    var xs := [x] + s;
    assert |xs| == |s| + 1 && xs[0] == x && xs[1..] == s;
    assert WellFormed(xs[0]);
    ValidTail(xs);
    HeadCompatible(xs);
  }

  /** The rows after the first of a valid store are a valid store. */
  lemma ValidTail(xs: seq<Row>)
    requires ValidRows(xs) && xs != []
    ensures ValidRows(xs[1..])
  {
    var s := xs[1..];
    forall i | 0 <= i < |s| ensures WellFormed(s[i]) {
      assert s[i] == xs[i + 1];
    }
    forall i, j | 0 <= i < j < |s| ensures Compatible(s[i], s[j]) {
      assert s[i] == xs[i + 1] && s[j] == xs[j + 1];
    }
  }

  /** The first row of a valid store is compatible with every later one. */
  lemma HeadCompatible(xs: seq<Row>)
    requires ValidRows(xs) && xs != []
    ensures forall y :: y in xs[1..] ==> Compatible(xs[0], y)
  {
    var s := xs[1..];
    forall y | y in s ensures Compatible(xs[0], y) {
      var j :| 0 <= j < |s| && s[j] == y;
      assert xs[j + 1] == y;
    }
  }

  lemma ValidSnoc(s: seq<Row>, x: Row)
    requires ValidRows(s) && WellFormed(x)
    requires forall y :: y in s ==> Compatible(y, x)
    ensures ValidRows(s + [x])
  {
    var xs := s + [x];
    forall i, j | 0 <= i < j < |xs| ensures Compatible(xs[i], xs[j]) {
      assert xs[i] == s[i];
      if j < |s| {
        assert xs[j] == s[j];
      } else {
        assert s[i] in s;
      }
    }
  }

  // ------------------------------------------------------ DELETE and SELECT

  /** `DELETE FROM clips WHERE id=?` */
  function WithoutId(rows: seq<Row>, id: string): (r: seq<Row>)
    ensures forall x :: x in r <==> x in rows && x.id != id
    ensures multiset(r) <= multiset(rows)
  {
    if rows == [] then []
    else
      assert rows == [rows[0]] + rows[1..];
      if rows[0].id == id then WithoutId(rows[1..], id) else [rows[0]] + WithoutId(rows[1..], id)
  }

  /** Every text row holding `t` removed. */
  function WithoutText(rows: seq<Row>, t: string): (r: seq<Row>)
    ensures forall x :: x in r <==> x in rows && !IsTextRow(x, t)
    ensures multiset(r) <= multiset(rows)
  {
    if rows == [] then []
    else
      assert rows == [rows[0]] + rows[1..];
      if IsTextRow(rows[0], t) then WithoutText(rows[1..], t) else [rows[0]] + WithoutText(rows[1..], t)
  }

  lemma {:induction false} WithoutIdValid(rows: seq<Row>, id: string)
    requires ValidRows(rows)
    ensures ValidRows(WithoutId(rows, id))
  {
    if rows != [] {
      assert rows == [rows[0]] + rows[1..];
      ValidCons(rows[0], rows[1..]);
      WithoutIdValid(rows[1..], id);
      if rows[0].id != id {
        ValidCons(rows[0], WithoutId(rows[1..], id));
      }
    }
  }

  lemma {:induction false} WithoutTextValid(rows: seq<Row>, t: string)
    requires ValidRows(rows)
    ensures ValidRows(WithoutText(rows, t))
  {
    if rows != [] {
      assert rows == [rows[0]] + rows[1..];
      ValidCons(rows[0], rows[1..]);
      WithoutTextValid(rows[1..], t);
      if !IsTextRow(rows[0], t) {
        ValidCons(rows[0], WithoutText(rows[1..], t));
      }
    }
  }

  /** Deleting an id no row has changes nothing. */
  lemma {:induction false} WithoutAbsentId(rows: seq<Row>, id: string)
    requires FreshId(rows, id)
    ensures WithoutId(rows, id) == rows
  {
    if rows != [] {
      WithoutAbsentId(rows[1..], id);
    }
  }

  /** Deleting a row by id in a valid store removes exactly that row. */
  lemma {:induction false} WithoutPresentId(rows: seq<Row>, e: Row)
    requires ValidRows(rows) && e in rows
    ensures multiset(WithoutId(rows, e.id)) == multiset(rows) - multiset{e}
  {
    assert rows == [rows[0]] + rows[1..];
    ValidCons(rows[0], rows[1..]);
    if rows[0] == e {
      WithoutAbsentId(rows[1..], e.id);
    } else {
      WithoutPresentId(rows[1..], e);
    }
  }

  /** `SELECT id FROM clips WHERE kind='text' AND text=?`: the first such row, if any. */
  function FindText(rows: seq<Row>, t: string): (m: Option<Row>)
    ensures m.Some? ==> m.value in rows && IsTextRow(m.value, t)
    ensures m.None? ==> forall x :: x in rows ==> !IsTextRow(x, t)
  {
    if rows == [] then None
    else if IsTextRow(rows[0], t) then Some(rows[0])
    else FindText(rows[1..], t)
  }

  /** In a valid store, deleting the row the text lookup found deletes every text row with that text. */
  lemma {:induction false} FindTextThenDelete(rows: seq<Row>, t: string)
    requires ValidRows(rows)
    ensures FindText(rows, t).None? ==> WithoutText(rows, t) == rows
    ensures FindText(rows, t).Some? ==> WithoutId(rows, FindText(rows, t).value.id) == WithoutText(rows, t)
  {
    if rows != [] {
      assert rows == [rows[0]] + rows[1..];
      ValidCons(rows[0], rows[1..]);
      FindTextThenDelete(rows[1..], t);
      if IsTextRow(rows[0], t) {
        WithoutAbsentId(rows[1..], rows[0].id);
        assert forall x :: x in rows[1..] ==> !IsTextRow(x, t);
        assert FindText(rows[1..], t).None?;
      }
    }
  }

  /** `SELECT ... FROM clips WHERE id=?`: the first row with that id, if any. */
  function FindRow(rows: seq<Row>, id: string): (m: Option<Row>)
    ensures m.Some? ==> m.value in rows && m.value.id == id
    ensures m.None? ==> FreshId(rows, id)
  {
    if rows == [] then None
    else if rows[0].id == id then Some(rows[0])
    else FindRow(rows[1..], id)
  }

  /** `SELECT ... FROM clips WHERE kind='image'` */
  function Images(rows: seq<Row>): (r: seq<Row>)
    ensures forall x :: x in r <==> x in rows && x.kind == Image
    ensures forall x :: multiset(r)[x] == if x.kind == Image then multiset(rows)[x] else 0
  {
    assert rows != [] ==> rows == [rows[0]] + rows[1..];
    if rows == [] then []
    else if rows[0].kind == Image then [rows[0]] + Images(rows[1..])
    else Images(rows[1..])
  }

  // ------------------------------------------------------------ text insert

  function NewRow(id: string, kind: Kind, text: Option<string>, url: Option<string>, now: int): Row {
    Row(id, kind, text, url, now, 0, Encoded([]))
  }

  /**
   * The rows after `insertClip({kind: "text", text})`: nothing when the trimmed
   * text is empty; otherwise every text row with that text is dropped and a
   * fresh unpinned, untagged row is appended.
   */
  function InsertedText(rows: seq<Row>, text: string, id: string, now: int): seq<Row> {
    var t := Trim(text);
    if t == "" then rows else WithoutText(rows, t) + [NewRow(id, Text, Some(t), None, now)]
  }

  /** White-space-only text changes nothing, and any text insert keeps the store valid. */
  lemma InsertedTextValid(rows: seq<Row>, text: string, id: string, now: int)
    requires ValidRows(rows) && FreshId(rows, id)
    ensures AllWhiteSpace(text) ==> InsertedText(rows, text, id, now) == rows
    ensures ValidRows(InsertedText(rows, text, id, now))
  {
    TrimEmpty(text);
    var t := Trim(text);
    if t != "" {
      var n := NewRow(id, Text, Some(t), None, now);
      WithoutTextValid(rows, t);
      TrimIdempotent(text);
      assert WellFormed(n);
      ValidSnoc(WithoutText(rows, t), n);
    }
  }

  /**
   * Non-blank text is stored trimmed as a fresh record at the end (unpinned,
   * untagged, created `now`); it is the only text row with that value, so the
   * old record with its pin and tags is gone, and every other row is kept.
   */
  lemma InsertedTextBumps(rows: seq<Row>, text: string, id: string, now: int)
    requires !AllWhiteSpace(text)
    ensures var r := InsertedText(rows, text, id, now);
      && |r| > 0
      && r[|r| - 1] == Row(id, Text, Some(Trim(text)), None, now, 0, Encoded([]))
      && (forall x :: x in r && IsTextRow(x, Trim(text)) ==> x == r[|r| - 1])
      && (forall x :: x in rows && !IsTextRow(x, Trim(text)) ==> x in r)
      && (forall x :: x in r ==> x in rows || x == r[|r| - 1])
  {
    TrimEmpty(text);
  }

  /** In a valid store a text insert removes at most one row, the one `FindText` reports. */
  lemma InsertedTextCount(rows: seq<Row>, text: string, id: string, now: int)
    requires ValidRows(rows) && !AllWhiteSpace(text)
    ensures var n := Row(id, Text, Some(Trim(text)), None, now, 0, Encoded([]));
      var r := InsertedText(rows, text, id, now);
      match FindText(rows, Trim(text))
      case None => multiset(r) == multiset(rows) + multiset{n}
      case Some(e) => multiset(r) == multiset(rows) - multiset{e} + multiset{n}
  {
    TrimEmpty(text);
    var t := Trim(text);
    FindTextThenDelete(rows, t);
    match FindText(rows, t)
    case None =>
    case Some(e) => WithoutPresentId(rows, e);
  }

  // ----------------------------------------------------------- image insert

  /** How many of the most recent images the de-duplication looks at. */
  const DedupWindow := 40
  /** How many leading characters of a data URL enter its signature. */
  const SignaturePrefix := 120

  /** `dataUrl.slice(0, 120) + ":" + dataUrl.length` */
  function Signature(url: string): string {
    url[..if |url| < SignaturePrefix then |url| else SignaturePrefix] + ":" + Decimal(|url|)
  }

  /** The data URL of a stored row, "" for NULL (as the signature sees it). */
  function UrlOf(r: Row): string {
    match r.imageDataUrl case Some(u) => u case None => ""
  }

  /** The signature of a stored row; a NULL data URL signs as the empty one (`"" + ":" + 0`). */
  function RowSignature(r: Row): string {
    Signature(UrlOf(r))
  }

  /**
   * For an accepted data URL the signature string compares exactly the first
   * 120 characters and the length: no shorter URL can spell the same string.
   */
  lemma SignatureMatch(u: string, v: string)
    requires |u| >= MinImageUrlLength
    ensures Signature(v) == Signature(u) <==> |v| == |u| && v[..SignaturePrefix] == u[..SignaturePrefix]
  {
    DecimalWidth(|u|);
    DecimalWidth(|v|);
    var su, sv := Signature(u), Signature(v);
    if su == sv {
      if |v| < SignaturePrefix {
        assert false;
      }
      assert su[..SignaturePrefix] == u[..SignaturePrefix];
      assert sv[..SignaturePrefix] == v[..SignaturePrefix];
      assert su[SignaturePrefix + 1..] == Decimal(|u|);
      assert sv[SignaturePrefix + 1..] == Decimal(|v|);
      DecimalInjective(|u|, |v|);
    }
  }

  /** `SELECT id, imageDataUrl FROM clips WHERE kind='image' ORDER BY createdAt DESC LIMIT 40` */
  function RecentImages(rows: seq<Row>): seq<Row> {
    Top(Recency, Images(rows), DedupWindow)
  }

  /** The position of the first row of `recent` whose signature is `sig` (the loop's `break`). */
  function FirstMatch(recent: seq<Row>, sig: string): (m: Option<nat>)
    ensures m.Some? ==> m.value < |recent| && RowSignature(recent[m.value]) == sig
    ensures m.Some? ==> forall k :: 0 <= k < m.value ==> RowSignature(recent[k]) != sig
    ensures m.None? ==> forall x :: x in recent ==> RowSignature(x) != sig
  {
    if recent == [] then None
    else if RowSignature(recent[0]) == sig then Some(0)
    else match FirstMatch(recent[1..], sig)
      case None => None
      case Some(k) => Some(k + 1)
  }

  /**
   * The rows after `insertClip({kind: "image", imageDataUrl})`: nothing unless
   * the guards pass; otherwise the first of the 40 most recent images with the
   * same signature is deleted and a fresh unpinned, untagged row is appended.
   */
  function InsertedImage(rows: seq<Row>, url: string, id: string, now: int): seq<Row> {
    if !AcceptsImage(url) then rows
    else
      var recent := RecentImages(rows);
      var kept := match FirstMatch(recent, Signature(url))
        case Some(k) => WithoutId(rows, recent[k].id)
        case None => rows;
      kept + [NewRow(id, Image, None, Some(url), now)]
  }

  /** A row whose data URL has the length and the first 120 characters of `url`. */
  predicate SameHead(r: Row, url: string) {
    SignaturePrefix <= |url| && |UrlOf(r)| == |url| && UrlOf(r)[..SignaturePrefix] == url[..SignaturePrefix]
  }

  /**
   * For an accepted URL, the signature scan stops at the first recent row with
   * the same length and first 120 characters, or finds none.
   */
  lemma FirstMatchHead(recent: seq<Row>, url: string)
    requires |url| >= MinImageUrlLength
    ensures var m := FirstMatch(recent, Signature(url));
      && (m.None? ==> forall x :: x in recent ==> !SameHead(x, url))
      && (m.Some? ==> SameHead(recent[m.value], url) && forall j :: 0 <= j < m.value ==> !SameHead(recent[j], url))
  {
    forall x | x in recent ensures RowSignature(x) == Signature(url) <==> SameHead(x, url) {
      SignatureMatch(url, UrlOf(x));
    }
  }

  /**
   * The rows the image de-duplication inspects: min(40, number of image rows)
   * image rows of the store, newest first, so every image row when there are
   * fewer than 40, and otherwise none left out is newer than one inspected.
   */
  lemma RecentImagesSpec(rows: seq<Row>)
    ensures var recent := RecentImages(rows);
      && |recent| == (if |Images(rows)| <= DedupWindow then |Images(rows)| else DedupWindow)
      && (forall x :: x in recent ==> x in rows && x.kind == Image)
      && (|recent| < DedupWindow ==> forall z :: z in rows && z.kind == Image ==> z in recent)
      && Sorted(Recency, recent)
      && forall y, z :: y in recent && z in rows && z.kind == Image && z !in recent ==> y.createdAt >= z.createdAt
  {
    TopSpec(Recency, Images(rows), DedupWindow);
    RecentAreImages(rows);
    RecentAllWhenFew(rows);
    RecentAreNewest(rows);
  }

  lemma RecentAllWhenFew(rows: seq<Row>)
    ensures |RecentImages(rows)| < DedupWindow ==> forall z :: z in rows && z.kind == Image ==> z in RecentImages(rows)
  {
    var imgs := Images(rows);
    var recent := RecentImages(rows);
    TopSpec(Recency, imgs, DedupWindow);
    if |recent| < DedupWindow {
      var rest := multiset(imgs) - multiset(recent);
      assert multiset(imgs) == multiset(recent) + rest;
      assert |rest| == 0;
      forall z | z in rows && z.kind == Image ensures z in recent {
        assert z in multiset(imgs);
        assert z !in rest;
        assert z in multiset(recent);
      }
    }
  }

  lemma RecentAreImages(rows: seq<Row>)
    ensures forall x :: x in RecentImages(rows) ==> x in rows && x.kind == Image
  {
    var imgs := Images(rows);
    var recent := RecentImages(rows);
    TopSpec(Recency, imgs, DedupWindow);
    forall x | x in recent ensures x in imgs {
      assert x in multiset(recent);
    }
  }

  lemma RecentAreNewest(rows: seq<Row>)
    ensures forall y, z :: y in RecentImages(rows) && z in rows && z.kind == Image && z !in RecentImages(rows) ==>
              y.createdAt >= z.createdAt
  {
    var imgs := Images(rows);
    var recent := RecentImages(rows);
    TopSpec(Recency, imgs, DedupWindow);
    forall y, z | y in recent && z in rows && z.kind == Image && z !in recent ensures y.createdAt >= z.createdAt {
      assert z in imgs;
      assert z !in multiset(recent);
      assert z in multiset(imgs) - multiset(recent);
      assert Ahead(Recency, y, z);
    }
  }

  /** A refused image URL leaves the store as it was; an accepted one keeps it valid. */
  lemma InsertedImageValid(rows: seq<Row>, url: string, id: string, now: int)
    requires ValidRows(rows) && FreshId(rows, id)
    ensures !AcceptsImage(url) ==> InsertedImage(rows, url, id, now) == rows
    ensures ValidRows(InsertedImage(rows, url, id, now))
  {
    if AcceptsImage(url) {
      var n := NewRow(id, Image, None, Some(url), now);
      var recent := RecentImages(rows);
      assert WellFormed(n);
      match FirstMatch(recent, Signature(url))
      case None =>
        ValidSnoc(rows, n);
      case Some(k) =>
        RecentImagesSpec(rows);
        assert recent[k] in recent;
        WithoutIdValid(rows, recent[k].id);
        ValidSnoc(WithoutId(rows, recent[k].id), n);
    }
  }

  /** With no recent image of the same head and length, the new image is appended and nothing is removed. */
  lemma InsertedImageAppends(rows: seq<Row>, url: string, id: string, now: int)
    requires AcceptsImage(url)
    requires forall x :: x in RecentImages(rows) ==> !SameHead(x, url)
    ensures InsertedImage(rows, url, id, now) == rows + [Row(id, Image, None, Some(url), now, 0, Encoded([]))]
  {
    FirstMatchHead(RecentImages(rows), url);
  }

  /**
   * Otherwise exactly one row is removed: the first recent image, in recency
   * order, with the same head and length. The new row is appended and every
   * other row is kept.
   */
  lemma InsertedImageReplaces(rows: seq<Row>, url: string, id: string, now: int, k: nat)
    requires ValidRows(rows) && AcceptsImage(url)
    requires k < |RecentImages(rows)| && SameHead(RecentImages(rows)[k], url)
    requires forall j :: 0 <= j < k ==> !SameHead(RecentImages(rows)[j], url)
    ensures var e := RecentImages(rows)[k];
      && e in rows && e.kind == Image
      && multiset(InsertedImage(rows, url, id, now))
         == multiset(rows) - multiset{e} + multiset{Row(id, Image, None, Some(url), now, 0, Encoded([]))}
  {
    var recent := RecentImages(rows);
    FirstMatchHead(recent, url);
    RecentImagesSpec(rows);
    assert recent[k] in recent;
    var m := FirstMatch(recent, Signature(url));
    if m.None? {
      assert false;
    } else if m.value < k {
      assert false;
    } else if m.value > k {
      assert false;
    }
    WithoutPresentId(rows, recent[k]);
  }

  // ------------------------------------------------------- per-id updates

  /** `UPDATE clips SET pinned=? WHERE id=?` */
  function SetPinned(rows: seq<Row>, id: string, pinned: int): (r: seq<Row>)
    ensures |r| == |rows|
    ensures forall i :: 0 <= i < |rows| ==> r[i] == if rows[i].id == id then rows[i].(pinned := pinned) else rows[i]
  {
    seq(|rows|, i requires 0 <= i < |rows| => if rows[i].id == id then rows[i].(pinned := pinned) else rows[i])
  }

  /** The toggle-pin handler: read the row's pin, then write `pinned ? 0 : 1` (1 when no row has the id). */
  function PinToggled(rows: seq<Row>, id: string): seq<Row> {
    var next := match FindRow(rows, id)
      case Some(r) => if r.pinned != 0 then 0 else 1
      case None => 1;
    SetPinned(rows, id, next)
  }

  /** `UPDATE clips SET tagsJson=? WHERE id=?` */
  function TagsSet(rows: seq<Row>, id: string, tags: seq<string>): (r: seq<Row>)
    ensures |r| == |rows|
    ensures forall i :: 0 <= i < |rows| ==> r[i] == if rows[i].id == id then rows[i].(tagsJson := Encoded(tags)) else rows[i]
  {
    seq(|rows|, i requires 0 <= i < |rows| => if rows[i].id == id then rows[i].(tagsJson := Encoded(tags)) else rows[i])
  }

  /** Toggling flips 0 and 1 on the row with that id and on no other row; an unknown id changes nothing. */
  lemma PinToggledSpec(rows: seq<Row>, id: string)
    requires ValidRows(rows)
    ensures var r := PinToggled(rows, id);
      && ValidRows(r)
      && |r| == |rows|
      && forall i :: 0 <= i < |rows| ==>
           r[i] == if rows[i].id == id then rows[i].(pinned := 1 - rows[i].pinned) else rows[i]
  {
    var r := PinToggled(rows, id);
    forall i | 0 <= i < |rows| && rows[i].id == id ensures r[i] == rows[i].(pinned := 1 - rows[i].pinned) {
      var e := FindRow(rows, id).value;
      var j :| 0 <= j < |rows| && rows[j] == e;
      assert i == j;
    }
    forall i, j | 0 <= i < j < |r| ensures Compatible(r[i], r[j]) {
      assert Compatible(rows[i], rows[j]);
    }
    assert forall i :: 0 <= i < |r| ==> WellFormed(rows[i]);
  }

  /** Toggling the pin twice restores the store. */
  lemma {:induction false} PinToggledTwice(rows: seq<Row>, id: string)
    requires ValidRows(rows)
    ensures PinToggled(PinToggled(rows, id), id) == rows
  {
    PinToggledSpec(rows, id);
    var once := PinToggled(rows, id);
    PinToggledSpec(once, id);
    var twice := PinToggled(once, id);
    forall i | 0 <= i < |rows| ensures twice[i] == rows[i] {
      assert WellFormed(rows[i]);
    }
  }

  /** Setting tags keeps the store valid (`TagsSet` itself says only that row's tags change). */
  lemma TagsSetValid(rows: seq<Row>, id: string, tags: seq<string>)
    requires ValidRows(rows)
    ensures ValidRows(TagsSet(rows, id, tags))
  {
    var r := TagsSet(rows, id, tags);
    forall i, j | 0 <= i < j < |r| ensures Compatible(r[i], r[j]) {
      assert Compatible(rows[i], rows[j]);
    }
    assert forall i :: 0 <= i < |r| ==> WellFormed(rows[i]);
  }
}
