/**
 * `getHistory(query)`: the 300 highest-ranked rows, pinned first and newest
 * first, turned into clips by `rowToClip`, then filtered by a case-insensitive
 * substring match on the text and the comma-joined tags.
 */
module History {
  import opened Options
  import opened JsStrings
  import opened Clips

  /** The `LIMIT` of the history query. */
  const HistoryLimit := 300

  /** `(it.text ?? "")` */
  function TextOf(c: ClipItem): string {
    match c.text case Some(t) => t case None => ""
  }

  /** The filter of `getHistory` for a trimmed, lower-cased, non-empty query `q`. */
  predicate Matches(c: ClipItem, q: string) {
    Includes(ToLower(TextOf(c)), q)
    || Includes(ToLower(JoinComma(c.tags)), q)
    || (c.kind == Image && q == "image")
  }

  /** `items.filter(...)`: the matching clips, in their order. */
  function Filter(items: seq<ClipItem>, q: string): (r: seq<ClipItem>)
    ensures forall x :: x in r <==> x in items && Matches(x, q)
    ensures |r| <= |items|
  {
    if items == [] then []
    else if Matches(items[0], q) then [items[0]] + Filter(items[1..], q)
    else Filter(items[1..], q)
  }

  /** `a` may be listed ahead of `b`: pinned first, and within the same pin state the newer first. */
  predicate RanksAhead(a: ClipItem, b: ClipItem) {
    PinnedFirst(a.pinned, a.createdAt, b.pinned, b.createdAt)
  }

  /** `a` is `b` with some elements left out, the rest in their order. */
  predicate Subsequence(a: seq<ClipItem>, b: seq<ClipItem>)
    decreases |b|
  {
    if a == [] then true
    else if b == [] then false
    else (a[0] == b[0] && Subsequence(a[1..], b[1..])) || Subsequence(a, b[1..])
  }

  /** On one clip the filter keeps it exactly when it matches. */
  lemma FilterSingle(x: ClipItem, q: string)
    ensures Filter([x], q) == if Matches(x, q) then [x] else []
  {
    assert [x][1..] == [];
  }

  /** The filter works clip by clip: filtering a concatenation concatenates the filtered parts. */
  lemma {:induction false} FilterConcat(a: seq<ClipItem>, b: seq<ClipItem>, q: string)
    ensures Filter(a + b, q) == Filter(a, q) + Filter(b, q)
  {
    if a == [] {
      assert a + b == b;
    } else {
      assert (a + b)[0] == a[0];
      assert (a + b)[1..] == a[1..] + b;
      FilterConcat(a[1..], b, q);
    }
  }

  /** The filter's result is a subsequence of its input: nothing reordered, nothing repeated. */
  lemma {:induction false} FilterSubsequence(items: seq<ClipItem>, q: string)
    ensures Subsequence(Filter(items, q), items)
  {
    if items != [] {
      FilterSubsequence(items[1..], q);
      var r := Filter(items, q);
      if Matches(items[0], q) {
        assert r[0] == items[0] && r[1..] == Filter(items[1..], q);
      } else if r != [] {
        assert r == Filter(items[1..], q);
      }
    }
  }

  /** Pinned clips first, and within the same pin state the newer clip first. */
  predicate Ordered(items: seq<ClipItem>) {
    forall i, j :: 0 <= i < j < |items| ==> RanksAhead(items[i], items[j])
  }

  /** `rows.map(rowToClip)` */
  function ToClips(rows: seq<Row>): (r: seq<ClipItem>)
    ensures |r| == |rows|
    ensures forall i :: 0 <= i < |rows| ==> r[i] == RowToClip(rows[i])
  {
    seq(|rows|, i requires 0 <= i < |rows| => RowToClip(rows[i]))
  }

  /** `SELECT * FROM clips ORDER BY pinned DESC, createdAt DESC LIMIT 300`, mapped by `rowToClip`. */
  function Ranked(rows: seq<Row>): seq<ClipItem> {
    ToClips(Top(PinnedThenRecency, rows, HistoryLimit))
  }

  /** `getHistory(query)` */
  function GetHistory(rows: seq<Row>, query: string): seq<ClipItem> {
    var q := ToLower(Trim(query));
    var ranked := Ranked(rows);
    if q == "" then ranked else Filter(ranked, q)
  }

  lemma OrderedCons(x: ClipItem, s: seq<ClipItem>)
    requires Ordered(s) && forall y :: y in s ==> RanksAhead(x, y)
    ensures Ordered([x] + s)
  {
    var xs := [x] + s;
    forall i, j | 0 <= i < j < |xs| ensures RanksAhead(xs[i], xs[j]) {
      assert xs[j] == s[j - 1];
      if i > 0 {
        assert xs[i] == s[i - 1];
      }
    }
  }

  lemma {:induction false} SubsequenceRefl(a: seq<ClipItem>)
    ensures Subsequence(a, a)
  {
    if a != [] {
      SubsequenceRefl(a[1..]);
    }
  }

  /** Filtering keeps the order of what it keeps. */
  lemma {:induction false} FilterOrdered(items: seq<ClipItem>, q: string)
    requires Ordered(items)
    ensures Ordered(Filter(items, q))
  {
    if items != [] {
      var tail := items[1..];
      assert Ordered(tail) by {
        forall i, j | 0 <= i < j < |tail| ensures RanksAhead(tail[i], tail[j]) {
          assert tail[i] == items[i + 1] && tail[j] == items[j + 1];
        }
      }
      FilterOrdered(tail, q);
      if Matches(items[0], q) {
        var rest := Filter(tail, q);
        forall y | y in rest ensures RanksAhead(items[0], y) {
          var k :| 0 <= k < |tail| && tail[k] == y;
          assert items[k + 1] == y;
        }
        OrderedCons(items[0], rest);
      }
    }
  }

  /** The ranked list holds min(|rows|, 300) clips, pinned first and newest first. */
  lemma RankedOrdered(rows: seq<Row>)
    ensures |Ranked(rows)| == if |rows| <= HistoryLimit then |rows| else HistoryLimit
    ensures Ordered(Ranked(rows))
  {
    TopSpec(PinnedThenRecency, rows, HistoryLimit);
  }

  /** Every ranked clip is made from a row of the store. */
  lemma RankedFromRows(rows: seq<Row>)
    ensures forall c :: c in Ranked(rows) ==> exists r :: r in rows && RowToClip(r) == c
  {
    var top := Top(PinnedThenRecency, rows, HistoryLimit);
    var ranked := Ranked(rows);
    TopSpec(PinnedThenRecency, rows, HistoryLimit);
    forall c | c in ranked ensures exists r :: r in rows && RowToClip(r) == c {
      var i :| 0 <= i < |ranked| && ranked[i] == c;
      assert top[i] in multiset(top);
    }
  }

  /** No row the limit leaves out ranks strictly ahead of a clip it keeps. */
  lemma RankedKeepsFirst(rows: seq<Row>)
    ensures forall c, z :: c in Ranked(rows) && z in multiset(rows) - multiset(Top(PinnedThenRecency, rows, HistoryLimit)) ==>
              RanksAhead(c, RowToClip(z))
  {
    var top := Top(PinnedThenRecency, rows, HistoryLimit);
    var ranked := Ranked(rows);
    TopSpec(PinnedThenRecency, rows, HistoryLimit);
    forall c, z | c in ranked && z in multiset(rows) - multiset(top)
      ensures RanksAhead(c, RowToClip(z))
    {
      var i :| 0 <= i < |ranked| && ranked[i] == c;
      var y := top[i];
      assert y in top;
      assert Ahead(PinnedThenRecency, y, z);
    }
  }

  /** With at most 300 rows, every row is listed. */
  lemma RankedListsAll(rows: seq<Row>)
    requires |rows| <= HistoryLimit
    ensures forall r :: r in rows ==> RowToClip(r) in Ranked(rows)
  {
    var top := Top(PinnedThenRecency, rows, HistoryLimit);
    var ranked := Ranked(rows);
    TopSpec(PinnedThenRecency, rows, HistoryLimit);
    assert |top| == |rows|;
    assert multiset(top) == multiset(rows) by {
      assert top == Sort(PinnedThenRecency, rows);
    }
    forall r | r in rows ensures RowToClip(r) in ranked {
      assert r in multiset(top);
      var i :| 0 <= i < |top| && top[i] == r;
      assert ranked[i] == RowToClip(r);
    }
  }

  /**
   * `getHistory` returns at most 300 clips, ordered; a blank query returns the
   * ranked list itself, any other query exactly the ranked clips that match
   * its trimmed, lower-cased form.
   */
  lemma GetHistorySpec(rows: seq<Row>, query: string)
    ensures var items := GetHistory(rows, query);
      && |items| <= HistoryLimit
      && Ordered(items)
      && (AllWhiteSpace(query) ==> items == Ranked(rows))
      && (!AllWhiteSpace(query) ==> forall x :: x in items <==> x in Ranked(rows) && Matches(x, ToLower(Trim(query))))
      && Subsequence(items, Ranked(rows))
  {
    FilterSubsequence(Ranked(rows), ToLower(Trim(query)));
    SubsequenceRefl(Ranked(rows));
    RankedOrdered(rows);
    TrimEmpty(query);
    LowerKeepsEmpty(Trim(query));
    FilterOrdered(Ranked(rows), ToLower(Trim(query)));
  }

  lemma ToLowerConcat(a: string, b: string)
    ensures ToLower(a + b) == ToLower(a) + ToLower(b)
  {
    assert forall i :: 0 <= i < |a| ==> (a + b)[i] == a[i];
    assert forall i :: 0 <= i < |b| ==> (a + b)[|a| + i] == b[i];
  }

  /** Searching for one of a clip's tags (in any letter case) finds the clip. */
  lemma TagQueryMatches(c: ClipItem, k: nat)
    requires k < |c.tags|
    ensures Matches(c, ToLower(c.tags[k]))
  {
    JoinHasPart(c.tags, k);
    var a, b :| JoinComma(c.tags) == a + c.tags[k] + b;
    ToLowerConcat(a + c.tags[k], b);
    ToLowerConcat(a, c.tags[k]);
    IncludesPart(ToLower(a), ToLower(c.tags[k]), ToLower(b));
  }

  /** The query "image" (in any case, with any surrounding blanks) lists every ranked image. */
  lemma ImageQueryListsImages(rows: seq<Row>, query: string)
    requires ToLower(Trim(query)) == "image"
    ensures forall c :: c in Ranked(rows) && c.kind == Image ==> c in GetHistory(rows, query)
  {
  }

  lemma ImageQueryIsImage()
    ensures ToLower(Trim("image")) == "image"
  {
    assert TrimStart("image") == "image";
    assert TrimEnd("image") == "image";
  }

  lemma AnImageMatches(c: ClipItem)
    requires c.text == Some("an image")
    ensures Filter([c], "image") == [c]
  {
    assert ToLower("an image")[3..8] == "image";
    assert OccursAt(ToLower("an image"), "image", 3);
    IncludesAt(ToLower("an image"), "image");
    assert TextOf(c) == "an image";
    assert [c][1..] == [];
  }

  lemma RankedSingle(r: Row)
    ensures Ranked([r]) == [RowToClip(r)]
  {
    assert [r][1..] == [];
    assert Sort(PinnedThenRecency, [r]) == [r];
  }

  /**
   * The query "image" is not a kind filter: a text clip whose text mentions
   * "image" is listed with the images.
   */
  lemma ImageQueryListsText(r: Row)
    requires r.kind == Text && r.text == Some("an image")
    ensures GetHistory([r], "image") == [RowToClip(r)] && RowToClip(r).kind == Text
  {
    RankedSingle(r);
    ImageQueryIsImage();
    AnImageMatches(RowToClip(r));
  }

  /** After `set-tags`, the history shows that clip with exactly the tags set, in their order. */
  lemma TagsSetThenHistory(rows: seq<Row>, id: string, tags: seq<string>)
    ensures var items := GetHistory(TagsSet(rows, id, tags), "");
      && (forall c :: c in items && c.id == id ==> c.tags == tags)
      && (|rows| <= HistoryLimit && FindRow(rows, id).Some? ==> exists c :: c in items && c.id == id)
  {
    var after := TagsSet(rows, id, tags);
    GetHistorySpec(after, "");
    TagsSetShowsTags(rows, id, tags);
    if |rows| <= HistoryLimit && FindRow(rows, id).Some? {
      TagsSetListsClip(rows, id, tags);
    }
  }

  /** Every listed clip with that id carries the new tags. */
  lemma TagsSetShowsTags(rows: seq<Row>, id: string, tags: seq<string>)
    ensures forall c :: c in Ranked(TagsSet(rows, id, tags)) && c.id == id ==> c.tags == tags
  {
    var after := TagsSet(rows, id, tags);
    RankedFromRows(after);
    forall c | c in Ranked(after) && c.id == id ensures c.tags == tags {
      var r :| r in after && RowToClip(r) == c;
    }
  }

  /** With at most 300 rows, the clip whose tags were set is listed. */
  lemma TagsSetListsClip(rows: seq<Row>, id: string, tags: seq<string>)
    requires |rows| <= HistoryLimit && FindRow(rows, id).Some?
    ensures exists c :: c in Ranked(TagsSet(rows, id, tags)) && c.id == id
  {
    var after := TagsSet(rows, id, tags);
    var e := FindRow(rows, id).value;
    var i :| 0 <= i < |rows| && rows[i] == e;
    assert after[i] in after;
    RankedListsAll(after);
    assert RowToClip(after[i]) in Ranked(after);
  }

}
