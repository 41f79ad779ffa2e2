/**
 * `updateFrontmatter` of src/goodreads-sync.utils.ts: the metadata record of a
 * book note, built fresh from one row of the Goodreads export and then merged
 * with the record the note already has.
 *
 * The merge follows es-toolkit's `mergeWith` at the top level: for every key
 * of the existing record the customizer is asked first; when it returns
 * nothing, the existing value replaces the fresh one.  The library's deeper
 * merging of arrays and nested objects is not part of this model.
 */
module Frontmatter {
  import opened Wrappers
  import opened Text
  import opened JsValue
  import opened TitleParser

  /** A note's frontmatter: its top-level keys and their values. */
  type Record = map<string, Value>

  /** One row of the Goodreads export, keyed by the CSV header names. */
  type Row = map<string, string>

  /** Every column of the Goodreads export has a value in `row`. */
  predicate IsBookRow(row: Row) {
    && "Book Id" in row && "Title" in row && "Author" in row && "Author l-f" in row
    && "Additional Authors" in row && "ISBN" in row && "ISBN13" in row && "My Rating" in row
    && "Average Rating" in row && "Publisher" in row && "Binding" in row
    && "Number of Pages" in row && "Year Published" in row && "Original Publication Year" in row
    && "Date Read" in row && "Date Added" in row && "Bookshelves" in row
    && "Bookshelves with positions" in row && "Exclusive Shelf" in row && "My Review" in row
    && "Spoiler" in row && "Private Notes" in row && "Read Count" in row && "Owned Copies" in row
  }

  // ---------------------------------------------------------------------------
  // The fresh record.
  // ---------------------------------------------------------------------------

  const UrlPrefix: string := "https://www.goodreads.com/book/show/"

  /** The keys of every fresh record. */
  const FreshKeys: set<string> := {
    "aliases", "tags", "categories", "url", "title", "subtitle", "series-name",
    "series-number", "author", "shelf", "rating", "length", "year", "read-last",
    "read-count", "topics"}

  /** An Obsidian link to the note called `name`. */
  function WikiLink(name: string): string {
    "[[" + name + "]]"
  }

  /** An optional field as JavaScript stores it: the string or `undefined`. */
  function OptionalStr(o: Option<string>): (v: Value)
    ensures v.Str? <==> o.Some?
    ensures v.Str? ==> v.s == o.value
    ensures o.None? ==> v.Undefined?
  {
    match o
    case Some(s) => Str(s)
    case None => Undefined
  }

  /** The author link, then the additional authors' link when that column is
      not empty. */
  function Authors(author: string, additional: string): (r: seq<Value>)
    ensures |r| == if additional == "" then 1 else 2
    ensures r[0] == Str(WikiLink(author))
    ensures additional != "" ==> r[1] == Str(WikiLink(additional))
  {
    [Str(WikiLink(author))] + (if additional != "" then [Str(WikiLink(additional))] else [])
  }

  /** The date read with its slashes turned into dashes; empty when the book
      has not been read. */
  function ReadLast(dateRead: string): (r: string)
    ensures |r| == |dateRead|
    ensures forall k :: 0 <= k < |r| ==> r[k] == if dateRead[k] == '/' then '-' else dateRead[k]
  {
    if dateRead != "" then ReplaceAll(dateRead, '/', '-') else ""
  }

  /** The value the export row gives `key` in a fresh record; `undefined`
      for the keys a fresh record does not have. */
  function FreshValue(row: Row, p: ParsedTitle, key: string): Value
    requires IsBookRow(row)
  {
    if key == "aliases" then List([])
    else if key == "tags" then List([Str("books")])
    else if key == "categories" then List([Str("[[Books]]")])
    else if key == "url" then Str(UrlPrefix + row["Book Id"])
    else if key == "title" then Str(p.title)
    else if key == "subtitle" then OptionalStr(p.subtitle)
    else if key == "series-name" then OptionalStr(p.seriesName)
    else if key == "series-number" then OptionalStr(p.seriesNumber)
    else if key == "author" then List(Authors(row["Author"], row["Additional Authors"]))
    else if key == "shelf" then Str(row["Exclusive Shelf"])
    else if key == "rating" then ParseInt(row["My Rating"])
    else if key == "length" then ParseInt(row["Number of Pages"])
    else if key == "year" then ParseInt(row["Original Publication Year"])
    else if key == "read-last" then Str(ReadLast(row["Date Read"]))
    else if key == "read-count" then ParseInt(if row["Read Count"] != "" then row["Read Count"] else "0")
    else if key == "topics" then List([])
    else Undefined
  }

  /** The record built from the export row alone, before the merge. */
  function FreshRecord(row: Row, p: ParsedTitle): (r: Record)
    requires IsBookRow(row)
    ensures r.Keys == FreshKeys
  {
    map k | k in FreshKeys :: FreshValue(row, p, k)
  }

  // ---------------------------------------------------------------------------
  // The merge.
  // ---------------------------------------------------------------------------

  /** A value the customizer treats as empty: `null`, `undefined`, `""` or
      `[]`. */
  predicate IsBlank(v: Value) {
    v.Null? || v.Undefined? || v == Str("") || v == List([])
  }

  /** The words of a space-separated tag string, as `split(" ")` gives them. */
  function Words(s: string): (r: seq<Value>)
    ensures |r| >= 1
  {
    var parts := Split(s, ' ');
    seq(|parts|, i requires 0 <= i < |parts| => Str(parts[i]))
  }

  /** The customizer's answer for `key`, given the fresh value `target` and
      the existing value `source`; `Undefined` when it returns nothing. */
  function Customize(key: string, target: Value, source: Value): Value {
    if key == "shelf" then target
    else if key == "tags" && source.Str? && target.List? then List(Dedupe(Words(source.s) + target.items))
    else if key == "rating" then ParseInt(JsString(target))
    else if IsBlank(source) then target
    else Undefined
  }

  /** What the merge stores under a key of the existing record: the
      customizer's answer, or the existing value when there is none. */
  function MergeValue(key: string, target: Value, source: Value): Value {
    var c := Customize(key, target, source);
    if c.Undefined? then source else c
  }

  /** The value of `key` in `m`, `undefined` when it has none. */
  function Lookup(m: Record, key: string): Value {
    if key in m then m[key] else Undefined
  }

  /** The merged record, key by key: the keys of the existing record take the
      merged value, the others keep the value `built` gives them. */
  function Merge(built: Record, existing: Record): (r: Record)
    ensures r.Keys == built.Keys + existing.Keys
  {
    map k | k in built.Keys + existing.Keys ::
      if k in existing then MergeValue(k, Lookup(built, k), existing[k]) else built[k]
  }

  /** `keys` lists the keys of `m`, each once: what `Object.keys(m)` gives. */
  predicate IsKeyOrder(keys: seq<string>, m: Record) {
    (forall i :: 0 <= i < |keys| ==> keys[i] in m)
    && (forall k :: k in m ==> k in keys)
    && (forall i, j :: 0 <= i < j < |keys| ==> keys[i] != keys[j])
  }

  /** `r` is `target` with the keys in `done` already merged from `source`. */
  predicate PartlyMerged(r: Record, target: Record, source: Record, done: set<string>)
    requires done <= source.Keys
  {
    && r.Keys == target.Keys + done
    && forall k :: k in r ==> r[k] == (if k in done then MergeValue(k, Lookup(target, k), source[k]) else target[k])
  }

  /** Merging one more key keeps the record partly merged. */
  lemma MergeStep(r: Record, target: Record, source: Record, done: set<string>, key: string)
    requires done <= source.Keys && key in source && key !in done
    requires PartlyMerged(r, target, source, done)
    ensures PartlyMerged(r[key := MergeValue(key, Lookup(r, key), source[key])], target, source, done + {key})
  {
    assert Lookup(r, key) == Lookup(target, key);
  }

  /** Once every key of `source` is merged, the record is `Merge`. */
  lemma MergeDone(r: Record, target: Record, source: Record)
    requires PartlyMerged(r, target, source, source.Keys)
    ensures r == Merge(target, source)
  {
  }

  /** The merge as the library performs it: a walk over the existing keys in
      their enumeration order, overwriting the target in place.  Whatever
      that order, the result is `Merge`. */
  method MergeWith(target: Record, source: Record, keys: seq<string>) returns (r: Record)
    requires IsKeyOrder(keys, source)
    ensures r == Merge(target, source)
  {
    r := target;
    ghost var done: set<string> := {};
    var i := 0;
    while i < |keys|
      invariant 0 <= i <= |keys| && done <= source.Keys
      invariant PartlyMerged(r, target, source, done)
      invariant forall j :: 0 <= j < i ==> keys[j] in done
      invariant forall j :: i <= j < |keys| ==> keys[j] !in done
    {
      var key := keys[i];
      MergeStep(r, target, source, done, key);
      r := r[key := MergeValue(key, Lookup(r, key), source[key])];
      done := done + {key};
      i := i + 1;
    }
    assert source.Keys <= done;
    MergeDone(r, target, source);
  }

  /** What `updateFrontmatter` returns once the title has been parsed as
      `p`: the fresh record merged with the note's frontmatter. */
  function UpdateWithTitle(row: Row, p: ParsedTitle, existing: Record): (r: Record)
    requires IsBookRow(row)
    ensures r.Keys == FreshKeys + existing.Keys
  {
    Merge(FreshRecord(row, p), existing)
  }

  /** `updateFrontmatter(book, existingData)`: fails exactly when the title
      parser throws, and otherwise holds the fresh keys and the note's. */
  function UpdateFrontmatter(row: Row, existing: Record): (r: Result<Record, JsError>)
    requires IsBookRow(row)
    ensures r.Failure? <==> ParseTitle(row["Title"]).Failure?
    ensures r.Success? ==> r.value.Keys == FreshKeys + existing.Keys
    ensures r.Success? ==> r.value == UpdateWithTitle(row, ParseTitle(row["Title"]).value, existing)
  {
    match ParseTitle(row["Title"])
    case Failure(e) => Failure(e)
    case Success(p) => Success(UpdateWithTitle(row, p, existing))
  }

  // ---------------------------------------------------------------------------
  // What the fresh record holds.
  // ---------------------------------------------------------------------------

  /** The url is the book's Goodreads page: the fixed prefix, then the book
      id. */
  lemma FreshUrl(row: Row, p: ParsedTitle)
    requires IsBookRow(row)
    ensures var u := FreshRecord(row, p)["url"];
      u.Str? && StartsWith(u.s, UrlPrefix) && u.s[|UrlPrefix|..] == row["Book Id"]
  {
    var u := UrlPrefix + row["Book Id"];
    assert u[..|UrlPrefix|] == UrlPrefix && u[|UrlPrefix|..] == row["Book Id"];
  }

  /** The author list links the author, and the additional authors exactly
      when that column is not empty. */
  lemma FreshAuthor(row: Row, p: ParsedTitle)
    requires IsBookRow(row)
    ensures var a := FreshRecord(row, p)["author"];
      && a.List?
      && |a.items| == (if row["Additional Authors"] == "" then 1 else 2)
      && a.items[0] == Str(WikiLink(row["Author"]))
      && (row["Additional Authors"] != "" ==> a.items[1] == Str(WikiLink(row["Additional Authors"])))
  {
  }

  /** `read-last` is the date read with every `/` turned into `-`, and empty
      when the date is. */
  lemma FreshReadLast(row: Row, p: ParsedTitle)
    requires IsBookRow(row)
    ensures var d := row["Date Read"];
      var v := FreshRecord(row, p)["read-last"];
      && v.Str? && |v.s| == |d| && '/' !in v.s
      && forall k :: 0 <= k < |d| ==> v.s[k] == (if d[k] == '/' then '-' else d[k])
  {
  }

  /** The title fields are the parser's, with `undefined` for the absent
      ones. */
  lemma FreshTitleFields(row: Row, p: ParsedTitle)
    requires IsBookRow(row)
    ensures var r := FreshRecord(row, p);
      && r["title"] == Str(p.title)
      && (r["subtitle"].Str? <==> p.subtitle.Some?) && (p.subtitle.Some? ==> r["subtitle"].s == p.subtitle.value)
      && (r["series-name"].Str? <==> p.seriesName.Some?) && (p.seriesName.Some? ==> r["series-name"].s == p.seriesName.value)
      && (r["series-number"].Str? <==> p.seriesNumber.Some?) && (p.seriesNumber.Some? ==> r["series-number"].s == p.seriesNumber.value)
  {
  }

  /** An empty read count reads as zero. */
  lemma FreshReadCount(row: Row, p: ParsedTitle)
    requires IsBookRow(row) && row["Read Count"] == ""
    ensures FreshRecord(row, p)["read-count"] == Int(0)
  {
    assert SkipWhile("0", 0, JsSpace) == 0;
    ParseIntRoundTrip(0);
  }

  /** An empty rating, page-count or publication-year column gives `NaN`. */
  lemma FreshEmptyNumbers(row: Row, p: ParsedTitle)
    requires IsBookRow(row)
    ensures var r := FreshRecord(row, p);
      && (row["My Rating"] == "" ==> r["rating"] == NaN)
      && (row["Number of Pages"] == "" ==> r["length"] == NaN)
      && (row["Original Publication Year"] == "" ==> r["year"] == NaN)
  {
    ParseIntEmpty();
  }

  // ---------------------------------------------------------------------------
  // What the merge keeps.
  // ---------------------------------------------------------------------------

  /** `shelf` always comes from the export, whatever the note held. */
  lemma ShelfAlwaysFresh(row: Row, p: ParsedTitle, existing: Record)
    requires IsBookRow(row)
    ensures UpdateWithTitle(row, p, existing)["shelf"] == Str(row["Exclusive Shelf"])
  {
    assert UpdateWithTitle(row, p, existing) == Merge(FreshRecord(row, p), existing);
  }

  /** `rating` always comes from the export, whatever the note held. */
  lemma RatingAlwaysFresh(row: Row, p: ParsedTitle, existing: Record)
    requires IsBookRow(row)
    ensures UpdateWithTitle(row, p, existing)["rating"] == ParseInt(row["My Rating"])
  {
    var f := FreshRecord(row, p);
    assert UpdateWithTitle(row, p, existing) == Merge(f, existing);
    ParseIntOfJsString(f["rating"]);
  }

  /** A tag string in the note is split on spaces and put before the fresh
      `books` tag, each tag kept at its first occurrence. */
  lemma TagsFromString(row: Row, p: ParsedTitle, existing: Record, tags: string)
    requires IsBookRow(row)
    requires "tags" in existing && existing["tags"] == Str(tags)
    ensures UpdateWithTitle(row, p, existing)["tags"] == List(FirstOccurrences(Words(tags) + [Str("books")]))
  {
    assert UpdateWithTitle(row, p, existing) == Merge(FreshRecord(row, p), existing);
    DedupeIsFirstOccurrences(Words(tags) + [Str("books")]);
  }

  /** A fresh key the note does not have keeps its fresh value. */
  lemma UntouchedKeepsFresh(row: Row, p: ParsedTitle, existing: Record, k: string)
    requires IsBookRow(row)
    requires k in FreshKeys && k !in existing
    ensures UpdateWithTitle(row, p, existing)[k] == FreshRecord(row, p)[k]
  {
    assert UpdateWithTitle(row, p, existing) == Merge(FreshRecord(row, p), existing);
  }

  /** A blank value in the note gives way to a defined fresh value (a blank
      tag string is split like any other). */
  lemma BlankTakesFresh(row: Row, p: ParsedTitle, existing: Record, k: string)
    requires IsBookRow(row)
    requires k in FreshKeys && k in existing && IsBlank(existing[k]) && !(k == "tags" && existing[k].Str?)
    requires !FreshRecord(row, p)[k].Undefined?
    ensures UpdateWithTitle(row, p, existing)[k] == FreshRecord(row, p)[k]
  {
    var f := FreshRecord(row, p);
    assert UpdateWithTitle(row, p, existing) == Merge(f, existing);
    if k == "rating" {
      ParseIntOfJsString(f[k]);
    }
  }

  /** Any other value the note holds survives the update. */
  lemma NoteValueKept(row: Row, p: ParsedTitle, existing: Record, k: string)
    requires IsBookRow(row)
    requires k in existing && k != "shelf" && k != "rating" && !(k == "tags" && existing[k].Str?)
    requires !IsBlank(existing[k]) || k !in FreshKeys || FreshRecord(row, p)[k].Undefined?
    ensures UpdateWithTitle(row, p, existing)[k] == existing[k]
  {
    assert UpdateWithTitle(row, p, existing) == Merge(FreshRecord(row, p), existing);
  }

  /** A merged value, merged again with the same fresh value, stays as it
      is, as long as a fresh rating is what `parseInt` returns or missing. */
  lemma MergeValueIdempotent(k: string, f: Value, e: Value)
    requires k == "rating" ==> f.Int? || f.NaN? || f.Undefined?
    ensures MergeValue(k, f, MergeValue(k, f, e)) == MergeValue(k, f, e)
    ensures !f.Undefined? ==> MergeValue(k, f, f) == f
  {
    if k == "rating" {
      if f.Undefined? {
        assert SkipWhile("undefined", 0, JsSpace) == 0;
      } else {
        ParseIntOfJsString(f);
      }
    } else if k == "tags" && e.Str? && f.List? {
      assert |Words(e.s)| >= 1;
      assert Dedupe(Words(e.s) + f.items) != [];
    }
  }

  /** Merging the same fresh record twice is merging it once. */
  lemma MergeIdempotent(f: Record, e: Record)
    requires "rating" in f ==> f["rating"].Int? || f["rating"].NaN?
    ensures Merge(f, Merge(f, e)) == Merge(f, e)
  {
    var m := Merge(f, e);
    var m' := Merge(f, m);
    forall k | k in m ensures m'[k] == m[k] {
      MergeValueIdempotent(k, Lookup(f, k), Lookup(e, k));
    }
  }

  /** The fresh rating is what `parseInt` returns. */
  lemma FreshRating(row: Row, p: ParsedTitle)
    requires IsBookRow(row)
    ensures var r := FreshRecord(row, p)["rating"]; r.Int? || r.NaN?
  {
  }

  /** Merging a note's frontmatter a second time with the same parsed row
      changes nothing. */
  lemma UpdateWithTitleIdempotent(row: Row, p: ParsedTitle, existing: Record)
    requires IsBookRow(row)
    ensures var m := UpdateWithTitle(row, p, existing); UpdateWithTitle(row, p, m) == m
  {
    var f := FreshRecord(row, p);
    FreshRating(row, p);
    MergeIdempotent(f, existing);
  }

  /** Updating a note a second time from the same row changes nothing. */
  lemma UpdateIdempotent(row: Row, existing: Record)
    requires IsBookRow(row)
    ensures UpdateFrontmatter(row, existing).Success? ==>
      UpdateFrontmatter(row, UpdateFrontmatter(row, existing).value) == UpdateFrontmatter(row, existing)
  {
    if ParseTitle(row["Title"]).Success? {
      UpdateWithTitleIdempotent(row, ParseTitle(row["Title"]).value, existing);
    }
  }
}
