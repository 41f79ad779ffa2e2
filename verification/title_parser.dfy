/**
 * `parseTitle` of src/goodreads-sync.utils.ts (Current), the older
 * `parseTitle` of src/goodreads-sync.ts (Legacy), and the matching rule of
 * `findBookFile`.
 */
module TitleParser {
  import opened Wrappers
  import opened Text
  import opened TitlePattern
  import TitlePatternProofs

  /** The parsed title of src/goodreads-sync.utils.ts. */
  datatype ParsedTitle = ParsedTitle(
    title: string,
    fullTitle: string,
    subtitle: Option<string>,
    seriesName: Option<string>,
    seriesNumber: Option<string>)

  /** The parsed title of src/goodreads-sync.ts, which has no `fullTitle`. */
  datatype LegacyTitle = LegacyTitle(
    title: string,
    subtitle: Option<string>,
    seriesName: Option<string>,
    seriesNumber: Option<string>)

  /** What a call throws: `title.trim()` on an undefined `title`. */
  datatype JsError = TypeError

  /** The four capture groups of a match, before trimming. */
  datatype Groups = Groups(
    title: string,
    subtitle: Option<string>,
    seriesName: Option<string>,
    seriesNumber: Option<string>)

  /** The match the regex engine reports: valid, and no valid split is tried before it. */
  ghost predicate IsFirstSplit(d: Dialect, s: string, x: Split) {
    SplitValid(d, s, x) && forall y :: SplitValid(d, s, y) ==> SplitNoLater(d, x, y)
  }

  /** The text each group of a valid split captures. */
  function GroupsOf(d: Dialect, s: string, x: Split): (g: Groups)
    requires SplitValid(d, s, x)
  {
    Groups(
      s[..x.titleEnd],
      match x.subtitle
      case Some(sub) => Some(s[sub.start..sub.end])
      case None => None,
      match x.tail.series
      case Some(ser) => Some(s[x.tail.seriesAt + 1..ser.nameEnd])
      case None => None,
      match x.tail.series
      case Some(SeriesSpan(_, Some(n))) => Some(s[n.start..|s| - 1])
      case _ => None)
  }

  /** `value?.trim()`. */
  function TrimOptional(o: Option<string>): (r: Option<string>)
    ensures r.Some? <==> o.Some?
    ensures r.Some? ==> IsTrimmed(r.value, JsSpace)
  {
    match o
    case Some(v) => Some(JsTrim(v))
    case None => None
  }

  /** An optional field is absent or has no surrounding whitespace. */
  predicate OptionTrimmed(o: Option<string>) {
    o.Some? ==> IsTrimmed(o.value, JsSpace)
  }

  /** The current `parseTitle`'s result for a given match. */
  function ParsedFrom(s: string, x: Split): ParsedTitle
    requires SplitValid(Current, s, x)
  {
    var g := GroupsOf(Current, s, x);
    ParsedTitle(JsTrim(g.title), s, TrimOptional(g.subtitle), TrimOptional(g.seriesName), TrimOptional(g.seriesNumber))
  }

  /** The older `parseTitle`'s result for a given match. */
  function LegacyFrom(s: string, x: Split): LegacyTitle
    requires SplitValid(Legacy, s, x)
  {
    var g := GroupsOf(Legacy, s, x);
    LegacyTitle(JsTrim(g.title), TrimOptional(g.subtitle), TrimOptional(g.seriesName), TrimOptional(g.seriesNumber))
  }

  /** `parseTitle` of src/goodreads-sync.utils.ts.  When the pattern does not
      match, destructuring `null ?? []` leaves `title` undefined and
      `title.trim()` throws. */
  function ParseTitle(fullTitle: string): (r: Result<ParsedTitle, JsError>)
    ensures r.Failure? <==> forall x :: !SplitValid(Current, fullTitle, x)
    ensures r.Success? ==> exists x :: IsFirstSplit(Current, fullTitle, x) && r.value == ParsedFrom(fullTitle, x)
    ensures r.Success? ==> r.value.fullTitle == fullTitle
    ensures r.Success? ==> IsTrimmed(r.value.title, JsSpace)
    ensures r.Success? ==> OptionTrimmed(r.value.subtitle) && OptionTrimmed(r.value.seriesName)
                             && OptionTrimmed(r.value.seriesNumber)
  {
    TitlePatternProofs.MatchIsFirst(Current, fullTitle);
    match Match(Current, fullTitle)
    case None => Failure(TypeError)
    case Some(x) =>
      assert IsFirstSplit(Current, fullTitle, x);
      Success(ParsedFrom(fullTitle, x))
  }

  /** `parseTitle` reports the groups of the split the search finds. */
  lemma ParseTitleOfMatch(s: string, x: Split)
    requires Match(Current, s) == Some(x)
    ensures SplitValid(Current, s, x) && ParseTitle(s) == Success(ParsedFrom(s, x))
  {
    TitlePatternProofs.MatchIsFirst(Current, s);
  }

  /** The older `parseTitle` of src/goodreads-sync.ts: total, falling back to
      the trimmed input as the title when the pattern does not match. */
  function ParseTitleLegacy(fullTitle: string): (r: LegacyTitle)
    ensures (forall x :: !SplitValid(Legacy, fullTitle, x)) ==> r == LegacyTitle(JsTrim(fullTitle), None, None, None)
    ensures (exists x :: SplitValid(Legacy, fullTitle, x)) ==>
      exists x :: IsFirstSplit(Legacy, fullTitle, x) && r == LegacyFrom(fullTitle, x)
    ensures IsTrimmed(r.title, JsSpace)
    ensures OptionTrimmed(r.subtitle) && OptionTrimmed(r.seriesName) && OptionTrimmed(r.seriesNumber)
  {
    TitlePatternProofs.MatchIsFirst(Legacy, fullTitle);
    match Match(Legacy, fullTitle)
    case None => LegacyTitle(JsTrim(fullTitle), None, None, None)
    case Some(x) =>
      assert IsFirstSplit(Legacy, fullTitle, x);
      LegacyFrom(fullTitle, x)
  }

  /** The older `parseTitle` reports the groups of the split the search
      finds. */
  lemma ParseTitleLegacyOfMatch(s: string, x: Split)
    requires Match(Legacy, s) == Some(x)
    ensures SplitValid(Legacy, s, x) && ParseTitleLegacy(s) == LegacyFrom(s, x)
  {
    TitlePatternProofs.MatchIsFirst(Legacy, s);
  }

  /** The file-name test inside `findBookFile`. */
  predicate IsBookFile(file: string, title: string) {
    EndsWith(file, ".md") && Includes(file, title)
  }

  /** `files.some(...)` of `findBookFile`, given the directory listing. */
  function AnyBookFile(files: seq<string>, title: string): (found: bool)
    ensures found <==> exists i :: 0 <= i < |files| && IsBookFile(files[i], title)
  {
    if |files| == 0 then false
    else if IsBookFile(files[0], title) then true
    else
      var rest := AnyBookFile(files[1..], title);
      assert rest <==> exists i :: 1 <= i < |files| && IsBookFile(files[i], title) by {
        if rest {
          var i :| 0 <= i < |files[1..]| && IsBookFile(files[1..][i], title);
          assert IsBookFile(files[i + 1], title);
        }
        if exists i :: 1 <= i < |files| && IsBookFile(files[i], title) {
          var i :| 1 <= i < |files| && IsBookFile(files[i], title);
          assert IsBookFile(files[1..][i - 1], title);
        }
      }
      rest
  }

  /** `findBookFile(title, vaultPath)` with the listing of `vaultPath` given as
      `files`: some markdown file name contains the parsed title. */
  function FindBookFile(title: string, files: seq<string>): (found: bool)
    ensures found <==> exists i :: 0 <= i < |files| && EndsWith(files[i], ".md")
                                  && Includes(files[i], ParseTitleLegacy(title).title)
  {
    AnyBookFile(files, ParseTitleLegacy(title).title)
  }

  /** A note named after the title searched for, with `.md` appended, is
      found; so `findBookFile` finds the note named after the older parser's
      title. */
  lemma NamedNoteFound(files: seq<string>, title: string, i: nat)
    requires i < |files| && files[i] == title + ".md"
    ensures AnyBookFile(files, title)
  {
    assert files[i][..|title|] == title;
    assert OccursAt(files[i], title, 0);
  }

  /** More files never hide a match: the search is monotone in the listing. */
  lemma BookFileSearchGrows(files: seq<string>, more: seq<string>, title: string)
    requires AnyBookFile(files, title)
    ensures AnyBookFile(files + more, title) && AnyBookFile(more + files, title)
  {
    var i :| 0 <= i < |files| && IsBookFile(files[i], title);
    assert (files + more)[i] == files[i];
    assert (more + files)[|more| + i] == files[i];
  }

  // ---------------------------------------------------------------------------
  // Properties of the parsed fields.
  // ---------------------------------------------------------------------------

  lemma DecimalIsTrimmed(t: string)
    requires IsDecimal(t)
    ensures IsTrimmed(t, JsSpace)
  {
    if !IsDigits(t) {
      var k :| 0 < k < |t| - 1 && t[k] == '.' && IsDigits(t[..k]) && IsDigits(t[k + 1..]);
      assert t[0] == t[..k][0];
      assert t[|t| - 1] == t[k + 1..][|t| - k - 2];
    }
  }

  /** In any match the series-name group avoids the excluded character of
      its dialect and the number group has the dialect's number syntax; both
      survive trimming. */
  lemma SeriesGroupsShape(d: Dialect, s: string, x: Split)
    requires SplitValid(d, s, x)
    ensures var g := GroupsOf(d, s, x);
      && (g.seriesName.Some? ==> Excluded(d) !in JsTrim(g.seriesName.value))
      && (g.seriesNumber.Some? ==> IsSeriesNumber(d, g.seriesNumber.value)
                                   && JsTrim(g.seriesNumber.value) == g.seriesNumber.value)
  {
    NameGroupShape(d, s, x);
    NumberGroupShape(d, s, x);
  }

  lemma NameGroupShape(d: Dialect, s: string, x: Split)
    requires SplitValid(d, s, x)
    ensures var g := GroupsOf(d, s, x);
      g.seriesName.Some? ==> Excluded(d) !in JsTrim(g.seriesName.value)
  {
    if x.tail.series.Some? {
      var ser := x.tail.series.value;
      SeriesOfSplit(d, s, x);
      assert GroupsOf(d, s, x).seriesName == Some(s[x.tail.seriesAt + 1..ser.nameEnd]);
      NameSliceShape(d, s, x.tail.seriesAt + 1, ser.nameEnd);
    }
  }

  lemma NumberGroupShape(d: Dialect, s: string, x: Split)
    requires SplitValid(d, s, x)
    ensures var g := GroupsOf(d, s, x);
      g.seriesNumber.Some? ==> IsSeriesNumber(d, g.seriesNumber.value) && JsTrim(g.seriesNumber.value) == g.seriesNumber.value
  {
    if x.tail.series.Some? && x.tail.series.value.number.Some? {
      SeriesOfSplit(d, s, x);
      var t := s[x.tail.series.value.number.value.start..|s| - 1];
      assert GroupsOf(d, s, x).seriesNumber == Some(t);
      NumberSliceShape(d, t);
    }
  }

  /** A split with a parenthetical has a valid parenthetical. */
  lemma SeriesOfSplit(d: Dialect, s: string, x: Split)
    requires SplitValid(d, s, x) && x.tail.series.Some?
    ensures SeriesValid(d, s, x.tail.seriesAt, x.tail.series.value)
  {
  }

  /** The character a series name may not contain. */
  function Excluded(d: Dialect): (c: char)
    ensures NameClass(d) == Except(c)
  {
    match d
    case Current => '#'
    case Legacy => ','
  }

  /** Trimming a run of name characters leaves no excluded character. */
  lemma NameSliceShape(d: Dialect, s: string, a: nat, e: nat)
    requires a <= e <= |s| && AllIn(s, a, e, NameClass(d))
    ensures Excluded(d) !in JsTrim(s[a..e])
  {
    var name := s[a..e];
    assert Excluded(d) !in name by {
      forall k | 0 <= k < |name| ensures name[k] != Excluded(d) {
        assert name[k] == s[a + k];
      }
    }
    TrimKeepsOnlyInputChars(name, JsSpace, Excluded(d));
  }

  /** A series number has no whitespace to trim. */
  lemma NumberSliceShape(d: Dialect, t: string)
    requires IsSeriesNumber(d, t)
    ensures JsTrim(t) == t
  {
    DecimalIsTrimmed(t);
    TrimTrimmed(t, JsSpace);
  }

  lemma MatchedShape(s: string, x: Split)
    requires SplitValid(Current, s, x)
    ensures var r := ParsedFrom(s, x);
      && (r.seriesNumber.Some? ==> IsDecimal(r.seriesNumber.value))
      && (r.seriesName.Some? ==> '#' !in r.seriesName.value)
  {
    var r := ParsedFrom(s, x);
    SeriesGroupsShape(Current, s, x);
    var g := GroupsOf(Current, s, x);
    if g.seriesName.Some? {
      var n := JsTrim(g.seriesName.value);
      assert r.seriesName == Some(n);
    }
    if g.seriesNumber.Some? {
      assert r.seriesNumber == Some(g.seriesNumber.value);
      assert IsSeriesNumber(Current, g.seriesNumber.value);
    }
  }

  /** A series number is one or more digits, possibly with a decimal part,
      and a series name has no `#`. */
  lemma SeriesFieldsShape(s: string)
    ensures ParseTitle(s).Success? ==>
      var p := ParseTitle(s).value;
      && (p.seriesNumber.Some? ==> IsDecimal(p.seriesNumber.value))
      && (p.seriesName.Some? ==> '#' !in p.seriesName.value)
  {
    TitlePatternProofs.MatchIsFirst(Current, s);
    if Match(Current, s).Some? {
      var x := Match(Current, s).value;
      ParseTitleOfMatch(s, x);
      MatchedShape(s, x);
    }
  }

  /** Without a line terminator the pattern always matches (the title group
      can take the whole input), so `parseTitle` does not throw. */
  lemma ParseTitleTotalWithoutLineBreaks(s: string)
    requires forall k :: 0 <= k < |s| ==> !IsJsLineTerminator(s[k])
    ensures ParseTitle(s).Success?
  {
    assert SplitValid(Current, s, Split(|s|, None, TailSpan(|s|, None)));
  }

  lemma LegacyMatchedShape(s: string, x: Split)
    requires SplitValid(Legacy, s, x)
    ensures var r := LegacyFrom(s, x);
      && (r.seriesNumber.Some? ==> IsDigits(r.seriesNumber.value))
      && (r.seriesName.Some? ==> ',' !in r.seriesName.value)
  {
    var r := LegacyFrom(s, x);
    SeriesGroupsShape(Legacy, s, x);
    var g := GroupsOf(Legacy, s, x);
    if g.seriesName.Some? {
      var n := JsTrim(g.seriesName.value);
      assert r.seriesName == Some(n);
    }
    if g.seriesNumber.Some? {
      assert r.seriesNumber == Some(g.seriesNumber.value);
      assert IsSeriesNumber(Legacy, g.seriesNumber.value);
    }
  }

  /** The older parser: a series name has no comma and a series number is
      digits only. */
  lemma LegacySeriesFieldsShape(s: string)
    ensures var p := ParseTitleLegacy(s);
      && (p.seriesNumber.Some? ==> IsDigits(p.seriesNumber.value))
      && (p.seriesName.Some? ==> ',' !in p.seriesName.value)
  {
    TitlePatternProofs.MatchIsFirst(Legacy, s);
    if Match(Legacy, s).Some? {
      var x := Match(Legacy, s).value;
      assert ParseTitleLegacy(s) == LegacyFrom(s, x);
      LegacyMatchedShape(s, x);
    } else {
      assert ParseTitleLegacy(s) == LegacyTitle(JsTrim(s), None, None, None);
    }
  }

  /** In the older pattern the number group starts with a comma, so a number
      is captured only when a comma ends the series name. */
  lemma LegacyNumberFollowsComma(s: string)
    requires ParseTitleLegacy(s).seriesNumber.Some?
    ensures exists x :: IsFirstSplit(Legacy, s, x) && x.tail.series.Some? && x.tail.series.value.number.Some?
                        && s[x.tail.series.value.nameEnd] == ','
  {
    TitlePatternProofs.MatchIsFirst(Legacy, s);
    var x := Match(Legacy, s).value;
    assert IsFirstSplit(Legacy, s, x);
  }
}
