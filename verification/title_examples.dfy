/**
 * Titles built from well-formed parts parse back into those parts, and the
 * examples of src/goodreads-sync.utils.test.ts follow as instances.  The
 * older parser is shown on two of the same inputs, where it differs.
 */
module TitleExamples {
  import opened Wrappers
  import opened Text
  import opened TitlePattern
  import opened TitleParser
  import TitlePatternProofs

  // ---------------------------------------------------------------------------
  // Well-formed parts.
  // ---------------------------------------------------------------------------

  /** No `:`, no `(` and no line terminator: no subtitle or parenthetical can
      start inside the text. */
  predicate IsTitleChar(c: char) {
    c != ':' && c != '(' && JsDot.Has(c)
  }

  predicate TitleChars(t: string) {
    forall k :: 0 <= k < |t| ==> IsTitleChar(t[k])
  }

  /** A title or subtitle: nonempty, no surrounding whitespace, and no
      character that would end it early. */
  predicate TitleText(t: string) {
    |t| > 0 && TitleChars(t) && IsTrimmed(t, JsSpace)
  }

  /** No `#`, `)` or digit: no number part can start inside the text. */
  predicate IsNameChar(c: char) {
    c != '#' && c != ')' && !IsDigit(c)
  }

  predicate NameChars(n: string) {
    forall k :: 0 <= k < |n| ==> IsNameChar(n[k])
  }

  /** A series name the lazy name group stops right after. */
  predicate NameText(n: string) {
    |n| > 0 && NameChars(n) && IsTrimmed(n, JsSpace) && n[|n| - 1] != ','
  }

  /** The text between a series name and its number: separators, then `#`. */
  predicate NumberSep(sep: string) {
    |sep| > 0 && sep[|sep| - 1] == '#' && forall k :: 0 <= k < |sep| - 1 ==> SeriesSeparator.Has(sep[k])
  }

  lemma TitleCharsAppend(a: string, b: string)
    requires TitleChars(a) && TitleChars(b)
    ensures TitleChars(a + b)
  {
    assert forall k :: |a| <= k < |a + b| ==> (a + b)[k] == b[k - |a|];
  }

  lemma NameCharsAppend(a: string, b: string)
    requires NameChars(a) && NameChars(b)
    ensures NameChars(a + b)
  {
    assert forall k :: |a| <= k < |a + b| ==> (a + b)[k] == b[k - |a|];
  }

  // ---------------------------------------------------------------------------
  // Stretches the search passes over without stopping.
  // ---------------------------------------------------------------------------

  /** The lazy title moves past title characters that end on a non-space. */
  lemma {:induction false} TitleSkip(d: Dialect, s: string, a: nat, b: nat)
    requires a <= b <= |s| && forall k :: a <= k < b ==> IsTitleChar(s[k])
    requires a < b ==> !JsSpace.Has(s[b - 1])
    ensures TitleFrom(d, s, a) == TitleFrom(d, s, b)
    decreases b - a
  {
    if a < b {
      assert SubtitleAt(d, s, a) == None;
      assert TailAt(d, s, a) == None;
      TitleSkip(d, s, a + 1, b);
    }
  }

  /** The lazy subtitle moves past title characters that end on a non-space. */
  lemma {:induction false} SubtitleSkip(d: Dialect, s: string, a: nat, b: nat)
    requires a <= b <= |s| && forall k :: a <= k < b ==> IsTitleChar(s[k])
    requires a < b ==> !JsSpace.Has(s[b - 1])
    ensures SubtitleFrom(d, s, a) == SubtitleFrom(d, s, b)
    decreases b - a
  {
    if a < b {
      assert TailAt(d, s, a) == None;
      SubtitleSkip(d, s, a + 1, b);
    }
  }

  /** The number part needs a `#` or a digit after the separators. */
  lemma NumberAtNeedsDigit(s: string, m: nat)
    requires m <= |s|
    requires var x := SkipWhile(s, m, SeriesSeparator); x == |s| || (s[x] != '#' && !IsDigit(s[x]))
    ensures NumberAt(Current, s, m) == None
  {
    var x := SkipWhile(s, m, SeriesSeparator);
    assert SkipWhile(s, x, Digit) == x;
  }

  /** One step of the lazy name. */
  lemma LazyStep(s: string, q: nat, a: nat)
    requires q + 1 < a < |s| && NumberAt(Current, s, a) == None && s[a] != ')' && s[a] != '#'
    ensures SeriesLazy(s, q, a) == SeriesLazy(s, q, a + 1)
  {
  }

  /** The lazy series name moves past name characters that end on a
      non-separator. */
  lemma {:induction false} LazySkip(s: string, q: nat, a: nat, b: nat)
    requires q + 1 < a <= b < |s| && forall k :: a <= k < b ==> IsNameChar(s[k])
    requires a < b ==> !SeriesSeparator.Has(s[b - 1])
    ensures SeriesLazy(s, q, a) == SeriesLazy(s, q, b)
    decreases b - a
  {
    if a < b {
      SkipWhileStopsAt(s, a, b - 1, SeriesSeparator);
      NumberAtNeedsDigit(s, a);
      LazyStep(s, q, a);
      LazySkip(s, q, a + 1, b);
    }
  }

  /** The greedy series name gives back characters other than `,` and `)`:
      no number part and no closing parenthesis can start there. */
  lemma {:induction false} GreedySkip(s: string, q: nat, a: nat, b: nat)
    requires q + 1 < a <= b <= |s|
    requires forall k :: a < k <= b && k < |s| ==> s[k] != ',' && s[k] != ')'
    ensures SeriesGreedy(s, q, b) == SeriesGreedy(s, q, a)
    decreases b - a
  {
    if a < b {
      assert NumberAt(Legacy, s, b) == None;
      GreedySkip(s, q, a, b - 1);
    }
  }

  // ---------------------------------------------------------------------------
  // The current parser on well-formed titles.
  // ---------------------------------------------------------------------------

  /** Separators, `#` and a decimal number closing the input at `m`: the
      number part `NumberAt` finds. */
  lemma NumberAtForm(s: string, m: nat, sep: string, num: string)
    requires m <= |s| && s[m..] == sep + num + ")"
    requires NumberSep(sep) && IsDecimal(num)
    ensures NumberAt(Current, s, m) == Some(NumberSpan(m + |sep| - 1, m + |sep|))
  {
    var sepEnd := m + |sep| - 1;
    assert forall k :: m <= k < |s| ==> s[k] == s[m..][k - m];
    assert forall k :: m <= k < sepEnd ==> s[k] == sep[k - m];
    assert s[sepEnd] == '#';
    assert s[sepEnd + 1..|s| - 1] == num by {
      assert s[sepEnd + 1..|s| - 1] == s[m..][|sep|..|s| - m - 1];
    }
    TitlePatternProofs.NumberAtCurrentComplete(s, m, NumberSpan(sepEnd, sepEnd + 1));
  }

  /** `(name` at `q`: the lazy name runs to the end of `n` without stopping. */
  lemma SeriesNameForm(s: string, q: nat, n: string, m: nat)
    requires m == q + 1 + |n| < |s| && s[q] == '(' && NameText(n)
    requires forall k :: 0 <= k < |n| ==> s[q + 1 + k] == n[k]
    ensures SeriesAt(Current, s, q) == SeriesLazy(s, q, m)
  {
    assert s[q + 1] == n[0];
    forall k | q + 2 <= k < m
      ensures IsNameChar(s[k])
    {
      assert s[k] == n[k - q - 1];
    }
    assert s[m - 1] == n[|n| - 1];
    LazySkip(s, q, q + 2, m);
  }

  /** The lazy name stops where a number part starts. */
  lemma LazyFound(s: string, q: nat, m: nat, x: NumberSpan)
    requires q + 1 < m < |s| && NumberAt(Current, s, m) == Some(x)
    ensures SeriesLazy(s, q, m) == Some(SeriesSpan(m, Some(x)))
  {
  }

  /** `(name` followed by a number part: the parenthetical `SeriesAt` finds. */
  lemma SeriesAtNamed(s: string, q: nat, n: string, m: nat, x: NumberSpan)
    requires m == q + 1 + |n| < |s| && s[q] == '(' && NameText(n)
    requires forall k :: 0 <= k < |n| ==> s[q + 1 + k] == n[k]
    requires NumberAt(Current, s, m) == Some(x)
    ensures SeriesAt(Current, s, q) == Some(SeriesSpan(m, Some(x)))
  {
    SeriesNameForm(s, q, n, m);
    LazyFound(s, q, m, x);
  }

  /** `(name, #num)` closing the input at `q`: the lazy name stops at the end
      of `n`, and the number part takes the rest. */
  lemma SeriesAtForm(s: string, q: nat, n: string, sep: string, num: string, m: nat)
    requires q <= |s| && s[q..] == "(" + n + sep + num + ")" && m == q + 1 + |n|
    requires NameText(n) && NumberSep(sep) && IsDecimal(num)
    ensures SeriesAt(Current, s, q) == Some(SeriesSpan(m, Some(NumberSpan(m + |sep| - 1, m + |sep|))))
  {
    var r := s[q..];
    assert r == "(" + n + (sep + num + ")");
    assert forall k :: q <= k < |s| ==> s[k] == r[k - q];
    assert forall k :: 0 <= k < |n| ==> r[1 + k] == n[k];
    assert s[m..] == r[1 + |n|..];
    NumberAtForm(s, m, sep, num);
    SeriesAtNamed(s, q, n, m, NumberSpan(m + |sep| - 1, m + |sep|));
  }

  /** `\s*` over one space, then `(name, #num)` closing the input. */
  lemma TailSeriesForm(s: string, k: nat, n: string, sep: string, num: string, q: nat, m: nat)
    requires k <= |s| && s[k..] == " (" + n + sep + num + ")" && q == k + 1 && m == q + 1 + |n|
    requires NameText(n) && NumberSep(sep) && IsDecimal(num)
    ensures TailAt(Current, s, k) == Some(TailSpan(q, Some(SeriesSpan(m, Some(NumberSpan(m + |sep| - 1, m + |sep|))))))
  {
    var r := s[k..];
    assert r == " " + ("(" + n + sep + num + ")");
    assert s[k] == r[0] && s[q] == r[1];
    assert SkipWhile(s, k, JsSpace) == q;
    assert s[q..] == r[1..];
    SeriesAtForm(s, q, n, sep, num, m);
  }

  /** At the end of the input the tail is empty. */
  lemma TailAtEnd(d: Dialect, s: string)
    ensures TailAt(d, s, |s|) == Some(TailSpan(|s|, None))
  {
  }

  /** The title stops at `k` when the tail matches there and no subtitle
      starts there. */
  lemma TitleEndsAt(d: Dialect, s: string, k: nat, t: TailSpan)
    requires k <= |s| && (k < |s| ==> s[k] != ':') && TailAt(d, s, k) == Some(t)
    ensures TitleFrom(d, s, k) == Some(Split(k, None, t))
  {
  }

  /** The title stops at a `:` that the subtitle group accepts. */
  lemma SubtitleStartsAt(d: Dialect, s: string, k: nat, p: nat, j: nat, t: TailSpan)
    requires p == k + 2 < |s| && s[k] == ':' && JsSpace.Has(s[k + 1]) && !JsSpace.Has(s[p])
    requires SubtitleFrom(d, s, p) == Some((j, t))
    ensures TitleFrom(d, s, k) == Some(Split(k, Some(SubtitleSpan(p, j)), t))
  {
    assert SkipWhile(s, k + 1, JsSpace) == p;
  }

  /** The subtitle stops where the tail matches. */
  lemma SubtitleEndsAt(d: Dialect, s: string, j: nat, t: TailSpan)
    requires j <= |s| && TailAt(d, s, j) == Some(t)
    ensures SubtitleFrom(d, s, j) == Some((j, t))
  {
  }

  // ---------------------------------------------------------------------------
  // Composing a title from its parts, and parsing it back.
  // ---------------------------------------------------------------------------

  /** A series parenthetical `(name<sep>number)`, where `sep` ends in `#`. */
  datatype SeriesPart = SeriesPart(name: string, sep: string, number: string)

  function SubtitleText(sub: Option<string>): string {
    match sub
    case Some(v) => ": " + v
    case None => ""
  }

  function SeriesText(series: Option<SeriesPart>): string {
    match series
    case Some(p) => " (" + p.name + p.sep + p.number + ")"
    case None => ""
  }

  /** The Goodreads title `Title: Subtitle (Series, #N)` with the optional
      parts left out when absent. */
  function ComposeTitle(t: string, sub: Option<string>, series: Option<SeriesPart>): string {
    t + SubtitleText(sub) + SeriesText(series)
  }

  predicate SeriesPartText(p: SeriesPart) {
    NameText(p.name) && NumberSep(p.sep) && IsDecimal(p.number)
  }

  /** Parts that the pattern separates again: a title and subtitle without
      `:`, `(` or surrounding whitespace, and a series name without `#` or
      digits. */
  predicate WellFormedParts(t: string, sub: Option<string>, series: Option<SeriesPart>) {
    && TitleText(t)
    && (sub.Some? ==> TitleText(sub.value))
    && (series.Some? ==> SeriesPartText(series.value))
  }

  /** The fields `parseTitle` reports for a valid split, read off the input. */
  lemma ParsedFields(s: string, x: Split, t: string, sub: Option<string>, n: Option<string>, num: Option<string>)
    requires SplitValid(Current, s, x) && GroupsOf(Current, s, x) == Groups(t, sub, n, num)
    requires IsTrimmed(t, JsSpace)
    requires sub.Some? ==> IsTrimmed(sub.value, JsSpace)
    requires n.Some? ==> IsTrimmed(n.value, JsSpace)
    requires num.Some? ==> IsTrimmed(num.value, JsSpace)
    ensures ParsedFrom(s, x) == ParsedTitle(t, s, sub, n, num)
  {
    TrimTrimmed(t, JsSpace);
    if sub.Some? { TrimTrimmed(sub.value, JsSpace); }
    if n.Some? { TrimTrimmed(n.value, JsSpace); }
    if num.Some? { TrimTrimmed(num.value, JsSpace); }
  }

  /** A title piece placed in the input: its characters, first and last. */
  lemma TitlePieceAt(s: string, piece: string, a: nat, b: nat)
    requires a + |piece| == b <= |s| && s[a..b] == piece && TitleText(piece)
    ensures forall k :: a <= k < b ==> IsTitleChar(s[k])
    ensures !JsSpace.Has(s[a]) && !JsSpace.Has(s[b - 1])
  {
    assert forall k :: a <= k < b ==> s[k] == piece[k - a];
  }

  /** Where the pieces of `t + ": " + sub + y` sit. */
  lemma SubtitleLayout(s: string, t: string, sub: string, y: string, k: nat, p: nat, j: nat)
    requires s == t + (": " + sub) + y && k == |t| && p == k + 2 && j == p + |sub|
    ensures s[..k] == t && s[k] == ':' && s[k + 1] == ' ' && s[p..j] == sub && s[j..] == y
  {
    var a := t + (": " + sub);
    assert s[..j] == a;
    assert a[..k] == t && a[k..] == ": " + sub;
    assert s[k..j] == a[k..];
    assert s[p..j] == (": " + sub)[2..];
  }

  /** Where the name and number of a closing `(name<sep>number)` sit. */
  lemma SeriesLayout(s: string, sp: SeriesPart, j: nat, q: nat, m: nat)
    requires j <= |s| && s[j..] == " (" + sp.name + sp.sep + sp.number + ")" && q == j + 1 && m == q + 1 + |sp.name|
    ensures s[q + 1..m] == sp.name && s[m + |sp.sep|..|s| - 1] == sp.number
  {
    var y := s[j..];
    assert forall i :: j <= i < |s| ==> s[i] == y[i - j];
    assert forall i :: 0 <= i < |sp.name| ==> y[2 + i] == sp.name[i];
    assert forall i :: 0 <= i < |sp.number| ==> y[2 + |sp.name| + |sp.sep| + i] == sp.number[i];
  }

  /** The search on `Title: Subtitle<tail>`: the title stops at the `:`, the
      subtitle at the tail. */
  lemma MatchSubtitleForm(d: Dialect, s: string, k: nat, p: nat, j: nat, tl: TailSpan)
    requires 0 < k && p == k + 2 < j <= |s| && s[k] == ':' && s[k + 1] == ' '
    requires (forall i :: 0 <= i < k ==> IsTitleChar(s[i])) && !JsSpace.Has(s[k - 1])
    requires (forall i :: p <= i < j ==> IsTitleChar(s[i])) && !JsSpace.Has(s[p]) && !JsSpace.Has(s[j - 1])
    requires TailAt(d, s, j) == Some(tl)
    ensures Match(d, s) == Some(Split(k, Some(SubtitleSpan(p, j)), tl))
  {
    SubtitleEndsAt(d, s, j, tl);
    SubtitleSkip(d, s, p, j);
    SubtitleStartsAt(d, s, k, p, j, tl);
    TitleSkip(d, s, 0, k);
  }

  /** The fields of a split with every part present, read off the input. */
  lemma FullFields(s: string, x: Split, t: string, sub: string, sp: SeriesPart, k: nat, p: nat, j: nat, q: nat, m: nat, a: nat, b: nat)
    requires a == m + |sp.sep| - 1 && b == m + |sp.sep|
    requires x == Split(k, Some(SubtitleSpan(p, j)), TailSpan(q, Some(SeriesSpan(m, Some(NumberSpan(a, b))))))
    requires SplitValid(Current, s, x)
    requires k <= p <= j < q + 1 <= m <= b < |s|
    requires s[..k] == t && s[p..j] == sub && s[q + 1..m] == sp.name && s[b..|s| - 1] == sp.number
    requires TitleText(t) && TitleText(sub) && NameText(sp.name) && IsDecimal(sp.number)
    ensures ParsedFrom(s, x) == ParsedTitle(t, s, Some(sub), Some(sp.name), Some(sp.number))
  {
    DecimalIsTrimmed(sp.number);
    ParsedFields(s, x, t, Some(sub), Some(sp.name), Some(sp.number));
  }

  /** `parseTitle` reports the fields of the split the search finds. */
  lemma ParseOfFields(s: string, x: Split, r: ParsedTitle)
    requires Match(Current, s) == Some(x) && SplitValid(Current, s, x) && ParsedFrom(s, x) == r
    ensures ParseTitle(s) == Success(r)
  {
    ParseTitleOfMatch(s, x);
  }

  /** A split the search finds is valid. */
  lemma MatchValid(s: string, x: Split)
    requires Match(Current, s) == Some(x)
    ensures SplitValid(Current, s, x)
  {
    ParseTitleOfMatch(s, x);
  }

  lemma MatchFull(s: string, t: string, sub: string, sp: SeriesPart, k: nat, p: nat, j: nat, q: nat, m: nat, x: Split)
    requires k == |t| && p == k + 2 && j == p + |sub| && q == j + 1 && m == q + 1 + |sp.name| && j <= |s|
    requires s[0..k] == t && s[k] == ':' && s[k + 1] == ' ' && s[p..j] == sub
    requires s[j..] == " (" + sp.name + sp.sep + sp.number + ")"
    requires TitleText(t) && TitleText(sub) && SeriesPartText(sp)
    requires x == Split(k, Some(SubtitleSpan(p, j)), TailSpan(q, Some(SeriesSpan(m, Some(NumberSpan(m + |sp.sep| - 1, m + |sp.sep|))))))
    ensures Match(Current, s) == Some(x)
  {
    TailSeriesForm(s, j, sp.name, sp.sep, sp.number, q, m);
    TitlePieceAt(s, t, 0, k);
    TitlePieceAt(s, sub, p, j);
    MatchSubtitleForm(Current, s, k, p, j, x.tail);
  }

  lemma ParseFullAt(s: string, t: string, sub: string, sp: SeriesPart, k: nat, p: nat, j: nat, q: nat, m: nat)
    requires k == |t| && p == k + 2 && j == p + |sub| && q == j + 1 && m == q + 1 + |sp.name| && j <= |s|
    requires s[0..k] == t && s[k] == ':' && s[k + 1] == ' ' && s[p..j] == sub
    requires s[j..] == " (" + sp.name + sp.sep + sp.number + ")"
    requires TitleText(t) && TitleText(sub) && SeriesPartText(sp)
    ensures ParseTitle(s) == Success(ParsedTitle(t, s, Some(sub), Some(sp.name), Some(sp.number)))
  {
    var x := Split(k, Some(SubtitleSpan(p, j)), TailSpan(q, Some(SeriesSpan(m, Some(NumberSpan(m + |sp.sep| - 1, m + |sp.sep|))))));
    MatchFull(s, t, sub, sp, k, p, j, q, m, x);
    MatchValid(s, x);
    SeriesLayout(s, sp, j, q, m);
    FullFields(s, x, t, sub, sp, k, p, j, q, m, m + |sp.sep| - 1, m + |sp.sep|);
    ParseOfFields(s, x, ParsedTitle(t, s, Some(sub), Some(sp.name), Some(sp.number)));
  }

  /** `Title: Subtitle (Series, #N)`. */
  lemma ParseFullForm(s: string, t: string, sub: string, sp: SeriesPart, k: nat, p: nat, j: nat, q: nat, m: nat)
    requires s == t + (": " + sub) + (" (" + sp.name + sp.sep + sp.number + ")")
    requires k == |t| && p == k + 2 && j == p + |sub| && q == j + 1 && m == q + 1 + |sp.name|
    requires TitleText(t) && TitleText(sub) && SeriesPartText(sp)
    ensures ParseTitle(s) == Success(ParsedTitle(t, s, Some(sub), Some(sp.name), Some(sp.number)))
  {
    SubtitleLayout(s, t, sub, " (" + sp.name + sp.sep + sp.number + ")", k, p, j);
    assert s[0..k] == t;
    ParseFullAt(s, t, sub, sp, k, p, j, q, m);
  }

  /** The search on `Title<tail>`: the title stops at the tail. */
  lemma MatchTitleForm(d: Dialect, s: string, k: nat, tl: TailSpan)
    requires 0 < k <= |s| && (k < |s| ==> s[k] != ':')
    requires (forall i :: 0 <= i < k ==> IsTitleChar(s[i])) && !JsSpace.Has(s[k - 1])
    requires TailAt(d, s, k) == Some(tl)
    ensures Match(d, s) == Some(Split(k, None, tl))
  {
    TitleEndsAt(d, s, k, tl);
    TitleSkip(d, s, 0, k);
  }

  /** Where the pieces of `t + y` sit. */
  lemma TitleLayout(s: string, t: string, y: string, k: nat)
    requires s == t + y && k == |t|
    ensures s[..k] == t && s[0..k] == t && s[k..] == y
  {
  }

  lemma TitleSeriesFields(s: string, x: Split, t: string, sp: SeriesPart, k: nat, q: nat, m: nat, a: nat, b: nat)
    requires a == m + |sp.sep| - 1 && b == m + |sp.sep|
    requires x == Split(k, None, TailSpan(q, Some(SeriesSpan(m, Some(NumberSpan(a, b))))))
    requires SplitValid(Current, s, x)
    requires k < q + 1 <= m <= b < |s|
    requires s[..k] == t && s[q + 1..m] == sp.name && s[b..|s| - 1] == sp.number
    requires TitleText(t) && NameText(sp.name) && IsDecimal(sp.number)
    ensures ParsedFrom(s, x) == ParsedTitle(t, s, None, Some(sp.name), Some(sp.number))
  {
    DecimalIsTrimmed(sp.number);
    ParsedFields(s, x, t, None, Some(sp.name), Some(sp.number));
  }

  lemma MatchTitleSeries(s: string, t: string, sp: SeriesPart, k: nat, q: nat, m: nat, x: Split)
    requires k == |t| && q == k + 1 && m == q + 1 + |sp.name| && k <= |s|
    requires s[0..k] == t && s[k..] == " (" + sp.name + sp.sep + sp.number + ")" && s[k] == ' '
    requires TitleText(t) && SeriesPartText(sp)
    requires x == Split(k, None, TailSpan(q, Some(SeriesSpan(m, Some(NumberSpan(m + |sp.sep| - 1, m + |sp.sep|))))))
    ensures Match(Current, s) == Some(x)
  {
    TailSeriesForm(s, k, sp.name, sp.sep, sp.number, q, m);
    TitlePieceAt(s, t, 0, k);
    MatchTitleForm(Current, s, k, x.tail);
  }

  lemma ParseTitleSeriesAt(s: string, t: string, sp: SeriesPart, k: nat, q: nat, m: nat)
    requires k == |t| && q == k + 1 && m == q + 1 + |sp.name| && k <= |s|
    requires s[..k] == t && s[0..k] == t && s[k..] == " (" + sp.name + sp.sep + sp.number + ")" && s[k] == ' '
    requires TitleText(t) && SeriesPartText(sp)
    ensures ParseTitle(s) == Success(ParsedTitle(t, s, None, Some(sp.name), Some(sp.number)))
  {
    var x := Split(k, None, TailSpan(q, Some(SeriesSpan(m, Some(NumberSpan(m + |sp.sep| - 1, m + |sp.sep|))))));
    MatchTitleSeries(s, t, sp, k, q, m, x);
    MatchValid(s, x);
    SeriesLayout(s, sp, k, q, m);
    TitleSeriesFields(s, x, t, sp, k, q, m, m + |sp.sep| - 1, m + |sp.sep|);
    ParseOfFields(s, x, ParsedTitle(t, s, None, Some(sp.name), Some(sp.number)));
  }

  /** `Title (Series, #N)`. */
  lemma ParseTitleSeriesForm(s: string, t: string, sp: SeriesPart, k: nat, q: nat, m: nat)
    requires s == t + (" (" + sp.name + sp.sep + sp.number + ")")
    requires k == |t| && q == k + 1 && m == q + 1 + |sp.name|
    requires TitleText(t) && SeriesPartText(sp)
    ensures ParseTitle(s) == Success(ParsedTitle(t, s, None, Some(sp.name), Some(sp.number)))
  {
    TitleLayout(s, t, " (" + sp.name + sp.sep + sp.number + ")", k);
    assert s[k] == ' ';
    ParseTitleSeriesAt(s, t, sp, k, q, m);
  }

  lemma SubtitleFields(s: string, x: Split, t: string, sub: string, k: nat, p: nat, j: nat)
    requires x == Split(k, Some(SubtitleSpan(p, j)), TailSpan(j, None))
    requires Match(Current, s) == Some(x)
    requires k <= p <= j <= |s|
    requires s[..k] == t && s[p..j] == sub
    requires TitleText(t) && TitleText(sub)
    ensures ParseTitle(s) == Success(ParsedTitle(t, s, Some(sub), None, None))
  {
    ParseTitleOfMatch(s, x);
    ParsedFields(s, x, t, Some(sub), None, None);
  }

  lemma ParseSubtitleAt(s: string, t: string, sub: string, k: nat, p: nat, j: nat)
    requires k == |t| && p == k + 2 && j == p + |sub| == |s|
    requires s[0..k] == t && s[k] == ':' && s[k + 1] == ' ' && s[p..j] == sub
    requires TitleText(t) && TitleText(sub)
    ensures ParseTitle(s) == Success(ParsedTitle(t, s, Some(sub), None, None))
  {
    TailAtEnd(Current, s);
    var tl := TailSpan(j, None);
    TitlePieceAt(s, t, 0, k);
    TitlePieceAt(s, sub, p, j);
    MatchSubtitleForm(Current, s, k, p, j, tl);
    var x := Split(k, Some(SubtitleSpan(p, j)), tl);
    SubtitleFields(s, x, t, sub, k, p, j);
  }

  /** `Title: Subtitle`. */
  lemma ParseSubtitleForm(s: string, t: string, sub: string, k: nat, p: nat, j: nat)
    requires s == t + (": " + sub)
    requires k == |t| && p == k + 2 && j == p + |sub|
    requires TitleText(t) && TitleText(sub)
    ensures ParseTitle(s) == Success(ParsedTitle(t, s, Some(sub), None, None))
  {
    SubtitleLayout(s, t, sub, "", k, p, j);
    ParseSubtitleAt(s, t, sub, k, p, j);
  }

  /** `Title` alone. */
  lemma ParseTitleOnlyForm(s: string, t: string)
    requires s == t && TitleText(t)
    ensures ParseTitle(s) == Success(ParsedTitle(t, s, None, None, None))
  {
    TailAtEnd(Current, s);
    var tl := TailSpan(|s|, None);
    assert s[0..|s|] == t;
    TitlePieceAt(s, t, 0, |s|);
    MatchTitleForm(Current, s, |s|, tl);
    var x := Split(|s|, None, tl);
    ParseTitleOfMatch(s, x);
    assert s[..|s|] == t;
    ParsedFields(s, x, t, None, None, None);
  }

  function NameOf(series: Option<SeriesPart>): Option<string> {
    match series
    case Some(sp) => Some(sp.name)
    case None => None
  }

  function NumberOf(series: Option<SeriesPart>): Option<string> {
    match series
    case Some(sp) => Some(sp.number)
    case None => None
  }

  lemma ParseComposedWithSubtitle(s: string, t: string, sub: string, series: Option<SeriesPart>)
    requires s == ComposeTitle(t, Some(sub), series) && WellFormedParts(t, Some(sub), series)
    ensures ParseTitle(s) == Success(ParsedTitle(t, s, Some(sub), NameOf(series), NumberOf(series)))
  {
    var k := |t|;
    match series
    case Some(sp) =>
      ParseFullForm(s, t, sub, sp, k, k + 2, k + 2 + |sub|, k + 3 + |sub|, k + 4 + |sub| + |sp.name|);
    case None =>
      assert s == t + (": " + sub);
      ParseSubtitleForm(s, t, sub, k, k + 2, k + 2 + |sub|);
  }

  lemma ParseComposedSeries(s: string, t: string, sp: SeriesPart)
    requires s == ComposeTitle(t, None, Some(sp)) && WellFormedParts(t, None, Some(sp))
    ensures ParseTitle(s) == Success(ParsedTitle(t, s, None, Some(sp.name), Some(sp.number)))
  {
    assert t + "" == t;
    ParseTitleSeriesForm(s, t, sp, |t|, |t| + 1, |t| + 2 + |sp.name|);
  }

  lemma ParseComposedTitleOnly(s: string, t: string)
    requires s == ComposeTitle(t, None, None) && WellFormedParts(t, None, None)
    ensures ParseTitle(s) == Success(ParsedTitle(t, s, None, None, None))
  {
    assert t + "" + "" == t;
    ParseTitleOnlyForm(s, t);
  }

  lemma ParseComposedWithoutSubtitle(s: string, t: string, series: Option<SeriesPart>)
    requires s == ComposeTitle(t, None, series) && WellFormedParts(t, None, series)
    ensures ParseTitle(s) == Success(ParsedTitle(t, s, None, NameOf(series), NumberOf(series)))
  {
    match series
    case Some(sp) => ParseComposedSeries(s, t, sp);
    case None => ParseComposedTitleOnly(s, t);
  }

  /** Composing well-formed parts into a title and parsing it gives the
      parts back: `parseTitle` inverts `ComposeTitle`. */
  lemma ParseComposedTitle(s: string, t: string, sub: Option<string>, series: Option<SeriesPart>)
    requires s == ComposeTitle(t, sub, series) && WellFormedParts(t, sub, series)
    ensures ParseTitle(s) == Success(ParsedTitle(t, s, sub, NameOf(series), NumberOf(series)))
  {
    match sub
    case Some(v) => ParseComposedWithSubtitle(s, t, v, series);
    case None => ParseComposedWithoutSubtitle(s, t, series);
  }

  // ---------------------------------------------------------------------------
  // The examples of src/goodreads-sync.utils.test.ts.
  // ---------------------------------------------------------------------------

  /** The parts of the examples are well formed. */
  lemma TitleTexts(t: string)
    requires t in {"The Great Gatsby", "A Novel", "Dawnshard"}
    ensures TitleText(t)
  {
  }

  lemma FeastTitleText(t: string)
    requires t == "A Feast for Crows"
    ensures TitleText(t)
  {
  }

  lemma LionTitleText(t: string)
    requires t == "The Lion, the Witch and the Wardrobe"
    ensures TitleText(t)
  {
  }

  lemma StormlightNameText(n: string)
    requires n == "The Stormlight Archive"
    ensures NameText(n)
  {
  }

  lemma SongNameText(n: string)
    requires n == "A Song of Ice and Fire"
    ensures NameText(n)
  {
  }

  lemma NarniaNameText(n: string)
    requires n == "The Chronicles of Narnia"
    ensures NameText(n)
  {
  }

  lemma GatsbyParts(t: string, sub: string, sp: SeriesPart)
    requires t == "The Great Gatsby" && sub == "A Novel" && sp == SeriesPart("Classics", ", #", "1")
    ensures WellFormedParts(t, Some(sub), Some(sp)) && WellFormedParts(t, None, Some(sp))
    ensures WellFormedParts(t, Some(sub), None) && WellFormedParts(t, None, None)
  {
    TitleTexts(t);
    TitleTexts(sub);
  }

  lemma DawnshardParts(t: string, sp: SeriesPart)
    requires t == "Dawnshard" && sp == SeriesPart("The Stormlight Archive", ", #", "3.5")
    ensures WellFormedParts(t, None, Some(sp))
  {
    TitleTexts(t);
    StormlightNameText(sp.name);
    assert sp.number[1] == '.' && IsDigits(sp.number[..1]) && IsDigits(sp.number[2..]);
  }

  lemma FeastParts(t: string, sp: SeriesPart)
    requires t == "A Feast for Crows" && sp == SeriesPart("A Song of Ice and Fire", " #", "4")
    ensures WellFormedParts(t, None, Some(sp))
  {
    FeastTitleText(t);
    SongNameText(sp.name);
  }

  lemma LionParts(t: string, sp: SeriesPart)
    requires t == "The Lion, the Witch and the Wardrobe" && sp == SeriesPart("The Chronicles of Narnia", ", #", "2")
    ensures WellFormedParts(t, None, Some(sp))
  {
    LionTitleText(t);
    NarniaNameText(sp.name);
  }

  lemma SeriesTextClassics(y: string)
    requires y == " (Classics, #1)"
    ensures y == SeriesText(Some(SeriesPart("Classics", ", #", "1")))
  {
    assert " (" + "Classics" == " (Classics";
    assert " (Classics" + ", #" == " (Classics, #";
    assert " (Classics, #" + "1" == " (Classics, #1";
    assert " (Classics, #1" + ")" == " (Classics, #1)";
  }

  lemma SplitFullTitle(s: string)
    requires s == "The Great Gatsby: A Novel (Classics, #1)"
    ensures s == "The Great Gatsby" + ": A Novel" + " (Classics, #1)"
  {
    assert "The Great Gatsby" + ": A Novel" == "The Great Gatsby: A Novel";
    assert s == "The Great Gatsby: A Novel" + " (Classics, #1)";
  }

  lemma FullTitleComposed(s: string)
    requires s == "The Great Gatsby: A Novel (Classics, #1)"
    ensures s == ComposeTitle("The Great Gatsby", Some("A Novel"), Some(SeriesPart("Classics", ", #", "1")))
  {
    SeriesTextClassics(" (Classics, #1)");
    SplitFullTitle(s);
    assert ": " + "A Novel" == ": A Novel";
  }

  /** utils.test.ts, "parses full title with all components". */
  lemma ExampleFullTitle(s: string)
    requires s == "The Great Gatsby: A Novel (Classics, #1)"
    ensures ParseTitle(s) == Success(ParsedTitle("The Great Gatsby", s, Some("A Novel"), Some("Classics"), Some("1")))
  {
    var sp := SeriesPart("Classics", ", #", "1");
    FullTitleComposed(s);
    GatsbyParts("The Great Gatsby", "A Novel", sp);
    ParseComposedTitle(s, "The Great Gatsby", Some("A Novel"), Some(sp));
  }

  lemma SplitWithoutSubtitle(s: string)
    requires s == "The Great Gatsby (Classics, #1)"
    ensures s == "The Great Gatsby" + " (Classics, #1)"
  {
  }

  lemma WithoutSubtitleComposed(s: string)
    requires s == "The Great Gatsby (Classics, #1)"
    ensures s == ComposeTitle("The Great Gatsby", None, Some(SeriesPart("Classics", ", #", "1")))
  {
    SeriesTextClassics(" (Classics, #1)");
    SplitWithoutSubtitle(s);
    assert "The Great Gatsby" + "" == "The Great Gatsby";
  }

  /** utils.test.ts, "parses title without subtitle", first case. */
  lemma ExampleWithoutSubtitle(s: string)
    requires s == "The Great Gatsby (Classics, #1)"
    ensures ParseTitle(s) == Success(ParsedTitle("The Great Gatsby", s, None, Some("Classics"), Some("1")))
  {
    var sp := SeriesPart("Classics", ", #", "1");
    WithoutSubtitleComposed(s);
    GatsbyParts("The Great Gatsby", "A Novel", sp);
    ParseComposedTitle(s, "The Great Gatsby", None, Some(sp));
  }

  lemma SeriesTextDawnshard(y: string)
    requires y == " (The Stormlight Archive, #3.5)"
    ensures y == SeriesText(Some(SeriesPart("The Stormlight Archive", ", #", "3.5")))
  {
    assert " (" + "The Stormlight Archive" == " (The Stormlight Archive";
    assert " (The Stormlight Archive" + ", #" == " (The Stormlight Archive, #";
    assert " (The Stormlight Archive, #" + "3.5" == " (The Stormlight Archive, #3.5";
    assert " (The Stormlight Archive, #3.5" + ")" == " (The Stormlight Archive, #3.5)";
  }

  lemma SplitDawnshard(s: string)
    requires s == "Dawnshard (The Stormlight Archive, #3.5)"
    ensures s == "Dawnshard" + " (The Stormlight Archive, #3.5)"
  {
  }

  lemma DawnshardComposed(s: string)
    requires s == "Dawnshard (The Stormlight Archive, #3.5)"
    ensures s == ComposeTitle("Dawnshard", None, Some(SeriesPart("The Stormlight Archive", ", #", "3.5")))
  {
    SeriesTextDawnshard(" (The Stormlight Archive, #3.5)");
    SplitDawnshard(s);
    assert "Dawnshard" + "" == "Dawnshard";
  }

  /** A decimal series number. */
  lemma ExampleDawnshard(s: string)
    requires s == "Dawnshard (The Stormlight Archive, #3.5)"
    ensures ParseTitle(s) == Success(ParsedTitle("Dawnshard", s, None, Some("The Stormlight Archive"), Some("3.5")))
  {
    var sp := SeriesPart("The Stormlight Archive", ", #", "3.5");
    DawnshardComposed(s);
    DawnshardParts("Dawnshard", sp);
    ParseComposedTitle(s, "Dawnshard", None, Some(sp));
  }

  lemma SeriesTextFeast(y: string)
    requires y == " (A Song of Ice and Fire #4)"
    ensures y == SeriesText(Some(SeriesPart("A Song of Ice and Fire", " #", "4")))
  {
    assert " (" + "A Song of Ice and Fire" == " (A Song of Ice and Fire";
    assert " (A Song of Ice and Fire" + " #" == " (A Song of Ice and Fire #";
    assert " (A Song of Ice and Fire #" + "4" == " (A Song of Ice and Fire #4";
    assert " (A Song of Ice and Fire #4" + ")" == " (A Song of Ice and Fire #4)";
  }

  lemma SplitFeast(s: string)
    requires s == "A Feast for Crows (A Song of Ice and Fire #4)"
    ensures s == "A Feast for Crows" + " (A Song of Ice and Fire #4)"
  {
  }

  lemma FeastComposed(s: string)
    requires s == "A Feast for Crows (A Song of Ice and Fire #4)"
    ensures s == ComposeTitle("A Feast for Crows", None, Some(SeriesPart("A Song of Ice and Fire", " #", "4")))
  {
    SeriesTextFeast(" (A Song of Ice and Fire #4)");
    SplitFeast(s);
    assert "A Feast for Crows" + "" == "A Feast for Crows";
  }

  /** No comma between the series name and `#`. */
  lemma ExampleFeast(s: string)
    requires s == "A Feast for Crows (A Song of Ice and Fire #4)"
    ensures ParseTitle(s) == Success(ParsedTitle("A Feast for Crows", s, None, Some("A Song of Ice and Fire"), Some("4")))
  {
    var sp := SeriesPart("A Song of Ice and Fire", " #", "4");
    FeastComposed(s);
    FeastParts("A Feast for Crows", sp);
    ParseComposedTitle(s, "A Feast for Crows", None, Some(sp));
  }

  lemma SeriesTextLion(y: string)
    requires y == " (The Chronicles of Narnia, #2)"
    ensures y == SeriesText(Some(SeriesPart("The Chronicles of Narnia", ", #", "2")))
  {
    assert " (" + "The Chronicles of Narnia" == " (The Chronicles of Narnia";
    assert " (The Chronicles of Narnia" + ", #" == " (The Chronicles of Narnia, #";
    assert " (The Chronicles of Narnia, #" + "2" == " (The Chronicles of Narnia, #2";
    assert " (The Chronicles of Narnia, #2" + ")" == " (The Chronicles of Narnia, #2)";
  }

  lemma SplitLion(s: string)
    requires s == "The Lion, the Witch and the Wardrobe (The Chronicles of Narnia, #2)"
    ensures s == "The Lion, the Witch and the Wardrobe" + " (The Chronicles of Narnia, #2)"
  {
  }

  lemma LionComposed(s: string)
    requires s == "The Lion, the Witch and the Wardrobe (The Chronicles of Narnia, #2)"
    ensures s == ComposeTitle("The Lion, the Witch and the Wardrobe", None, Some(SeriesPart("The Chronicles of Narnia", ", #", "2")))
  {
    SeriesTextLion(" (The Chronicles of Narnia, #2)");
    SplitLion(s);
    assert "The Lion, the Witch and the Wardrobe" + "" == "The Lion, the Witch and the Wardrobe";
  }

  /** A comma inside the title. */
  lemma ExampleLion(s: string)
    requires s == "The Lion, the Witch and the Wardrobe (The Chronicles of Narnia, #2)"
    ensures ParseTitle(s) == Success(ParsedTitle("The Lion, the Witch and the Wardrobe", s, None,
                                                 Some("The Chronicles of Narnia"), Some("2")))
  {
    var sp := SeriesPart("The Chronicles of Narnia", ", #", "2");
    LionComposed(s);
    LionParts("The Lion, the Witch and the Wardrobe", sp);
    ParseComposedTitle(s, "The Lion, the Witch and the Wardrobe", None, Some(sp));
  }

  lemma WithoutSeriesComposed(s: string)
    requires s == "The Great Gatsby: A Novel"
    ensures s == ComposeTitle("The Great Gatsby", Some("A Novel"), None)
  {
    assert ": " + "A Novel" == ": A Novel";
    assert "The Great Gatsby" + ": A Novel" == "The Great Gatsby: A Novel";
    assert "The Great Gatsby: A Novel" + "" == "The Great Gatsby: A Novel";
  }

  /** utils.test.ts, "parses title without series". */
  lemma ExampleWithoutSeries(s: string)
    requires s == "The Great Gatsby: A Novel"
    ensures ParseTitle(s) == Success(ParsedTitle("The Great Gatsby", s, Some("A Novel"), None, None))
  {
    var sp := SeriesPart("Classics", ", #", "1");
    WithoutSeriesComposed(s);
    GatsbyParts("The Great Gatsby", "A Novel", sp);
    ParseComposedTitle(s, "The Great Gatsby", Some("A Novel"), None);
  }

  lemma SimpleTitleComposed(s: string)
    requires s == "The Great Gatsby"
    ensures s == ComposeTitle("The Great Gatsby", None, None)
  {
    assert "The Great Gatsby" + "" + "" == "The Great Gatsby";
  }

  /** utils.test.ts, "parses simple title". */
  lemma ExampleSimpleTitle(s: string)
    requires s == "The Great Gatsby"
    ensures ParseTitle(s) == Success(ParsedTitle("The Great Gatsby", s, None, None, None))
  {
    var sp := SeriesPart("Classics", ", #", "1");
    SimpleTitleComposed(s);
    GatsbyParts("The Great Gatsby", "A Novel", sp);
    ParseComposedTitle(s, "The Great Gatsby", None, None);
  }
}
