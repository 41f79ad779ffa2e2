/**
 * The anchored title patterns of the Goodreads sync, matched the way a
 * JavaScript backtracking regex engine matches them.
 *
 * Current (src/goodreads-sync.utils.ts):
 *   ^(.*?)(?::\s*(.*?))?\s*(?:\(([^#]+?)(?:[,\s]*#?(\d+(?:\.\d+)?))?\))?$
 * Legacy (src/goodreads-sync.ts):
 *   ^(.*?)(?::\s*(.*?))?\s*(?:\(([^,]+)(?:,\s*#?(\d+))?\))?$
 *
 * Both share everything up to the parenthetical.  A match is described by
 * positions (a `Split`); `SplitValid` says declaratively which splits the
 * pattern admits, and `Match` finds one by trying the alternatives in the
 * engine's order: lazy quantifiers shortest first, greedy ones longest first,
 * an optional group before skipping it.
 *
 * Several greedy quantifiers have only one length that can lead to a match,
 * because the character that must follow them is outside their class:
 * the `\s*` before `(` or `$`, the `[,\s]*` or `,\s*` before `#` or a digit,
 * and the digit runs before `)` or `.`.  The search takes that length
 * directly; `MatchIsFirst` in title_pattern_proofs.dfy shows nothing is lost.
 */
module TitlePattern {
  import opened Wrappers
  import opened Text

  /** Which of the two patterns. */
  datatype Dialect = Current | Legacy

  /** Characters allowed in the series-name group: `[^#]` or `[^,]`. */
  function NameClass(d: Dialect): CharClass {
    match d
    case Current => Except('#')
    case Legacy => Except(',')
  }

  /** The series number inside the parenthetical: the separator run ends at
      `sepEnd`, an optional `#` follows, the digits start at `start` and run up
      to the closing `)` at the end of the input. */
  datatype NumberSpan = NumberSpan(sepEnd: nat, start: nat)

  /** The parenthetical: the name runs from just after `(` up to `nameEnd`. */
  datatype SeriesSpan = SeriesSpan(nameEnd: nat, number: Option<NumberSpan>)

  /** The subtitle group `s[start..end]`. */
  datatype SubtitleSpan = SubtitleSpan(start: nat, end: nat)

  /** What follows the title or subtitle: whitespace up to `seriesAt`, then
      possibly the parenthetical, which starts at `seriesAt`. */
  datatype TailSpan = TailSpan(seriesAt: nat, series: Option<SeriesSpan>)

  /** One way the whole pattern can match: the title is `s[..titleEnd]`. */
  datatype Split = Split(titleEnd: nat, subtitle: Option<SubtitleSpan>, tail: TailSpan)

  /** `s[start..]` is all digits, nonempty, up to the final character. */
  predicate IsDigits(t: string) {
    |t| > 0 && forall k :: 0 <= k < |t| ==> IsDigit(t[k])
  }

  /** `\d+(?:\.\d+)?` */
  predicate IsDecimal(t: string) {
    IsDigits(t) || exists k :: 0 < k < |t| - 1 && t[k] == '.' && IsDigits(t[..k]) && IsDigits(t[k + 1..])
  }

  /** The number group's syntax in each dialect. */
  predicate IsSeriesNumber(d: Dialect, t: string) {
    match d
    case Current => IsDecimal(t)
    case Legacy => IsDigits(t)
  }

  // ---------------------------------------------------------------------------
  // Which splits the pattern admits.
  // ---------------------------------------------------------------------------

  /** `s[m..]` is `[,\s]*#?(\d+(?:\.\d+)?)\)` (Current) or `,\s*#?(\d+)\)` (Legacy). */
  predicate NumberValid(d: Dialect, s: string, m: nat, n: NumberSpan) {
    && 0 < |s| && s[|s| - 1] == ')'
    && m <= n.sepEnd <= n.start <= |s| - 1
    && (match d
        case Current => AllIn(s, m, n.sepEnd, SeriesSeparator)
        case Legacy => m < n.sepEnd && s[m] == ',' && AllIn(s, m + 1, n.sepEnd, JsSpace))
    && (n.start == n.sepEnd || (n.start == n.sepEnd + 1 && s[n.sepEnd] == '#'))
    && IsSeriesNumber(d, s[n.start..|s| - 1])
  }

  /** `s[q..]` is the whole parenthetical group followed by the end of input. */
  predicate SeriesValid(d: Dialect, s: string, q: nat, x: SeriesSpan) {
    && q < |s| && s[q] == '(' && s[|s| - 1] == ')'
    && q + 1 < x.nameEnd <= |s| - 1
    && AllIn(s, q + 1, x.nameEnd, NameClass(d))
    && match x.number
       case None => x.nameEnd == |s| - 1
       case Some(n) => NumberValid(d, s, x.nameEnd, n)
  }

  /** `s[k..]` is `\s*` followed by the optional parenthetical and the end. */
  predicate TailValid(d: Dialect, s: string, k: nat, t: TailSpan) {
    && k <= t.seriesAt <= |s|
    && AllIn(s, k, t.seriesAt, JsSpace)
    && match t.series
       case None => t.seriesAt == |s|
       case Some(x) => SeriesValid(d, s, t.seriesAt, x)
  }

  /** `s[i..]` is `:\s*(.*?)` ending at `sub.end`, then a valid tail. */
  predicate SubtitleValid(d: Dialect, s: string, i: nat, sub: SubtitleSpan, t: TailSpan) {
    && i < |s| && s[i] == ':'
    && i + 1 <= sub.start <= sub.end <= |s|
    && AllIn(s, i + 1, sub.start, JsSpace)
    && AllIn(s, sub.start, sub.end, JsDot)
    && TailValid(d, s, sub.end, t)
  }

  /** The pattern matches `s` with the groups placed as `x` says. */
  predicate SplitValid(d: Dialect, s: string, x: Split) {
    && x.titleEnd <= |s|
    && AllIn(s, 0, x.titleEnd, JsDot)
    && match x.subtitle
       case None => TailValid(d, s, x.titleEnd, x.tail)
       case Some(sub) => SubtitleValid(d, s, x.titleEnd, sub, x.tail)
  }

  // ---------------------------------------------------------------------------
  // The order in which a backtracking engine tries the splits.
  // ---------------------------------------------------------------------------

  /** `x` is tried no later than `y` inside the parenthetical: the lazy
      `[^#]+?` tries shorter names first, the greedy `[^,]+` longer ones first,
      and at one name length the number group is tried before skipping it. */
  predicate SeriesNoLater(d: Dialect, x: SeriesSpan, y: SeriesSpan) {
    || (d == Current && x.nameEnd < y.nameEnd)
    || (d == Legacy && x.nameEnd > y.nameEnd)
    || (x.nameEnd == y.nameEnd && (x.number.Some? || y.number.None?))
  }

  /** The optional parenthetical group is tried before it is skipped. */
  predicate TailNoLater(d: Dialect, x: TailSpan, y: TailSpan) {
    match (x.series, y.series)
    case (Some(a), Some(b)) => SeriesNoLater(d, a, b)
    case (Some(_), None) => true
    case (None, Some(_)) => false
    case (None, None) => true
  }

  /** The title group is lazy; then the subtitle group is tried before it is
      skipped; inside it the greedy `\s*` tries longer runs first and the lazy
      `(.*?)` shorter subtitles first. */
  predicate SplitNoLater(d: Dialect, x: Split, y: Split) {
    || x.titleEnd < y.titleEnd
    || (x.titleEnd == y.titleEnd &&
        match (x.subtitle, y.subtitle)
        case (Some(a), Some(b)) =>
          || a.start > b.start
          || (a.start == b.start && (a.end < b.end || (a.end == b.end && TailNoLater(d, x.tail, y.tail))))
        case (Some(_), None) => true
        case (None, Some(_)) => false
        case (None, None) => TailNoLater(d, x.tail, y.tail))
  }

  // ---------------------------------------------------------------------------
  // The search.
  // ---------------------------------------------------------------------------

  /** The number group at `m`, if `s[m..]` is the number part and the closing
      `)` of the input. */
  function NumberAt(d: Dialect, s: string, m: nat): (r: Option<NumberSpan>)
    requires m <= |s|
  {
    match d
    case Current =>
      var a := SkipWhile(s, m, SeriesSeparator);
      var b := if a < |s| && s[a] == '#' then a + 1 else a;
      var e := SkipWhile(s, b, Digit);
      var f := if e + 1 < |s| && s[e] == '.' && IsDigit(s[e + 1]) then SkipWhile(s, e + 1, Digit) else e;
      if b < e && f + 1 == |s| && s[f] == ')' then Some(NumberSpan(a, b)) else None
    case Legacy =>
      if m < |s| && s[m] == ',' then
        var a := SkipWhile(s, m + 1, JsSpace);
        var b := if a < |s| && s[a] == '#' then a + 1 else a;
        var e := SkipWhile(s, b, Digit);
        if b < e && e + 1 == |s| && s[e] == ')' then Some(NumberSpan(a, b)) else None
      else None
  }

  /** The lazy `([^#]+?)`: the name is `s[q + 1..m]`; try the number group,
      then the bare `)`, then a longer name. */
  function SeriesLazy(s: string, q: nat, m: nat): (r: Option<SeriesSpan>)
    requires q + 1 < m <= |s|
    decreases |s| - m
  {
    if m == |s| then None
    else match NumberAt(Current, s, m)
      case Some(n) => Some(SeriesSpan(m, Some(n)))
      case None =>
        if m + 1 == |s| && s[m] == ')' then Some(SeriesSpan(m, None))
        else if s[m] != '#' then SeriesLazy(s, q, m + 1)
        else None
  }

  /** The greedy `([^,]+)`: the name is `s[q + 1..m]`; try the number group,
      then the bare `)`, then a shorter name. */
  function SeriesGreedy(s: string, q: nat, m: nat): (r: Option<SeriesSpan>)
    requires q + 1 < m <= |s|
    decreases m
  {
    match NumberAt(Legacy, s, m)
    case Some(n) => Some(SeriesSpan(m, Some(n)))
    case None =>
      if m + 1 == |s| && s[m] == ')' then Some(SeriesSpan(m, None))
      else if q + 2 < m then SeriesGreedy(s, q, m - 1)
      else None
  }

  /** The parenthetical group at `q`. */
  function SeriesAt(d: Dialect, s: string, q: nat): (r: Option<SeriesSpan>)
    requires q <= |s|
  {
    if q + 1 < |s| && s[q] == '(' && NameClass(d).Has(s[q + 1]) then
      match d
      case Current => SeriesLazy(s, q, q + 2)
      case Legacy => SeriesGreedy(s, q, SkipWhile(s, q + 1, NameClass(Legacy)))
    else None
  }

  /** `\s*`, the optional parenthetical and `$`, from `k`. */
  function TailAt(d: Dialect, s: string, k: nat): (r: Option<TailSpan>)
    requires k <= |s|
  {
    var q := SkipWhile(s, k, JsSpace);
    match SeriesAt(d, s, q)
    case Some(x) => Some(TailSpan(q, Some(x)))
    case None => if q == |s| then Some(TailSpan(q, None)) else None
  }

  /** The lazy `(.*?)` of the subtitle: it ends at `j` or later. */
  function SubtitleFrom(d: Dialect, s: string, j: nat): (r: Option<(nat, TailSpan)>)
    requires j <= |s|
    decreases |s| - j
  {
    match TailAt(d, s, j)
    case Some(t) => Some((j, t))
    case None => if j < |s| && JsDot.Has(s[j]) then SubtitleFrom(d, s, j + 1) else None
  }

  /** The optional `(?::\s*(.*?))?` group tried with the title ending at `i`. */
  function SubtitleAt(d: Dialect, s: string, i: nat): (r: Option<Split>)
    requires i <= |s|
  {
    if i < |s| && s[i] == ':' then
      var p := SkipWhile(s, i + 1, JsSpace);
      match SubtitleFrom(d, s, p)
      case Some((j, t)) => Some(Split(i, Some(SubtitleSpan(p, j)), t))
      case None => None
    else None
  }

  /** The lazy `^(.*?)` of the title: it ends at `i` or later. */
  function TitleFrom(d: Dialect, s: string, i: nat): (r: Option<Split>)
    requires i <= |s|
    decreases |s| - i
  {
    match SubtitleAt(d, s, i)
    case Some(x) => Some(x)
    case None =>
      match TailAt(d, s, i)
      case Some(t) => Some(Split(i, None, t))
      case None => if i < |s| && JsDot.Has(s[i]) then TitleFrom(d, s, i + 1) else None
  }

  /** `s.match(pattern)`: the split whose groups the engine reports, or `None`
      (JavaScript `null`). */
  function Match(d: Dialect, s: string): (r: Option<Split>) {
    TitleFrom(d, s, 0)
  }
}
