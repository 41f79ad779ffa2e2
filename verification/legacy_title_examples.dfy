/**
 * The older `parseTitle` of src/goodreads-sync.ts on the inputs where it
 * parts ways with the current one: its greedy `[^,]+` name swallows a number
 * that no comma introduces, and its digits-only number cannot take `3.5`.
 */
module LegacyTitleExamples {
  import opened Wrappers
  import opened Text
  import opened TitlePattern
  import opened TitleParser
  import opened TitleExamples

  // ---------------------------------------------------------------------------
  // A parenthetical without a comma: the whole of it is the series name.
  // ---------------------------------------------------------------------------

  /** A series name the older pattern takes whole: no comma, no surrounding
      whitespace. */
  predicate LegacyNameText(n: string) {
    |n| > 0 && (forall k :: 0 <= k < |n| ==> n[k] != ',') && IsTrimmed(n, JsSpace)
  }

  /** The greedy name runs to the end of the input and gives back only the
      closing `)`. */
  lemma GreedyToClose(s: string, q: nat)
    requires q + 2 < |s| && s[|s| - 1] == ')'
    ensures SeriesGreedy(s, q, |s|) == Some(SeriesSpan(|s| - 1, None))
  {
    assert NumberAt(Legacy, s, |s|) == None;
    assert NumberAt(Legacy, s, |s| - 1) == None;
  }

  /** `\s*` over one space, then `(name)` closing the input. */
  lemma LegacyTailForm(s: string, k: nat, n: string, q: nat)
    requires k <= |s| && s[k..] == " (" + n + ")" && q == k + 1 && LegacyNameText(n)
    ensures TailAt(Legacy, s, k) == Some(TailSpan(q, Some(SeriesSpan(|s| - 1, None))))
  {
    var r := s[k..];
    assert forall i :: k <= i < |s| ==> s[i] == r[i - k];
    assert forall i :: 0 <= i < |n| ==> r[2 + i] == n[i];
    assert s[k] == ' ' && s[q] == '(' && s[q + 1] == n[0];
    assert SkipWhile(s, k, JsSpace) == q;
    assert AllIn(s, q + 1, |s|, Except(','));
    SkipWhileIsLongest(s, q + 1, |s|, Except(','));
    GreedyToClose(s, q);
  }

  lemma MatchLegacySeries(s: string, t: string, n: string, k: nat, q: nat, x: Split)
    requires k == |t| && q == k + 1 && k <= |s|
    requires s[0..k] == t && s[k..] == " (" + n + ")" && s[k] == ' '
    requires TitleText(t) && LegacyNameText(n)
    requires x == Split(k, None, TailSpan(q, Some(SeriesSpan(|s| - 1, None))))
    ensures Match(Legacy, s) == Some(x)
  {
    LegacyTailForm(s, k, n, q);
    TitlePieceAt(s, t, 0, k);
    MatchTitleForm(Legacy, s, k, x.tail);
  }

  /** The older parser's record from groups that are already trimmed. */
  lemma LegacyFields(s: string, x: Split, t: string, sub: Option<string>, n: Option<string>, num: Option<string>)
    requires SplitValid(Legacy, s, x) && GroupsOf(Legacy, s, x) == Groups(t, sub, n, num)
    requires IsTrimmed(t, JsSpace)
    requires sub.Some? ==> IsTrimmed(sub.value, JsSpace)
    requires n.Some? ==> IsTrimmed(n.value, JsSpace)
    requires num.Some? ==> IsTrimmed(num.value, JsSpace)
    ensures LegacyFrom(s, x) == LegacyTitle(t, sub, n, num)
  {
    TrimTrimmed(t, JsSpace);
    if sub.Some? { TrimTrimmed(sub.value, JsSpace); }
    if n.Some? { TrimTrimmed(n.value, JsSpace); }
    if num.Some? { TrimTrimmed(num.value, JsSpace); }
  }

  lemma LegacySeriesFields(s: string, x: Split, t: string, n: string, k: nat, q: nat, e: nat)
    requires x == Split(k, None, TailSpan(q, Some(SeriesSpan(e, None))))
    requires Match(Legacy, s) == Some(x)
    requires k < q + 1 <= e == |s| - 1
    requires s[..k] == t && s[q + 1..e] == n
    requires TitleText(t) && LegacyNameText(n)
    ensures ParseTitleLegacy(s) == LegacyTitle(t, None, Some(n), None)
  {
    ParseTitleLegacyOfMatch(s, x);
    LegacyFields(s, x, t, None, Some(n), None);
  }

  lemma ParseLegacySeriesAt(s: string, t: string, n: string, k: nat, q: nat)
    requires k == |t| && q == k + 1 && k <= |s|
    requires s[..k] == t && s[0..k] == t && s[k..] == " (" + n + ")" && s[k] == ' '
    requires TitleText(t) && LegacyNameText(n)
    ensures ParseTitleLegacy(s) == LegacyTitle(t, None, Some(n), None)
  {
    var e := |s| - 1;
    var x := Split(k, None, TailSpan(q, Some(SeriesSpan(e, None))));
    MatchLegacySeries(s, t, n, k, q, x);
    var r := s[k..];
    assert s[q + 1..e] == r[2..|r| - 1];
    LegacySeriesFields(s, x, t, n, k, q, e);
  }

  /** `Title (Name)` in the older parser: the name is everything between the
      parentheses. */
  lemma ParseLegacySeriesForm(s: string, t: string, n: string)
    requires s == t + (" (" + n + ")") && TitleText(t) && LegacyNameText(n)
    ensures ParseTitleLegacy(s) == LegacyTitle(t, None, Some(n), None)
  {
    TitleLayout(s, t, " (" + n + ")", |t|);
    assert s[|t|] == ' ';
    ParseLegacySeriesAt(s, t, n, |t|, |t| + 1);
  }

  lemma FeastSeriesName(n: string)
    requires n == "A Song of Ice and Fire #4"
    ensures LegacyNameText(n)
  {
  }

  lemma FeastParenthetical(y: string)
    requires y == " (A Song of Ice and Fire #4)"
    ensures y == " (" + "A Song of Ice and Fire #4" + ")"
  {
    assert " (" + "A Song of Ice and Fire #4" == " (A Song of Ice and Fire #4";
    assert " (A Song of Ice and Fire #4" + ")" == " (A Song of Ice and Fire #4)";
  }

  /** Without a comma the older pattern has no number group: the `#4` stays
      in the series name. */
  lemma ExampleLegacyFeast(s: string)
    requires s == "A Feast for Crows (A Song of Ice and Fire #4)"
    ensures ParseTitleLegacy(s) == LegacyTitle("A Feast for Crows", None, Some("A Song of Ice and Fire #4"), None)
  {
    SplitFeast(s);
    FeastParenthetical(" (A Song of Ice and Fire #4)");
    FeastTitleText("A Feast for Crows");
    FeastSeriesName("A Song of Ice and Fire #4");
    ParseLegacySeriesForm(s, "A Feast for Crows", "A Song of Ice and Fire #4");
  }

  // ---------------------------------------------------------------------------
  // A decimal series number: no group of the older pattern fits, and the
  // title takes the whole input.
  // ---------------------------------------------------------------------------

  /** A series name the fallback reads as title text: no `,`, `)`, `:` or `(`,
      no line break, no surrounding whitespace. */
  predicate FallbackNameText(n: string) {
    LegacyNameText(n) && forall k :: 0 <= k < |n| ==> IsTitleChar(n[k]) && n[k] != ')'
  }

  /** A number with a fraction: what the current pattern accepts and the older
      one does not. */
  predicate FractionText(num: string) {
    IsDecimal(num) && !IsDigits(num)
  }

  /** A fractional number is digits and one `.`. */
  lemma FractionChars(num: string)
    requires FractionText(num)
    ensures forall i :: 0 <= i < |num| ==> IsDigit(num[i]) || num[i] == '.'
  {
    var k :| 0 < k < |num| - 1 && num[k] == '.' && IsDigits(num[..k]) && IsDigits(num[k + 1..]);
    forall i | 0 <= i < |num| ensures IsDigit(num[i]) || num[i] == '.' {
      if i < k {
        assert num[i] == num[..k][i];
      } else if i > k {
        assert num[i] == num[k + 1..][i - k - 1];
      }
    }
  }

  /** Where the pieces of `" (" + n + ", #" + num + ")"` sit, from `k`. */
  lemma FallbackLayout(s: string, k: nat, n: string, num: string, q: nat, c: nat, b: nat)
    requires k <= |s| && s[k..] == " (" + n + ", #" + num + ")"
    requires q == k + 1 && c == q + 1 + |n| && b == c + 3
    ensures b + |num| + 1 == |s|
    ensures s[k] == ' ' && s[q] == '(' && s[c] == ',' && s[c + 1] == ' ' && s[c + 2] == '#' && s[|s| - 1] == ')'
    ensures forall i :: 0 <= i < |n| ==> s[q + 1 + i] == n[i]
    ensures forall i :: 0 <= i < |num| ==> s[b + i] == num[i]
  {
    var r := s[k..];
    assert forall i :: k <= i < |s| ==> s[i] == r[i - k];
  }

  /** The older number group wants digits and the closing `)` only. */
  lemma LegacyNumberRejectsFraction(s: string, c: nat, num: string, b: nat)
    requires b == c + 3 && b + |num| + 1 == |s|
    requires s[c] == ',' && s[c + 1] == ' ' && s[c + 2] == '#'
    requires forall i :: 0 <= i < |num| ==> s[b + i] == num[i]
    requires !IsDigits(num)
    ensures NumberAt(Legacy, s, c) == None
  {
    assert SkipWhile(s, c + 1, JsSpace) == c + 2;
  }

  /** The greedy name stops at the comma, and no shorter name is followed by a
      number or the closing `)`. */
  lemma LegacySeriesRejectsFraction(s: string, q: nat, n: string, num: string, c: nat, b: nat)
    requires q + 1 < |s| && c == q + 1 + |n| && b == c + 3 && b + |num| + 1 == |s|
    requires s[q] == '(' && s[c] == ',' && s[c + 1] == ' ' && s[c + 2] == '#'
    requires forall i :: 0 <= i < |n| ==> s[q + 1 + i] == n[i]
    requires forall i :: 0 <= i < |num| ==> s[b + i] == num[i]
    requires FallbackNameText(n) && !IsDigits(num)
    ensures SeriesAt(Legacy, s, q) == None
  {
    assert AllIn(s, q + 1, c, Except(',')) by {
      forall i | q + 1 <= i < c ensures s[i] != ',' {
        assert s[i] == n[i - q - 1];
      }
    }
    SkipWhileIsLongest(s, q + 1, c, Except(','));
    assert SkipWhile(s, q + 1, Except(',')) == c;
    LegacyNumberRejectsFraction(s, c, num, b);
    if q + 2 < c {
      assert forall i :: q + 2 < i <= c - 1 ==> s[i] != ',' && s[i] != ')' by {
        forall i | q + 2 < i <= c - 1 ensures s[i] != ',' && s[i] != ')' {
          assert s[i] == n[i - q - 1];
        }
      }
      GreedySkip(s, q, q + 2, c - 1);
      assert s[q + 2] == n[1];
    }
  }

  /** Every character after the `(` can sit inside the title. */
  lemma FallbackTitleChars(s: string, q: nat, n: string, num: string, c: nat, b: nat)
    requires c == q + 1 + |n| && b == c + 3 && b + |num| + 1 == |s|
    requires s[c] == ',' && s[c + 1] == ' ' && s[c + 2] == '#' && s[|s| - 1] == ')'
    requires forall i :: 0 <= i < |n| ==> s[q + 1 + i] == n[i]
    requires forall i :: 0 <= i < |num| ==> s[b + i] == num[i]
    requires FallbackNameText(n) && FractionText(num)
    ensures forall i :: q + 1 <= i < |s| ==> IsTitleChar(s[i])
  {
    FractionChars(num);
    forall i | q + 1 <= i < |s| ensures IsTitleChar(s[i]) {
      if i < c {
        assert s[i] == n[i - q - 1];
      } else if b <= i < |s| - 1 {
        assert s[i] == num[i - b];
      }
    }
  }

  /** The lazy title runs to the end of the input. */
  lemma MatchFallback(s: string, t: string, k: nat, q: nat)
    requires k == |t| && q == k + 1 && q < |s| && s[0..k] == t && TitleText(t)
    requires s[k] == ' ' && s[q] == '(' && !JsSpace.Has(s[|s| - 1])
    requires SeriesAt(Legacy, s, q) == None
    requires forall i :: q + 1 <= i < |s| ==> IsTitleChar(s[i])
    ensures Match(Legacy, s) == Some(Split(|s|, None, TailSpan(|s|, None)))
  {
    TitlePieceAt(s, t, 0, k);
    TitleSkip(Legacy, s, 0, k);
    assert SkipWhile(s, k, JsSpace) == q;
    assert TitleFrom(Legacy, s, k) == TitleFrom(Legacy, s, q);
    assert TitleFrom(Legacy, s, q) == TitleFrom(Legacy, s, q + 1);
    TitleSkip(Legacy, s, q + 1, |s|);
    TailAtEnd(Legacy, s);
    TitleEndsAt(Legacy, s, |s|, TailSpan(|s|, None));
  }

  lemma FallbackFields(s: string, x: Split)
    requires x == Split(|s|, None, TailSpan(|s|, None))
    requires Match(Legacy, s) == Some(x)
    requires IsTrimmed(s, JsSpace)
    ensures ParseTitleLegacy(s) == LegacyTitle(s, None, None, None)
  {
    ParseTitleLegacyOfMatch(s, x);
    assert s[..|s|] == s;
    LegacyFields(s, x, s, None, None, None);
  }

  lemma ParseLegacyFractionAt(s: string, t: string, n: string, num: string, k: nat)
    requires k == |t| && k <= |s| && s[0..k] == t && s[k..] == " (" + n + ", #" + num + ")"
    requires TitleText(t) && FallbackNameText(n) && FractionText(num)
    ensures ParseTitleLegacy(s) == LegacyTitle(s, None, None, None)
  {
    var q := k + 1;
    var c := q + 1 + |n|;
    var b := c + 3;
    FallbackLayout(s, k, n, num, q, c, b);
    LegacySeriesRejectsFraction(s, q, n, num, c, b);
    FallbackTitleChars(s, q, n, num, c, b);
    MatchFallback(s, t, k, q);
    assert s[0] == t[0];
    FallbackFields(s, Split(|s|, None, TailSpan(|s|, None)));
  }

  /** `Title (Name, #3.5)` in the older parser: the number is not digits only,
      so no series group matches and the whole input is the title. */
  lemma ParseLegacyFractionForm(s: string, t: string, n: string, num: string)
    requires s == t + (" (" + n + ", #" + num + ")")
    requires TitleText(t) && FallbackNameText(n) && FractionText(num)
    ensures ParseTitleLegacy(s) == LegacyTitle(s, None, None, None)
  {
    TitleLayout(s, t, " (" + n + ", #" + num + ")", |t|);
    ParseLegacyFractionAt(s, t, n, num, |t|);
  }

  lemma StormlightFallbackName(n: string)
    requires n == "The Stormlight Archive"
    ensures FallbackNameText(n)
  {
  }

  lemma FractionThreeAndAHalf(num: string)
    requires num == "3.5"
    ensures FractionText(num)
  {
    assert num[1] == '.' && IsDigits(num[..1]) && IsDigits(num[2..]);
    assert !IsDigit(num[1]);
  }

  lemma DawnshardParenthetical(y: string)
    requires y == " (The Stormlight Archive, #3.5)"
    ensures y == " (" + "The Stormlight Archive" + ", #" + "3.5" + ")"
  {
    assert " (" + "The Stormlight Archive" == " (The Stormlight Archive";
    assert " (The Stormlight Archive" + ", #" == " (The Stormlight Archive, #";
    assert " (The Stormlight Archive, #" + "3.5" == " (The Stormlight Archive, #3.5";
    assert " (The Stormlight Archive, #3.5" + ")" == " (The Stormlight Archive, #3.5)";
  }

  /** The older pattern cannot read `3.5`, so the whole input is the title. */
  lemma ExampleLegacyDawnshard(s: string)
    requires s == "Dawnshard (The Stormlight Archive, #3.5)"
    ensures ParseTitleLegacy(s) == LegacyTitle(s, None, None, None)
  {
    SplitDawnshard(s);
    DawnshardParenthetical(" (The Stormlight Archive, #3.5)");
    TitleTexts("Dawnshard");
    StormlightFallbackName("The Stormlight Archive");
    FractionThreeAndAHalf("3.5");
    ParseLegacyFractionForm(s, "Dawnshard", "The Stormlight Archive", "3.5");
  }

  // ---------------------------------------------------------------------------
  // A line break the title cannot cross.
  // ---------------------------------------------------------------------------

  /** The current pattern has no match on `"a\nb"`: the title cannot take the
      line break and what follows it is no tail, so `parseTitle` throws. */
  lemma ExampleLineBreak(s: string)
    requires s == "a\nb"
    ensures Match(Current, s) == None
    ensures ParseTitle(s) == Failure(TypeError)
  {
    assert SkipWhile(s, 0, JsSpace) == 0;
    assert SkipWhile(s, 1, JsSpace) == 2;
    assert TailAt(Current, s, 0) == None;
    assert TailAt(Current, s, 1) == None;
    assert TitleFrom(Current, s, 1) == None;
  }

  /** A line break the pattern's `\s*` can absorb does not stop the match:
      on `"a\n"` the trailing whitespace takes it and the title is `a`. */
  lemma ExampleTrailingLineBreak(s: string)
    requires s == "a\n"
    ensures Match(Current, s).Some?
    ensures ParseTitle(s).Success? && ParseTitle(s).value.title == "a"
  {
    assert SkipWhile(s, 0, JsSpace) == 0;
    assert SkipWhile(s, 1, JsSpace) == 2;
    assert TailAt(Current, s, 0) == None;
    assert TailAt(Current, s, 1) == Some(TailSpan(2, None));
    assert TitleFrom(Current, s, 1) == Some(Split(1, None, TailSpan(2, None)));
    assert s[0..1] == "a";
  }
}
