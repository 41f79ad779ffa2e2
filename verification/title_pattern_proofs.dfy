/**
 * The search in TitlePattern finds exactly the match a backtracking engine
 * reports: a valid split exactly when one exists, and among all valid splits
 * the one the engine tries first.
 */
module TitlePatternProofs {
  import opened Wrappers
  import opened Text
  import opened TitlePattern

  lemma DecimalStartsWithDigit(t: string)
    requires IsDecimal(t)
    ensures |t| > 0 && IsDigit(t[0])
  {
    if !IsDigits(t) {
      var k :| 0 < k < |t| - 1 && t[k] == '.' && IsDigits(t[..k]) && IsDigits(t[k + 1..]);
      assert t[..k][0] == t[0];
    }
  }

  /** Digits, then optionally `.` and more digits, up to the final character:
      a decimal number. */
  lemma DecimalOfScan(s: string, b: nat, e: nat, f: nat)
    requires b < e <= f && f + 1 == |s|
    requires AllIn(s, b, e, Digit)
    requires f == e || (s[e] == '.' && e + 1 < f && AllIn(s, e + 1, f, Digit))
    ensures IsDecimal(s[b..f])
  {
    var t := s[b..f];
    if f == e {
      assert forall i :: 0 <= i < |t| ==> t[i] == s[b + i];
    } else {
      var k := e - b;
      assert t[k] == '.';
      var lo, hi := t[..k], t[k + 1..];
      assert forall i :: 0 <= i < |lo| ==> lo[i] == s[b + i];
      assert forall i :: 0 <= i < |hi| ==> hi[i] == s[e + 1 + i];
    }
  }

  /** Current dialect: what `NumberAt` reports is a number group. */
  lemma NumberAtCurrentSound(s: string, m: nat)
    requires m <= |s| && NumberAt(Current, s, m).Some?
    ensures NumberValid(Current, s, m, NumberAt(Current, s, m).value)
  {
    var a := SkipWhile(s, m, SeriesSeparator);
    var b := if a < |s| && s[a] == '#' then a + 1 else a;
    var e := SkipWhile(s, b, Digit);
    var f := if e + 1 < |s| && s[e] == '.' && IsDigit(s[e + 1]) then SkipWhile(s, e + 1, Digit) else e;
    assert NumberAt(Current, s, m) == Some(NumberSpan(a, b));
    assert b < e && f + 1 == |s| && s[f] == ')';
    DecimalOfScan(s, b, e, f);
  }

  /** The digit scan over digits only reaches the final `)`. */
  lemma DigitsScan(s: string, b: nat)
    requires b < |s| && s[|s| - 1] == ')' && IsDigits(s[b..|s| - 1])
    ensures SkipWhile(s, b, Digit) == |s| - 1
  {
    var t := s[b..|s| - 1];
    assert AllIn(s, b, |s| - 1, Digit) by {
      forall i | b <= i < |s| - 1 ensures IsDigit(s[i]) { assert s[i] == t[i - b]; }
    }
    SkipWhileIsLongest(s, b, |s| - 1, Digit);
  }

  /** The digit scan over `digits.digits` stops at the `.`, and the scan
      after it reaches the final `)`. */
  lemma FractionScan(s: string, b: nat, k: nat)
    requires b < |s| && s[|s| - 1] == ')'
    requires var t := s[b..|s| - 1];
      0 < k < |t| - 1 && t[k] == '.' && IsDigits(t[..k]) && IsDigits(t[k + 1..])
    ensures SkipWhile(s, b, Digit) == b + k && s[b + k] == '.' && IsDigit(s[b + k + 1])
    ensures SkipWhile(s, b + k + 1, Digit) == |s| - 1
  {
    var t := s[b..|s| - 1];
    var lo, hi := t[..k], t[k + 1..];
    assert AllIn(s, b, b + k, Digit) by {
      forall i | b <= i < b + k ensures IsDigit(s[i]) { assert s[i] == lo[i - b]; }
    }
    SkipWhileIsLongest(s, b, b + k, Digit);
    assert s[b + k] == t[k];
    assert AllIn(s, b + k + 1, |s| - 1, Digit) by {
      forall i | b + k + 1 <= i < |s| - 1 ensures IsDigit(s[i]) { assert s[i] == hi[i - b - k - 1]; }
    }
    SkipWhileIsLongest(s, b + k + 1, |s| - 1, Digit);
    assert s[b + k + 1] == hi[0];
  }

  /** The digit scan of `NumberAt` (Current) succeeds on a decimal number
      followed by the final `)`. */
  lemma DecimalScan(s: string, b: nat)
    requires b < |s| && s[|s| - 1] == ')' && IsDecimal(s[b..|s| - 1])
    ensures var e := SkipWhile(s, b, Digit);
      var f := if e + 1 < |s| && s[e] == '.' && IsDigit(s[e + 1]) then SkipWhile(s, e + 1, Digit) else e;
      b < e && f + 1 == |s| && s[f] == ')'
  {
    var t := s[b..|s| - 1];
    if IsDigits(t) {
      DigitsScan(s, b);
    } else {
      var k :| 0 < k < |t| - 1 && t[k] == '.' && IsDigits(t[..k]) && IsDigits(t[k + 1..]);
      FractionScan(s, b, k);
    }
  }

  /** Current dialect: every number group at `m` is the one `NumberAt` reports. */
  lemma NumberAtCurrentComplete(s: string, m: nat, n: NumberSpan)
    requires m <= |s| && NumberValid(Current, s, m, n)
    ensures NumberAt(Current, s, m) == Some(n)
  {
    var a := SkipWhile(s, m, SeriesSeparator);
    var t := s[n.start..|s| - 1];
    DecimalStartsWithDigit(t);
    assert s[n.start] == t[0];
    SkipWhileIsLongest(s, m, n.sepEnd, SeriesSeparator);
    assert n.sepEnd == a;
    DecimalScan(s, n.start);
  }

  /** Legacy dialect: `NumberAt` reports exactly the number group at `m`. */
  lemma NumberAtLegacyExact(s: string, m: nat)
    requires m <= |s|
    ensures NumberAt(Legacy, s, m).Some? ==> NumberValid(Legacy, s, m, NumberAt(Legacy, s, m).value)
    ensures forall n :: NumberValid(Legacy, s, m, n) ==> NumberAt(Legacy, s, m) == Some(n)
  {
    if m < |s| && s[m] == ',' {
      var a := SkipWhile(s, m + 1, JsSpace);
      forall n | NumberValid(Legacy, s, m, n) ensures NumberAt(Legacy, s, m) == Some(n) {
        var t := s[n.start..|s| - 1];
        assert s[n.start] == t[0];
        SkipWhileIsLongest(s, m + 1, n.sepEnd, JsSpace);
        assert n.sepEnd == a;
        assert AllIn(s, n.start, |s| - 1, Digit) by {
          forall i | n.start <= i < |s| - 1 ensures IsDigit(s[i]) { assert s[i] == t[i - n.start]; }
        }
        SkipWhileIsLongest(s, n.start, |s| - 1, Digit);
      }
    }
  }

  /** The number group is determined by where it starts, and `NumberAt`
      finds it exactly when it exists. */
  lemma NumberAtExact(d: Dialect, s: string, m: nat)
    requires m <= |s|
    ensures NumberAt(d, s, m).Some? ==> NumberValid(d, s, m, NumberAt(d, s, m).value)
    ensures forall n :: NumberValid(d, s, m, n) ==> NumberAt(d, s, m) == Some(n)
  {
    match d
    case Current =>
      if NumberAt(d, s, m).Some? {
        NumberAtCurrentSound(s, m);
      }
      forall n | NumberValid(d, s, m, n) ensures NumberAt(d, s, m) == Some(n) {
        NumberAtCurrentComplete(s, m, n);
      }
    case Legacy =>
      NumberAtLegacyExact(s, m);
  }

  /** No split of the parenthetical ends its name at `m` when neither the
      number group nor the bare `)` fits there. */
  lemma NoSeriesEndingAt(d: Dialect, s: string, q: nat, m: nat)
    requires m <= |s| && NumberAt(d, s, m).None? && !(m + 1 == |s| && s[m] == ')')
    ensures forall y :: SeriesValid(d, s, q, y) ==> y.nameEnd != m
  {
    NumberAtExact(d, s, m);
  }

  /** `r` is what the lazy name search from name end `m` must report: the
      first parenthetical whose name ends at `m` or later, or `None` when
      every name ends before `m`. */
  ghost predicate LazyFirstFrom(s: string, q: nat, m: nat, r: Option<SeriesSpan>) {
    && (r.Some? ==>
         && SeriesValid(Current, s, q, r.value) && m <= r.value.nameEnd
         && forall y :: SeriesValid(Current, s, q, y) && m <= y.nameEnd ==> SeriesNoLater(Current, r.value, y))
    && (r.None? ==> forall y :: SeriesValid(Current, s, q, y) ==> y.nameEnd < m)
  }

  /** A parenthetical whose name ends at `m` comes first among those whose
      name ends at `m` or later, unless another takes the number group where
      it does not. */
  lemma SeriesEndsHere(s: string, q: nat, m: nat, x: SeriesSpan)
    requires q + 1 < m < |s| && s[q] == '(' && AllIn(s, q + 1, m, Except('#'))
    requires x.nameEnd == m
    requires match x.number
      case Some(n) => NumberValid(Current, s, m, n)
      case None => m + 1 == |s| && s[m] == ')' && forall n :: !NumberValid(Current, s, m, n)
    ensures LazyFirstFrom(s, q, m, Some(x))
  {
  }

  /** A name cannot run past an excluded character at `m`, and none ends
      at `m` here. */
  lemma SeriesNameStopsAt(d: Dialect, s: string, q: nat, m: nat, c: char)
    requires q < m < |s| && s[m] == c && NameClass(d) == Except(c)
    requires forall y :: SeriesValid(d, s, q, y) ==> y.nameEnd != m
    ensures forall y :: SeriesValid(d, s, q, y) ==> y.nameEnd < m
  {
    forall y | SeriesValid(d, s, q, y) ensures y.nameEnd < m {
    }
  }

  /** When no name ends at `m`, what holds from `m + 1` on holds from `m`
      on. */
  lemma SeriesSkipStep(s: string, q: nat, m: nat, r: Option<SeriesSpan>)
    requires forall y :: SeriesValid(Current, s, q, y) ==> y.nameEnd != m
    requires LazyFirstFrom(s, q, m + 1, r)
    ensures LazyFirstFrom(s, q, m, r)
  {
  }

  /** The lazy series-name search from name end `m`. */
  lemma {:induction false} SeriesLazyFirst(s: string, q: nat, m: nat)
    requires q + 1 < m <= |s| && s[q] == '(' && AllIn(s, q + 1, m, Except('#'))
    ensures LazyFirstFrom(s, q, m, SeriesLazy(s, q, m))
    decreases |s| - m
  {
    if m == |s| {
      return;
    }
    if NumberAt(Current, s, m).Some? {
      NumberAtExact(Current, s, m);
      SeriesEndsHere(s, q, m, SeriesSpan(m, NumberAt(Current, s, m)));
      return;
    }
    if m + 1 == |s| && s[m] == ')' {
      NumberAtExact(Current, s, m);
      SeriesEndsHere(s, q, m, SeriesSpan(m, None));
      return;
    }
    NoSeriesEndingAt(Current, s, q, m);
    if s[m] != '#' {
      SeriesLazyFirst(s, q, m + 1);
      SeriesSkipStep(s, q, m, SeriesLazy(s, q, m + 1));
      assert SeriesLazy(s, q, m) == SeriesLazy(s, q, m + 1);
    } else {
      assert SeriesLazy(s, q, m) == None;
      SeriesNameStopsAt(Current, s, q, m, '#');
    }
  }

  /** The greedy series-name search from name end `m` downwards. */
  lemma {:induction false} SeriesGreedyFirst(s: string, q: nat, m: nat)
    requires q + 1 < m <= |s| && s[q] == '(' && AllIn(s, q + 1, m, Except(','))
    ensures SeriesGreedy(s, q, m).Some? ==>
      var x := SeriesGreedy(s, q, m).value;
      && SeriesValid(Legacy, s, q, x) && x.nameEnd <= m
      && forall y :: SeriesValid(Legacy, s, q, y) && y.nameEnd <= m ==> SeriesNoLater(Legacy, x, y)
    ensures SeriesGreedy(s, q, m).None? ==> forall y :: SeriesValid(Legacy, s, q, y) ==> m < y.nameEnd
    decreases m
  {
    NumberAtExact(Legacy, s, m);
    if NumberAt(Legacy, s, m).None? && !(m + 1 == |s| && s[m] == ')') && q + 2 < m {
      SeriesGreedyFirst(s, q, m - 1);
    }
  }

  /** The parenthetical group at `q`. */
  lemma SeriesAtFirst(d: Dialect, s: string, q: nat)
    requires q <= |s|
    ensures SeriesAt(d, s, q).Some? ==>
      && SeriesValid(d, s, q, SeriesAt(d, s, q).value)
      && forall y :: SeriesValid(d, s, q, y) ==> SeriesNoLater(d, SeriesAt(d, s, q).value, y)
    ensures SeriesAt(d, s, q).None? ==> forall y :: !SeriesValid(d, s, q, y)
  {
    if q + 1 < |s| && s[q] == '(' && NameClass(d).Has(s[q + 1]) {
      match d
      case Current =>
        SeriesLazyFirst(s, q, q + 2);
      case Legacy =>
        var top := SkipWhile(s, q + 1, NameClass(Legacy));
        SeriesGreedyFirst(s, q, top);
        forall y | SeriesValid(d, s, q, y) ensures y.nameEnd <= top {
          SkipWhileIsLongest(s, q + 1, y.nameEnd, NameClass(Legacy));
        }
    } else {
      forall y | SeriesValid(d, s, q, y) ensures false {
      }
    }
  }

  /** The whitespace before the parenthetical or the end is a longest run. */
  lemma TailStartForced(d: Dialect, s: string, k: nat, t: TailSpan)
    requires TailValid(d, s, k, t)
    ensures t.seriesAt == SkipWhile(s, k, JsSpace)
  {
    SkipWhileIsLongest(s, k, t.seriesAt, JsSpace);
  }

  /** The tail from `k` when the parenthetical matches after the whitespace
      run, first as `x`. */
  lemma TailFirstWith(d: Dialect, s: string, k: nat, q: nat, x: SeriesSpan)
    requires k <= |s| && q == SkipWhile(s, k, JsSpace)
    requires SeriesValid(d, s, q, x) && forall y :: SeriesValid(d, s, q, y) ==> SeriesNoLater(d, x, y)
    ensures var t := TailSpan(q, Some(x));
      && TailValid(d, s, k, t)
      && forall t' :: TailValid(d, s, k, t') ==> t'.seriesAt == q && TailNoLater(d, t, t')
  {
    forall t' | TailValid(d, s, k, t') ensures t'.seriesAt == q {
      TailStartForced(d, s, k, t');
    }
  }

  /** The tail from `k` when no parenthetical matches after the whitespace
      run: only the end of input can follow it. */
  lemma TailFirstWithout(d: Dialect, s: string, k: nat, q: nat)
    requires k <= |s| && q == SkipWhile(s, k, JsSpace)
    requires forall y :: !SeriesValid(d, s, q, y)
    ensures q == |s| ==>
      var t := TailSpan(q, None);
      && TailValid(d, s, k, t)
      && forall t' :: TailValid(d, s, k, t') ==> t'.seriesAt == q && TailNoLater(d, t, t')
    ensures q != |s| ==> forall t' :: !TailValid(d, s, k, t')
  {
    forall t' | TailValid(d, s, k, t') ensures t'.seriesAt == q {
      TailStartForced(d, s, k, t');
    }
  }

  /** Whitespace, the optional parenthetical and the end of input, from `k`:
      the whitespace run is forced, the parenthetical is tried first. */
  lemma TailAtFirst(d: Dialect, s: string, k: nat)
    requires k <= |s|
    ensures TailAt(d, s, k).Some? ==>
      var t := TailAt(d, s, k).value;
      && TailValid(d, s, k, t)
      && forall t' :: TailValid(d, s, k, t') ==> t'.seriesAt == t.seriesAt && TailNoLater(d, t, t')
    ensures TailAt(d, s, k).None? ==> forall t' :: !TailValid(d, s, k, t')
  {
    var q := SkipWhile(s, k, JsSpace);
    SeriesAtFirst(d, s, q);
    match SeriesAt(d, s, q)
    case Some(x) =>
      TailFirstWith(d, s, k, q, x);
      assert TailAt(d, s, k) == Some(TailSpan(q, Some(x)));
    case None =>
      TailFirstWithout(d, s, k, q);
      assert TailAt(d, s, k) == if q == |s| then Some(TailSpan(q, None)) else None;
  }

  /** The lazy subtitle search: the subtitle ends at `j` or later. */
  lemma {:induction false} SubtitleFromFirst(d: Dialect, s: string, j: nat)
    requires j <= |s|
    ensures SubtitleFrom(d, s, j).Some? ==>
      var (e, t) := SubtitleFrom(d, s, j).value;
      && j <= e <= |s| && AllIn(s, j, e, JsDot) && TailValid(d, s, e, t)
      && forall e': nat, t' :: j <= e' <= |s| && AllIn(s, j, e', JsDot) && TailValid(d, s, e', t') ==>
           e < e' || (e == e' && TailNoLater(d, t, t'))
    ensures SubtitleFrom(d, s, j).None? ==>
      forall e': nat, t' :: j <= e' <= |s| && AllIn(s, j, e', JsDot) ==> !TailValid(d, s, e', t')
    decreases |s| - j
  {
    TailAtFirst(d, s, j);
    if TailAt(d, s, j).None? && j < |s| && JsDot.Has(s[j]) {
      SubtitleFromFirst(d, s, j + 1);
    }
  }

  /** With the greedy `\s*` after the colon at its longest (ending at `p`), no
      subtitle match is lost: a shorter run leaves whitespace that the
      subtitle group or the whitespace before the tail absorbs. */
  lemma SubtitleWhitespaceForced(d: Dialect, s: string, i: nat, p: nat, sub: SubtitleSpan, t: TailSpan)
    requires i < |s| && p == SkipWhile(s, i + 1, JsSpace)
    requires SubtitleValid(d, s, i, sub, t)
    ensures sub.start <= p
    ensures p <= sub.end ==> AllIn(s, p, sub.end, JsDot) && TailValid(d, s, sub.end, t)
    ensures sub.end < p ==> TailValid(d, s, p, t)
  {
    SkipWhileIsLongest(s, i + 1, sub.start, JsSpace);
  }

  /** The subtitle group with the title ending at `i`: when it matches, the
      split found comes first among those with this title; when it does not,
      no split with this title has a subtitle. */
  lemma SubtitleAtFirst(d: Dialect, s: string, i: nat)
    requires i <= |s| && AllIn(s, 0, i, JsDot)
    ensures SubtitleAt(d, s, i).Some? ==>
      var x := SubtitleAt(d, s, i).value;
      && SplitValid(d, s, x) && x.titleEnd == i && x.subtitle.Some?
      && forall y :: SplitValid(d, s, y) && y.titleEnd == i ==> SplitNoLater(d, x, y)
    ensures SubtitleAt(d, s, i).None? ==>
      forall y :: SplitValid(d, s, y) && y.titleEnd == i ==> y.subtitle.None?
  {
    if i < |s| && s[i] == ':' {
      var p := SkipWhile(s, i + 1, JsSpace);
      SubtitleFromFirst(d, s, p);
      forall y | SplitValid(d, s, y) && y.titleEnd == i && y.subtitle.Some?
        ensures SubtitleAt(d, s, i).Some?
        ensures y.subtitle.value.start <= p
        ensures y.subtitle.value.start == p ==>
          var (j, t) := SubtitleFrom(d, s, p).value;
          j < y.subtitle.value.end || (j == y.subtitle.value.end && TailNoLater(d, t, y.tail))
      {
        var sub := y.subtitle.value;
        SubtitleWhitespaceForced(d, s, i, p, sub, y.tail);
        if sub.end < p {
          assert AllIn(s, p, p, JsDot);
        }
      }
    }
  }

  /** `r` is what the lazy title search from `i` must report: the first
      split whose title ends at `i` or later, or `None` when every title
      ends before `i`. */
  ghost predicate TitleFirstFrom(d: Dialect, s: string, i: nat, r: Option<Split>) {
    && (r.Some? ==>
         && SplitValid(d, s, r.value) && i <= r.value.titleEnd
         && forall y :: SplitValid(d, s, y) && i <= y.titleEnd ==> SplitNoLater(d, r.value, y))
    && (r.None? ==> forall y :: SplitValid(d, s, y) ==> y.titleEnd < i)
  }

  /** A title ending at `i` with a subtitle comes first from `i` on. */
  lemma TitleEndsWithSubtitle(d: Dialect, s: string, i: nat)
    requires i <= |s| && AllIn(s, 0, i, JsDot) && SubtitleAt(d, s, i).Some?
    ensures TitleFirstFrom(d, s, i, SubtitleAt(d, s, i))
  {
    SubtitleAtFirst(d, s, i);
  }

  /** A title ending at `i` with no subtitle but a tail comes first from `i`
      on when no subtitle fits there. */
  lemma TitleEndsWithTail(d: Dialect, s: string, i: nat)
    requires i <= |s| && AllIn(s, 0, i, JsDot) && SubtitleAt(d, s, i).None? && TailAt(d, s, i).Some?
    ensures TitleFirstFrom(d, s, i, Some(Split(i, None, TailAt(d, s, i).value)))
  {
    SubtitleAtFirst(d, s, i);
    TailAtFirst(d, s, i);
  }

  /** No split has its title end at `i` when neither a subtitle nor a tail
      fits there. */
  lemma NoTitleEndingAt(d: Dialect, s: string, i: nat)
    requires i <= |s| && AllIn(s, 0, i, JsDot) && SubtitleAt(d, s, i).None? && TailAt(d, s, i).None?
    ensures forall y :: SplitValid(d, s, y) ==> y.titleEnd != i
  {
    SubtitleAtFirst(d, s, i);
    TailAtFirst(d, s, i);
  }

  /** When no title ends at `i`, what holds from `i + 1` on holds from `i`
      on. */
  lemma TitleSkipStep(d: Dialect, s: string, i: nat, r: Option<Split>)
    requires forall y :: SplitValid(d, s, y) ==> y.titleEnd != i
    requires TitleFirstFrom(d, s, i + 1, r)
    ensures TitleFirstFrom(d, s, i, r)
  {
  }

  /** A title cannot run past the end of the input or a line terminator. */
  lemma TitleStopsAt(d: Dialect, s: string, i: nat)
    requires i <= |s| && (i < |s| ==> !JsDot.Has(s[i]))
    requires forall y :: SplitValid(d, s, y) ==> y.titleEnd != i
    ensures forall y :: SplitValid(d, s, y) ==> y.titleEnd < i
  {
    forall y | SplitValid(d, s, y) ensures y.titleEnd < i {
    }
  }

  /** The lazy title search: the title ends at `i` or later. */
  lemma {:induction false} TitleFromFirst(d: Dialect, s: string, i: nat)
    requires i <= |s| && AllIn(s, 0, i, JsDot)
    ensures TitleFirstFrom(d, s, i, TitleFrom(d, s, i))
    decreases |s| - i
  {
    if SubtitleAt(d, s, i).Some? {
      TitleEndsWithSubtitle(d, s, i);
      return;
    }
    if TailAt(d, s, i).Some? {
      TitleEndsWithTail(d, s, i);
      return;
    }
    NoTitleEndingAt(d, s, i);
    if i < |s| && JsDot.Has(s[i]) {
      TitleFromFirst(d, s, i + 1);
      TitleSkipStep(d, s, i, TitleFrom(d, s, i + 1));
      assert TitleFrom(d, s, i) == TitleFrom(d, s, i + 1);
    } else {
      assert TitleFrom(d, s, i) == None;
      TitleStopsAt(d, s, i);
    }
  }

  /** `Match` reports a match exactly when the pattern matches, and then the
      one a backtracking engine reports: the first in the engine's order. */
  lemma MatchIsFirst(d: Dialect, s: string)
    ensures Match(d, s).Some? ==> SplitValid(d, s, Match(d, s).value)
    ensures Match(d, s).Some? ==> forall y :: SplitValid(d, s, y) ==> SplitNoLater(d, Match(d, s).value, y)
    ensures Match(d, s).None? <==> forall y :: !SplitValid(d, s, y)
  {
    TitleFromFirst(d, s, 0);
  }
}
