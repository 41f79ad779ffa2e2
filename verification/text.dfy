/**
 * Characters classes, scanners and string utilities used by the title parsers,
 * the frontmatter builder and the meeting-notes formatter.
 */
module Text {

  /** The character classes the regular expressions and string methods use. */
  datatype CharClass =
    | JsSpace          // JavaScript `\s` and the characters `String.prototype.trim` removes
    | JsDot            // JavaScript `.` without the `s` flag: anything but a line terminator
    | Digit            // `\d`
    | SeriesSeparator  // `[,\s]`
    | RubySpace        // Ruby `\s`
    | RubyStripSpace   // what Ruby's `String#strip` removes
    | Except(c: char)  // `[^c]`
  {
    predicate Has(ch: char) {
      match this
      case JsSpace => IsJsWhiteSpace(ch) || IsJsLineTerminator(ch)
      case JsDot => !IsJsLineTerminator(ch)
      case Digit => '0' <= ch <= '9'
      case SeriesSeparator => ch == ',' || IsJsWhiteSpace(ch) || IsJsLineTerminator(ch)
      case RubySpace => ch == ' ' || ch == '\t' || ch == '\n' || ch == '\U{B}' || ch == '\U{C}' || ch == '\r'
      case RubyStripSpace => ch == '\0' || ch == ' ' || ch == '\t' || ch == '\n' || ch == '\U{B}' || ch == '\U{C}' || ch == '\r'
      case Except(c) => ch != c
    }
  }

  /** ECMAScript WhiteSpace: tab, vertical tab, form feed, space, no-break space,
      the byte-order mark and the Unicode space separators (category Zs). */
  predicate IsJsWhiteSpace(ch: char) {
    || ch == '\t' || ch == '\U{B}' || ch == '\U{C}' || ch == ' ' || ch == '\U{A0}' || ch == '\U{FEFF}'
    || ch == '\U{1680}' || ('\U{2000}' <= ch <= '\U{200A}') || ch == '\U{202F}' || ch == '\U{205F}'
    || ch == '\U{3000}'
  }

  /** ECMAScript LineTerminator. */
  predicate IsJsLineTerminator(ch: char) {
    ch == '\n' || ch == '\r' || ch == '\U{2028}' || ch == '\U{2029}'
  }

  predicate IsDigit(ch: char) {
    Digit.Has(ch)
  }

  /** Every character of `s[i..j]` is in `cls`. */
  predicate AllIn(s: string, i: nat, j: nat, cls: CharClass)
    requires i <= j <= |s|
  {
    forall k :: i <= k < j ==> cls.Has(s[k])
  }

  /** The end of the longest run of `cls` characters starting at `i`: what a
      greedy `[cls]*` consumes. */
  function SkipWhile(s: string, i: nat, cls: CharClass): (j: nat)
    requires i <= |s|
    ensures i <= j <= |s| && AllIn(s, i, j, cls)
    ensures j < |s| ==> !cls.Has(s[j])
    decreases |s| - i
  {
    if i < |s| && cls.Has(s[i]) then SkipWhile(s, i + 1, cls) else i
  }

  /** A run that stays in `cls` ends no later than the longest one. */
  lemma SkipWhileIsLongest(s: string, i: nat, j: nat, cls: CharClass)
    requires i <= j <= |s| && AllIn(s, i, j, cls)
    ensures j <= SkipWhile(s, i, cls)
  {
  }

  /** The run stops no later than the first character outside `cls`. */
  lemma SkipWhileStopsAt(s: string, i: nat, j: nat, cls: CharClass)
    requires i <= j < |s| && !cls.Has(s[j])
    ensures SkipWhile(s, i, cls) <= j
  {
  }

  /** The start of the longest run of `cls` characters ending at `j`. */
  function SkipBackWhile(s: string, j: nat, cls: CharClass): (i: nat)
    requires j <= |s|
    ensures i <= j && AllIn(s, i, j, cls)
    ensures i > 0 ==> !cls.Has(s[i - 1])
  {
    if j > 0 && cls.Has(s[j - 1]) then SkipBackWhile(s, j - 1, cls) else j
  }

  /** `s` neither starts nor ends with a `cls` character. */
  predicate IsTrimmed(s: string, cls: CharClass) {
    |s| == 0 || (!cls.Has(s[0]) && !cls.Has(s[|s| - 1]))
  }

  /** Removes the leading and trailing characters of `cls`. */
  function Trim(s: string, cls: CharClass): (r: string)
    ensures IsTrimmed(r, cls)
    ensures exists a, b :: 0 <= a <= b <= |s| && r == s[a..b] && AllIn(s, 0, a, cls) && AllIn(s, b, |s|, cls)
  {
    var a := SkipWhile(s, 0, cls);
    if a == |s| then
      assert s[a..a] == "" && AllIn(s, a, a, cls);
      ""
    else
      var b := SkipBackWhile(s, |s|, cls);
      s[a..b]
  }

  /** `String.prototype.trim`. */
  function JsTrim(s: string): (r: string)
    ensures IsTrimmed(r, JsSpace)
  {
    Trim(s, JsSpace)
  }

  /** Ruby's `String#strip`. */
  function RubyStrip(s: string): (r: string)
    ensures IsTrimmed(r, RubyStripSpace)
  {
    Trim(s, RubyStripSpace)
  }

  /** Trimming a string that is already trimmed changes nothing. */
  lemma TrimTrimmed(s: string, cls: CharClass)
    requires IsTrimmed(s, cls)
    ensures Trim(s, cls) == s
  {
    if |s| > 0 {
      assert SkipWhile(s, 0, cls) == 0;
      assert SkipBackWhile(s, |s|, cls) == |s|;
      assert s[0..|s|] == s;
    }
  }

  /** Trimming adds nothing: a character absent from the input is absent
      from the result. */
  lemma TrimKeepsOnlyInputChars(s: string, cls: CharClass, ch: char)
    requires ch !in s
    ensures ch !in Trim(s, cls)
  {
  }

  predicate StartsWith(s: string, prefix: string) {
    |prefix| <= |s| && s[..|prefix|] == prefix
  }

  predicate EndsWith(s: string, suffix: string) {
    |suffix| <= |s| && s[|s| - |suffix|..] == suffix
  }

  /** `t` occurs in `s` starting at position `i`. */
  predicate OccursAt(s: string, t: string, i: nat) {
    i + |t| <= |s| && s[i..i + |t|] == t
  }

  /** JavaScript `includes` / Ruby `include?`: a left-to-right substring search. */
  function Includes(s: string, t: string): (b: bool)
    ensures b <==> exists i :: OccursAt(s, t, i)
    decreases |s|
  {
    if |t| > |s| then
      assert forall i :: !OccursAt(s, t, i);
      false
    else if s[..|t|] == t then
      assert OccursAt(s, t, 0);
      true
    else
      var r := Includes(s[1..], t);
      assert r ==> exists i :: OccursAt(s, t, i) by {
        if r {
          var i: nat :| OccursAt(s[1..], t, i);
          assert s[1..][i..i + |t|] == s[i + 1..i + 1 + |t|];
          assert OccursAt(s, t, i + 1);
        }
      }
      assert (exists i :: OccursAt(s, t, i)) ==> r by {
        if exists i :: OccursAt(s, t, i) {
          var i: nat :| OccursAt(s, t, i);
          assert i != 0;
          assert s[1..][i - 1..i - 1 + |t|] == s[i..i + |t|];
          assert OccursAt(s[1..], t, i - 1);
        }
      }
      r
  }

  /** `s.split(sep)` for a one-character separator (JavaScript and Ruby agree
      except for Ruby dropping trailing empty pieces). */
  function Split(s: string, sep: char): (parts: seq<string>)
    ensures |parts| >= 1
    ensures forall k :: 0 <= k < |parts| ==> sep !in parts[k]
    decreases |s|
  {
    var k := SkipWhile(s, 0, Except(sep));
    if k == |s| then
      assert forall i :: 0 <= i < |s| ==> s[i] != sep;
      [s]
    else
      assert forall i :: 0 <= i < k ==> s[..k][i] != sep;
      [s[..k]] + Split(s[k + 1..], sep)
  }

  /** `parts.join(sep)`. */
  function Join(parts: seq<string>, sep: char): (s: string)
  {
    if |parts| == 0 then ""
    else if |parts| == 1 then parts[0]
    else parts[0] + [sep] + Join(parts[1..], sep)
  }

  /** Joining the pieces of a split gives back the input. */
  lemma {:induction false} JoinSplit(s: string, sep: char)
    ensures Join(Split(s, sep), sep) == s
    decreases |s|
  {
    var k := SkipWhile(s, 0, Except(sep));
    if k < |s| {
      JoinSplit(s[k + 1..], sep);
      assert s == s[..k] + [sep] + s[k + 1..];
    }
  }

  /** Splitting a join of separator-free pieces gives back the pieces. */
  lemma {:induction false} SplitJoin(parts: seq<string>, sep: char)
    requires |parts| >= 1
    requires forall k :: 0 <= k < |parts| ==> sep !in parts[k]
    ensures Split(Join(parts, sep), sep) == parts
    decreases |parts|
  {
    var s := Join(parts, sep);
    var p := parts[0];
    if |parts| == 1 {
      assert SkipWhile(s, 0, Except(sep)) == |s| by {
        SkipWhileIsLongest(s, 0, |s|, Except(sep));
      }
    } else {
      var rest := Join(parts[1..], sep);
      assert s == p + [sep] + rest;
      assert AllIn(s, 0, |p|, Except(sep)) by {
        forall i | 0 <= i < |p| ensures s[i] != sep {
          assert s[i] == p[i];
        }
      }
      SkipWhileIsLongest(s, 0, |p|, Except(sep));
      assert s[|p|] == sep;
      assert SkipWhile(s, 0, Except(sep)) == |p|;
      assert s[..|p|] == p;
      assert s[|p| + 1..] == rest;
      SplitJoin(parts[1..], sep);
    }
  }

  /** A nonempty sequence is its head followed by its tail, also inside a
      concatenation. */
  lemma ConsAppend<T>(a: seq<T>, b: seq<T>)
    requires |a| > 0
    ensures a == [a[0]] + a[1..] && a + b == [a[0]] + (a[1..] + b)
  {
  }

  lemma ConcatAssoc<T>(x: seq<T>, y: seq<T>, z: seq<T>)
    ensures (x + y) + z == x + (y + z)
  {
  }

  /** `s.replace(/from/g, to)` for single characters. */
  function ReplaceAll(s: string, from: char, to: char): (r: string)
    ensures |r| == |s|
    ensures forall k :: 0 <= k < |s| ==> r[k] == (if s[k] == from then to else s[k])
  {
    if |s| == 0 then "" else [if s[0] == from then to else s[0]] + ReplaceAll(s[1..], from, to)
  }

  /** The elements of `s` in order, each kept only at its first occurrence:
      `[...new Set(s)]`. */
  function Dedupe<T(==)>(s: seq<T>): (r: seq<T>)
    ensures forall x :: x in r ==> x in s
    ensures forall x :: x in s ==> x in r
    ensures forall i, j :: 0 <= i < j < |r| ==> r[i] != r[j]
    ensures |r| <= |s|
  {
    DedupeAfter([], s)
  }

  /** Appends to `seen` the elements of `rest` not already present. */
  function DedupeAfter<T(==)>(seen: seq<T>, rest: seq<T>): (r: seq<T>)
    requires forall i, j :: 0 <= i < j < |seen| ==> seen[i] != seen[j]
    ensures forall x :: x in r ==> x in seen || x in rest
    ensures forall x :: x in seen ==> x in r
    ensures forall x :: x in rest ==> x in r
    ensures forall i, j :: 0 <= i < j < |r| ==> r[i] != r[j]
    ensures |seen| <= |r| <= |seen| + |rest| && r[..|seen|] == seen
    decreases |rest|
  {
    if |rest| == 0 then seen
    else if rest[0] in seen then DedupeAfter(seen, rest[1..])
    else DedupeAfter(seen + [rest[0]], rest[1..])
  }

  /** The elements of `s` at their first occurrence, in order: the reference
      reading of `[...new Set(s)]`. */
  function FirstOccurrences<T(==)>(s: seq<T>): (r: seq<T>)
    ensures forall x :: x in r ==> x in s
    ensures forall x :: x in s ==> x in r
    ensures forall i, j :: 0 <= i < j < |r| ==> r[i] != r[j]
  {
    if |s| == 0 then []
    else
      var init := s[..|s| - 1];
      FirstOccurrences(init) + (if s[|s| - 1] in init then [] else [s[|s| - 1]])
  }

  /** One more element adds itself to the first occurrences, unless it
      occurred before. */
  lemma FirstOccurrencesSnoc<T>(s: seq<T>, a: T)
    ensures FirstOccurrences(s + [a]) == FirstOccurrences(s) + (if a in s then [] else [a])
  {
    assert (s + [a])[..|s|] == s;
  }

  /** `DedupeAfter` takes the head of `rest` over to `seen` unless it is
      there already. */
  lemma DedupeAfterHead<T>(seen: seq<T>, rest: seq<T>)
    requires forall i, j :: 0 <= i < j < |seen| ==> seen[i] != seen[j]
    requires |rest| > 0
    ensures DedupeAfter(seen, rest) == DedupeAfter(seen + (if rest[0] in seen then [] else [rest[0]]), rest[1..])
  {
    if rest[0] in seen {
      assert seen + [] == seen;
    }
  }

  /** One step of `DedupeAfter` on the first occurrences of `s` moves the
      head of `rest` over to `s`. */
  lemma DedupeStep<T>(s: seq<T>, rest: seq<T>)
    requires |rest| > 0
    ensures DedupeAfter(FirstOccurrences(s), rest) == DedupeAfter(FirstOccurrences(s + [rest[0]]), rest[1..])
  {
    var f := FirstOccurrences(s);
    FirstOccurrencesSnoc(s, rest[0]);
    assert rest[0] in s <==> rest[0] in f;
    DedupeAfterHead(f, rest);
  }

  lemma HeadMoved<T>(s: seq<T>, rest: seq<T>)
    requires |rest| > 0
    ensures s + [rest[0]] + rest[1..] == s + rest
  {
  }

  /** Dropping repeats front to back keeps exactly the first occurrences. */
  lemma {:induction false} DedupeAfterIsFirstOccurrences<T>(s: seq<T>, rest: seq<T>)
    ensures DedupeAfter(FirstOccurrences(s), rest) == FirstOccurrences(s + rest)
    decreases |rest|
  {
    if |rest| == 0 {
      assert s + rest == s;
    } else {
      DedupeStep(s, rest);
      DedupeAfterIsFirstOccurrences(s + [rest[0]], rest[1..]);
      HeadMoved(s, rest);
    }
  }

  /** `Dedupe` keeps each element at its first occurrence. */
  lemma DedupeIsFirstOccurrences<T>(s: seq<T>)
    ensures Dedupe(s) == FirstOccurrences(s)
  {
    DedupeAfterIsFirstOccurrences([], s);
    assert [] + s == s;
  }
}
