/**
 * `format_meeting_notes`: turns exported meeting notes into a nested bullet
 * list.  The input is cut into lines at `"\n"`, empty lines are dropped and
 * so are the first two remaining lines (title and meta information); then
 * each line is rewritten on its own: a `###` header becomes a bold bullet, a
 * `-` item is indented under it, and everything else is dropped.
 */
module MeetingNotes {
  import opened Wrappers
  import opened Text

  /** The only way the formatter fails: `lines[2..-1]` is `nil` when fewer
      than two lines remain, and `nil.each` raises `NoMethodError`. */
  datatype RubyError = NoMethodError

  /** The marker of the line that links to the chat transcript. */
  const ChatLink: string := "Chat with meeting transcript"

  // ---------------------------------------------------------------------------
  // Cutting the input into lines.
  // ---------------------------------------------------------------------------

  /** `lines.reject(&:empty?)` */
  function RejectEmpty(lines: seq<string>): (r: seq<string>)
    ensures |r| <= |lines|
    ensures forall k :: 0 <= k < |r| ==> |r[k]| > 0
    ensures forall k :: 0 <= k < |r| ==> r[k] in lines
    ensures forall k :: 0 <= k < |lines| && |lines[k]| > 0 ==> lines[k] in r
  {
    if |lines| == 0 then []
    else (if |lines[0]| == 0 then [] else [lines[0]]) + RejectEmpty(lines[1..])
  }

  /** `input.split("\n").reject(&:empty?)`.  Ruby's `split` also drops
      trailing empty pieces, which the rejection drops anyway. */
  function InputLines(input: string): (r: seq<string>)
    ensures forall k :: 0 <= k < |r| ==> |r[k]| > 0 && '\n' !in r[k]
  {
    RejectEmpty(Split(input, '\n'))
  }

  /** One line is kept exactly when it is not empty. */
  lemma RejectEmptyOne(line: string)
    ensures RejectEmpty([line]) == if |line| == 0 then [] else [line]
  {
    assert [line][1..] == [];
  }

  /** The rejection keeps the order of the lines: it works piece by piece. */
  lemma {:induction false} RejectEmptyAppend(a: seq<string>, b: seq<string>)
    ensures RejectEmpty(a + b) == RejectEmpty(a) + RejectEmpty(b)
    decreases |a|
  {
    if |a| > 0 {
      ConsAppend(a, b);
      var head := if |a[0]| == 0 then [] else [a[0]];
      assert (a + b)[1..] == a[1..] + b;
      RejectEmptyAppend(a[1..], b);
      ConcatAssoc(head, RejectEmpty(a[1..]), RejectEmpty(b));
    } else {
      assert a + b == b;
    }
  }

  /** Lines that are all non-empty are kept as they are. */
  lemma {:induction false} RejectEmptyKeepsNonEmpty(lines: seq<string>)
    requires forall k :: 0 <= k < |lines| ==> |lines[k]| > 0
    ensures RejectEmpty(lines) == lines
    decreases |lines|
  {
    if |lines| > 0 {
      RejectEmptyKeepsNonEmpty(lines[1..]);
      assert lines == [lines[0]] + lines[1..];
    }
  }

  /** Cutting a document written line by line gives back its lines, in
      order: non-empty lines without `"\n"` survive the split and the
      rejection unchanged. */
  lemma InputLinesOfJoin(lines: seq<string>)
    requires forall k :: 0 <= k < |lines| ==> |lines[k]| > 0 && '\n' !in lines[k]
    ensures InputLines(Join(lines, '\n')) == lines
  {
    if |lines| == 0 {
      assert Split("", '\n') == [""];
    } else {
      SplitJoin(lines, '\n');
      RejectEmptyKeepsNonEmpty(lines);
    }
  }

  // ---------------------------------------------------------------------------
  // Rewriting one line.
  // ---------------------------------------------------------------------------

  /** The section name of a line that starts with `###`: the line with the
      pattern `^###\s*` removed (`gsub`), then stripped.  The line holds no
      `"\n"`, so `^` only matches at its start. */
  function HeaderName(line: string): (name: string)
    requires StartsWith(line, "###")
    ensures IsTrimmed(name, RubyStripSpace)
  {
    RubyStrip(line[SkipWhile(line, 3, RubySpace)..])
  }

  /** The bold bullet for a section header. */
  function HeaderBullet(name: string): string {
    "- **" + name + "**"
  }

  /** What one line turns into: a header bullet, an indented item, or
      nothing.  The header test comes first, so a `###` line is never
      dropped; a `---` rule or the chat-link line is dropped even though it
      may start with `-`. */
  function FormatLine(line: string): (r: Option<string>)
    ensures r.Some? <==>
      || StartsWith(line, "###")
      || (StartsWith(line, "-") && !StartsWith(line, "---") && !Includes(line, ChatLink))
    ensures StartsWith(line, "###") ==> r == Some(HeaderBullet(HeaderName(line)))
    ensures r.Some? && !StartsWith(line, "###") ==> r == Some("  " + line)
  {
    if StartsWith(line, "###") then Some(HeaderBullet(HeaderName(line)))
    else if StartsWith(line, "---") || Includes(line, ChatLink) then None
    else if StartsWith(line, "-") then Some("  " + line)
    else None
  }

  /** The lines an optional result contributes to the output. */
  function Emitted(o: Option<string>): seq<string> {
    match o
    case Some(v) => [v]
    case None => []
  }

  /** The `each` loop: every line rewritten in turn, in input order. */
  function FormatLines(lines: seq<string>): (out: seq<string>)
    ensures |out| <= |lines|
  {
    if |lines| == 0 then [] else Emitted(FormatLine(lines[0])) + FormatLines(lines[1..])
  }

  /** `format_meeting_notes(input)`: fails exactly when fewer than two
      non-empty lines remain; otherwise the rewritten lines joined by
      `"\n"`, with no trailing newline. */
  function FormatMeetingNotes(input: string): (r: Result<string, RubyError>)
    ensures r.Failure? <==> |InputLines(input)| < 2
    ensures r.Failure? ==> r.error == NoMethodError
  {
    var lines := InputLines(input);
    if |lines| < 2 then Failure(NoMethodError)
    else Success(Join(FormatLines(lines[2..]), '\n'))
  }

  // ---------------------------------------------------------------------------
  // The loop as written.
  // ---------------------------------------------------------------------------

  /** The rewrite of a line followed by more lines. */
  lemma FormatCons(line: string, rest: seq<string>)
    ensures FormatLines([line] + rest) == Emitted(FormatLine(line)) + FormatLines(rest)
  {
    assert ([line] + rest)[1..] == rest;
  }

  /** The rewrite is a line-wise fold: it distributes over concatenation, so
      each output line comes from one input line and the order is kept. */
  lemma {:induction false} FormatLinesAppend(a: seq<string>, b: seq<string>)
    ensures FormatLines(a + b) == FormatLines(a) + FormatLines(b)
    decreases |a|
  {
    if |a| == 0 {
      assert a + b == b;
    } else {
      var x, rest := a[0], a[1..];
      ConsAppend(a, b);
      FormatCons(x, rest + b);
      FormatCons(x, rest);
      FormatLinesAppend(rest, b);
      ConcatAssoc(Emitted(FormatLine(x)), FormatLines(rest), FormatLines(b));
    }
  }

  /** One more line of the loop adds what that line turns into. */
  lemma FormatLinesStep(lines: seq<string>, i: nat)
    requires i < |lines|
    ensures FormatLines(lines[..i + 1]) == FormatLines(lines[..i]) + Emitted(FormatLine(lines[i]))
  {
    SliceSnoc(lines, i);
    FormatLinesAppend(lines[..i], [lines[i]]);
    FormatOneLine(lines[i]);
  }

  lemma SliceSnoc(lines: seq<string>, i: nat)
    requires i < |lines|
    ensures lines[..i + 1] == lines[..i] + [lines[i]]
  {
  }

  lemma FormatOneLine(line: string)
    ensures FormatLines([line]) == Emitted(FormatLine(line))
  {
    assert [line][1..] == [];
  }

  /** The formatter as the script runs it: an output array appended to line
      by line, then joined. */
  method FormatMeetingNotesLoop(input: string) returns (r: Result<string, RubyError>)
    ensures r == FormatMeetingNotes(input)
  {
    var lines := InputLines(input);
    if |lines| < 2 {
      return Failure(NoMethodError);
    }
    lines := lines[2..];
    var output: seq<string> := [];
    var i := 0;
    while i < |lines|
      invariant 0 <= i <= |lines|
      invariant output == FormatLines(lines[..i])
    {
      var line := lines[i];
      FormatLinesStep(lines, i);
      if StartsWith(line, "###") {
        var currentSection := HeaderName(line);
        output := output + [HeaderBullet(currentSection)];
      } else if StartsWith(line, "---") || Includes(line, ChatLink) {
      } else if StartsWith(line, "-") {
        output := output + ["  " + line];
      }
      i := i + 1;
    }
    assert lines[..i] == lines;
    r := Success(Join(output, '\n'));
  }

  // ---------------------------------------------------------------------------
  // What the output looks like.
  // ---------------------------------------------------------------------------

  /** Every output line is a header bullet `- **name**` or an indented item
      `  -...`, and none holds a line break when the input lines hold none. */
  lemma {:induction false} OutputLineShapes(lines: seq<string>)
    requires forall k :: 0 <= k < |lines| ==> '\n' !in lines[k]
    ensures forall k :: 0 <= k < |FormatLines(lines)| ==>
      var o := FormatLines(lines)[k];
      && '\n' !in o
      && ((StartsWith(o, "- **") && EndsWith(o, "**")) || StartsWith(o, "  -"))
    decreases |lines|
  {
    if |lines| > 0 {
      OutputLineShapes(lines[1..]);
      var line := lines[0];
      match FormatLine(line)
      case None =>
      case Some(o) =>
        if StartsWith(line, "###") {
          var name := HeaderName(line);
          assert '\n' !in line[SkipWhile(line, 3, RubySpace)..];
          TrimKeepsOnlyInputChars(line[SkipWhile(line, 3, RubySpace)..], RubyStripSpace, '\n');
          assert o == "- **" + name + "**";
          assert o[..4] == "- **";
        } else {
          assert o == "  " + line;
          assert o[..3] == "  " + line[..1];
        }
    }
  }

  /** The output, cut at its line breaks, is the list of rewritten lines,
      one per kept line after the first two, when there is at least one. */
  lemma OutputLines(input: string)
    requires FormatMeetingNotes(input).Success?
    ensures var out := FormatLines(InputLines(input)[2..]);
      && |out| <= |InputLines(input)| - 2
      && (|out| > 0 ==> Split(FormatMeetingNotes(input).value, '\n') == out)
      && (|out| == 0 ==> FormatMeetingNotes(input).value == "")
  {
    var lines := InputLines(input)[2..];
    var out := FormatLines(lines);
    OutputLineShapes(lines);
    if |out| > 0 {
      SplitJoin(out, '\n');
    }
  }

  /** A document written line by line: its first two lines (title and meta
      information) are discarded and the rest are formatted in order. */
  lemma FormatOfLines(title: string, meta: string, body: seq<string>)
    requires |title| > 0 && '\n' !in title && |meta| > 0 && '\n' !in meta
    requires forall k :: 0 <= k < |body| ==> |body[k]| > 0 && '\n' !in body[k]
    ensures FormatMeetingNotes(Join([title, meta] + body, '\n')) == Success(Join(FormatLines(body), '\n'))
  {
    var lines := [title, meta] + body;
    assert forall k :: 2 <= k < |lines| ==> lines[k] == body[k - 2];
    InputLinesOfJoin(lines);
    assert lines[2..] == body;
  }

  /** A header line `###`, whitespace, then a stripped name gives the bold
      bullet of that name. */
  lemma HeaderOfName(line: string, ws: string, name: string)
    requires line == "###" + ws + name
    requires forall k :: 0 <= k < |ws| ==> RubySpace.Has(ws[k])
    requires IsTrimmed(name, RubyStripSpace)
    ensures FormatLine(line) == Some(HeaderBullet(name))
  {
    var j := 3 + |ws|;
    assert line[..3] == "###";
    assert forall k :: 3 <= k < j ==> line[k] == ws[k - 3];
    assert line[j..] == name;
    HeaderAt(line, j, name);
  }

  /** The same, with the name starting at `j`. */
  lemma HeaderAt(line: string, j: nat, name: string)
    requires 3 <= j <= |line| && line[..3] == "###" && AllIn(line, 3, j, RubySpace) && line[j..] == name
    requires IsTrimmed(name, RubyStripSpace)
    ensures FormatLine(line) == Some(HeaderBullet(name))
  {
    SkipWhileIsLongest(line, 3, j, RubySpace);
    if j < |line| {
      assert line[j] == name[0];
      SkipWhileStopsAt(line, 3, j, RubySpace);
    }
    TrimTrimmed(name, RubyStripSpace);
  }

  /** An item line gives itself, indented by two spaces. */
  lemma ItemLine(line: string)
    requires StartsWith(line, "-") && !StartsWith(line, "---") && !Includes(line, ChatLink)
    ensures FormatLine(line) == Some("  " + line)
  {
    assert line[0] == '-';
  }

  /** A horizontal rule is dropped: it starts with `-`, not `#`, so the
      header test does not take it. */
  lemma RuleDropped(line: string)
    requires StartsWith(line, "---")
    ensures FormatLine(line) == None
  {
    assert line[0] == '-';
  }

  /** A line holding the chat-link marker is dropped unless it is a
      header. */
  lemma ChatLineDropped(line: string)
    requires Includes(line, ChatLink) && !StartsWith(line, "###")
    ensures FormatLine(line) == None
  {
  }

  /** A line that is neither a header nor an item is dropped. */
  lemma FreeTextDropped(line: string)
    requires !StartsWith(line, "-") && !StartsWith(line, "###")
    ensures FormatLine(line) == None
  {
  }

  // ---------------------------------------------------------------------------
  // An example document.
  // ---------------------------------------------------------------------------

  /** The chat-link line of the example is dropped although it starts with
      `-`. */
  lemma ExampleChatLine(line: string)
    requires line == "- " + ChatLink
    ensures FormatLine(line) == None
  {
    assert OccursAt(line, ChatLink, 2) by {
      assert line[2..2 + |ChatLink|] == ChatLink;
    }
    assert line[..3] != "###" by {
      assert line[0] == '-';
    }
    ChatLineDropped(line);
  }

  lemma DecisionsHeader(line: string)
    requires line == "### Decisions"
    ensures FormatLine(line) == Some("- **Decisions**")
  {
    assert line[..3] == "###" && line[3] == ' ' && line[4..] == "Decisions";
    HeaderAt(line, 4, "Decisions");
    DecisionsBullet();
  }

  lemma DecisionsBullet()
    ensures HeaderBullet("Decisions") == "- **Decisions**"
  {
    assert "- **" + "Decisions" == "- **Decisions";
  }

  lemma ShipItItem(line: string)
    requires line == "- ship it"
    ensures FormatLine(line) == Some("  - ship it")
  {
    assert line[..1] == "-";
    assert line[1] == ' ';
    ItemLine(line);
    assert "  " + line == "  - ship it";
  }

  lemma ExampleRule(line: string)
    requires line == "---"
    ensures FormatLine(line) == None
  {
    assert line[..3] == "---";
    RuleDropped(line);
  }

  lemma ExampleFreeText(line: string)
    requires line == "Next steps"
    ensures FormatLine(line) == None
  {
    assert line[..1] != "-" && line[..3] != "###";
    FreeTextDropped(line);
  }

  /** Five lines, each rewritten on its own. */
  lemma FormatFive(a: string, b: string, c: string, d: string, e: string)
    ensures FormatLines([a, b, c, d, e]) ==
      Emitted(FormatLine(a)) + (Emitted(FormatLine(b)) + (Emitted(FormatLine(c))
      + (Emitted(FormatLine(d)) + Emitted(FormatLine(e)))))
  {
    FormatOneLine(e);
    FormatCons(d, [e]);
    FormatCons(c, [d] + [e]);
    FormatCons(b, [c] + ([d] + [e]));
    FormatCons(a, [b] + ([c] + ([d] + [e])));
    assert [a, b, c, d, e] == [a] + ([b] + ([c] + ([d] + [e])));
  }

  /** A section with one item, a rule, the chat link and free text: only
      the header and the item survive, in order. */
  lemma ExampleBody(lines: seq<string>)
    requires lines == ["### Decisions", "- ship it", "---", "- " + ChatLink, "Next steps"]
    ensures FormatLines(lines) == ["- **Decisions**", "  - ship it"]
  {
    var a, b, c, d, e := lines[0], lines[1], lines[2], lines[3], lines[4];
    DecisionsHeader(a);
    ShipItItem(b);
    ExampleRule(c);
    ExampleChatLine(d);
    ExampleFreeText(e);
    assert lines == [a, b, c, d, e];
    FormatFive(a, b, c, d, e);
  }
}
