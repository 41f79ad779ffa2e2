# Goodreads sync and meeting notes: a Dafny model

This project models the text-processing core of a small personal-automation
repository:

- **Goodreads title parsing.** `parseTitle` (src/goodreads-sync.utils.ts)
  splits a Goodreads title such as
  `The Great Gatsby: A Novel (Classics, #1)` into title, subtitle, series
  name and series number with one regular expression.
  - The older `parseTitle` (src/goodreads-sync.ts) uses a different
    pattern.
  - `findBookFile` uses the older parser to look for an existing note.
- **Frontmatter update.** `updateFrontmatter` builds a fresh frontmatter
  record from one row of the Goodreads CSV export. It then deep-merges it
  with the note's existing frontmatter, using a customizer with special
  rules for `shelf`, `tags`, `rating` and blank values.
- **Meeting notes.** `format_meeting_notes` (format_meeting_notes.rb) turns
  exported meeting notes into a nested bullet list.

## How the model is organised

- `wrappers.dfy` (`Wrappers`): `Option` and `Result`.
- `text.dfy` (`Text`) holds the string operations the sources use:
  - JavaScript `trim` and Ruby `strip`, each with its own whitespace set;
  - `startsWith`, `endsWith` and `includes`;
  - `split` and `join`;
  - a global `replace`;
  - the deduplication done by `[...new Set(xs)]`.
- `title_pattern.dfy` (`TitlePattern`) models both regular expressions in
  two parts:
  - a declarative account of which splits of the input the pattern
    accepts (`SplitValid`), and in which order a backtracking engine tries
    them (`SplitNoLater`);
  - a search (`Match`) that follows the engine's order: lazy quantifiers
    grow, greedy ones shrink, optional groups are tried before they are
    skipped.

  The `Dialect` parameter selects the current or the older pattern.
- `title_pattern_proofs.dfy` (`TitlePatternProofs`) proves that `Match`
  returns exactly the first accepted split in engine order, and that it
  fails only when no split is accepted.
- `title_parser.dfy` (`TitleParser`) holds `parseTitle`, the older
  `parseTitle` and `findBookFile`, plus facts about the fields they return.
- `title_examples.dfy` (`TitleExamples`) proves parsing results for whole
  families of titles (title / subtitle / series / number), and then for the
  seven inputs of src/goodreads-sync.utils.test.ts.
- `legacy_title_examples.dfy` (`LegacyTitleExamples`) does the same for the
  older pattern, and proves the line-break failure of the current one.
- `js_value.dfy` (`JsValue`) holds the JavaScript values of a frontmatter
  record, `parseInt`, and `String(value)`.
- `frontmatter.dfy` (`Frontmatter`) models `updateFrontmatter`: the fresh
  record, the customizer, the merge as a fold over the existing keys
  (specified and implemented by a loop), and the properties of the result.
- `meeting_notes.dfy` (`MeetingNotes`) models `format_meeting_notes`:
  - as a pure fold over the lines;
  - as a loop that mirrors the Ruby `each` with its `if`/`elsif` chain, and
    is proved equal to the fold.

Behaviour the model makes explicit:

- **Current `parseTitle` on a line break.** `.` does not match a line
  terminator. When one sits where only `.` could consume it (inside the
  title or subtitle text, as in `a` line-break `b`), the pattern fails,
  destructuring `null ?? []` leaves `title` undefined, and `title.trim()`
  throws a `TypeError`. The model returns `Failure(TypeError)`. A line
  terminator that a `\s*` or the series name can absorb (`a` followed by a
  line break, `a:` line-break `b`) does not make it fail. Without line
  terminators the pattern always matches.
- **The older parser's series group.** It cannot take a fractional number
  such as `#3.5`, nor a number without a comma before it.
  - For `Dawnshard (The Stormlight Archive, #3.5)` its title group takes
    the whole input.
  - For `A Feast for Crows (A Song of Ice and Fire #4)` the series name
    includes `#4` and there is no number.
  - `findBookFile` searches file names for the title only. So for the
    Dawnshard title it looks for the whole input, parenthetical included,
    while for the Feast for Crows title it still looks for
    `A Feast for Crows`.
- **The comment at src/goodreads-sync.utils.ts:55 and the code disagree.**
  The comment says existing values are preferred unless they are empty.
  The customizer, however, always keeps the freshly built `shelf` and
  `rating`. The model follows the code (`ShelfAlwaysFresh`,
  `RatingAlwaysFresh`).

## Model

| member | source | states |
|---|---|---|
| TitlePatternProofs.MatchIsFirst | src/goodreads-sync.utils.ts:14-15 | the search finds a split exactly when the pattern accepts one, and the split it finds is accepted and tried no later than any other accepted split, as a backtracking engine reports the first match |
| TitlePatternProofs.TitleFromFirst | src/goodreads-sync.utils.ts:14 | the lazy title group `(.*?)` ends at the earliest position after which the rest of the pattern matches |
| TitlePatternProofs.SubtitleFromFirst | src/goodreads-sync.utils.ts:14 | the lazy subtitle group ends at the earliest position from which the optional series part and the end of input can follow |
| TitlePatternProofs.TailAtFirst | src/goodreads-sync.utils.ts:14 | the series part is tried before it is skipped, and the one chosen is the first accepted one |
| TitlePatternProofs.SeriesLazyFirst | src/goodreads-sync.utils.ts:14 | the lazy series name `([^#]+?)` ends at the earliest position from which a number part and `)` can close the match |
| TitlePatternProofs.SeriesGreedyFirst | src/goodreads-sync.ts:88 | the older greedy series name `([^,]+)` backs off from the longest comma-free run to the first position that closes the match |
| TitlePatternProofs.NumberAtExact | src/goodreads-sync.utils.ts:14 | the number part reads exactly the separator, `#?` and the decimal (or, for the older pattern, digits-only) number that closes with `)` at the end of input |
| TitleParser.ParseTitle | src/goodreads-sync.utils.ts:12-26 | fails (TypeError) exactly when no split is accepted; otherwise returns the trimmed groups of the first accepted split together with the untouched full title, with every field free of surrounding whitespace |
| TitleParser.ParseTitleOfMatch | src/goodreads-sync.utils.ts:15-25 | parseTitle reports the trimmed groups of the split the engine finds |
| TitleParser.ParseTitleTotalWithoutLineBreaks | src/goodreads-sync.utils.ts:14-20 | a title with no line terminator always matches, so parseTitle does not throw |
| TitleParser.MatchedShape | src/goodreads-sync.utils.ts:14-24 | for any accepted split, the series number is a decimal numeral and the series name contains no `#` |
| TitleParser.SeriesFieldsShape | src/goodreads-sync.utils.ts:12-26 | every parseTitle result has a decimal series number and a `#`-free series name |
| TitleParser.ParseTitleLegacy | src/goodreads-sync.ts:86-103 | the older parser returns the trimmed input as title when nothing matches, otherwise the trimmed groups of the first accepted split; all fields trimmed |
| TitleParser.ParseTitleLegacyOfMatch | src/goodreads-sync.ts:88-102 | the older parser reports the trimmed groups of the split the engine finds |
| TitleParser.LegacyMatchedShape | src/goodreads-sync.ts:88 | for any split of the older pattern, the number is digits only and the series name has no comma |
| TitleParser.LegacySeriesFieldsShape | src/goodreads-sync.ts:86-103 | every result of the older parser has a digits-only number and a comma-free series name |
| TitleParser.LegacyNumberFollowsComma | src/goodreads-sync.ts:88 | the older parser reports a series number only when a comma ends the series name in the first accepted split |
| TitleParser.AnyBookFile | src/goodreads-sync.ts:109-112 | `files.some(...)` is true exactly when some file name ends in `.md` and contains the title |
| TitleParser.FindBookFile | src/goodreads-sync.ts:105-113 | findBookFile holds exactly when some listed markdown file name contains the older parser's title |
| TitleParser.NamedNoteFound | src/goodreads-sync.ts:109-112 | a note named after the searched title, with `.md` appended, is always found (with FindBookFile: the note named after the older parser's title is found) |
| TitleParser.BookFileSearchGrows | src/goodreads-sync.ts:109-112 | adding files to the listing never hides a match |
| TitleExamples.ParseComposedTitle | src/goodreads-sync.utils.ts:12-26 | composing a title, optional `: subtitle` and optional `(name, #n)` / `(name #n)` from well-formed parts and parsing it gives those parts back |
| TitleExamples.ParseFullForm | src/goodreads-sync.utils.ts:14-25 | `t: sub (name<sep>n)` parses to title t, subtitle sub, series name and number |
| TitleExamples.ParseTitleSeriesForm | src/goodreads-sync.utils.ts:14-25 | `t (name<sep>n)` parses to title t, no subtitle, series name and number |
| TitleExamples.ParseSubtitleForm | src/goodreads-sync.utils.ts:14-25 | `t: sub` parses to title t and subtitle sub, no series |
| TitleExamples.ParseTitleOnlyForm | src/goodreads-sync.utils.ts:14-25 | a plain title parses to itself with no other fields |
| TitleExamples.ExampleFullTitle | src/goodreads-sync.utils.test.ts:6-13 | `The Great Gatsby: A Novel (Classics, #1)` gives all four fields |
| TitleExamples.ExampleWithoutSubtitle | src/goodreads-sync.utils.test.ts:17-24 | `The Great Gatsby (Classics, #1)` has no subtitle |
| TitleExamples.ExampleDawnshard | src/goodreads-sync.utils.test.ts:26-32 | a fractional series number `3.5` is kept whole |
| TitleExamples.ExampleFeast | src/goodreads-sync.utils.test.ts:34-40 | a number after a space and `#` with no comma is still split from the series name |
| TitleExamples.ExampleLion | src/goodreads-sync.utils.test.ts:42-48 | a comma inside the title does not start a series |
| TitleExamples.ExampleWithoutSeries | src/goodreads-sync.utils.test.ts:52-57 | `The Great Gatsby: A Novel` has title and subtitle only |
| TitleExamples.ExampleSimpleTitle | src/goodreads-sync.utils.test.ts:60-65 | a bare title has no other fields |
| LegacyTitleExamples.ParseLegacySeriesForm | src/goodreads-sync.ts:88-102 | under the older pattern `t (n)` with a comma-free name gives title t and series name n with no number |
| LegacyTitleExamples.ParseLegacyFractionForm | src/goodreads-sync.ts:88-102 | under the older pattern a series with a fractional number is not recognised and the title is the whole input |
| LegacyTitleExamples.ExampleLegacyFeast | src/goodreads-sync.ts:88-102 | the older parser keeps `#4` inside the series name of the Feast for Crows title |
| LegacyTitleExamples.ExampleLegacyDawnshard | src/goodreads-sync.ts:88-102 | the older parser returns the whole Dawnshard title as title |
| LegacyTitleExamples.ExampleLineBreak | src/goodreads-sync.utils.ts:14-20 | the current pattern does not match `a` line-break `b`, and parseTitle throws a TypeError |
| LegacyTitleExamples.ExampleTrailingLineBreak | src/goodreads-sync.utils.ts:14-20 | a line break the trailing `\s*` absorbs does not stop the match: on `a` followed by a line break the pattern matches and the title is `a` |
| Text.Trim | src/goodreads-sync.utils.ts:20-24 | the result is a slice of the input that has no surrounding whitespace, and only whitespace was cut off on either side: exactly the leading and trailing whitespace is removed |
| Text.TrimTrimmed | src/goodreads-sync.utils.ts:20-24 | trimming twice is trimming once |
| Text.Split | src/goodreads-sync.utils.ts:66 | `split(sep)` returns at least one part and no part contains the separator |
| Text.JoinSplit | format_meeting_notes.rb:31 | joining the parts of a split with the same separator gives the input back |
| Text.SplitJoin | format_meeting_notes.rb:31 | splitting a join of separator-free parts gives the parts back |
| Text.Includes | src/goodreads-sync.ts:111 | `includes` is true exactly when the needle occurs at some position |
| Text.DedupeIsFirstOccurrences | src/goodreads-sync.utils.ts:66 | `[...new Set(xs)]` keeps the first occurrence of every element, in order |
| JsValue.ParseIntRoundTrip | src/goodreads-sync.utils.ts:41 | `parseInt(String(n))` is n for every integer |
| JsValue.ParseIntOfIntToString | src/goodreads-sync.utils.ts:41-47 | parseInt reads a numeral and stops at the first non-digit that follows it |
| JsValue.ParseIntNoDigits | src/goodreads-sync.utils.ts:41-43 | when no digit follows the leading whitespace and sign, parseInt gives NaN |
| JsValue.ParseIntEmpty | src/goodreads-sync.utils.ts:41-43 | `parseInt("")` is NaN |
| JsValue.ParseIntOfJsString | src/goodreads-sync.utils.ts:69-71 | reparsing what parseInt returned (an integer or NaN) gives the same value |
| Frontmatter.FreshRecord | src/goodreads-sync.utils.ts:30-54 | the fresh record has exactly the sixteen keys the source builds |
| Frontmatter.Authors | src/goodreads-sync.utils.ts:39-54 | the author list is the wiki link of the author, plus one of the additional authors when that column is non-empty |
| Frontmatter.ReadLast | src/goodreads-sync.utils.ts:44-46 | `read-last` is the read date with every `/` replaced by `-`, character for character |
| Frontmatter.FreshUrl | src/goodreads-sync.utils.ts:34 | the url is the Goodreads book URL prefix followed by the book id |
| Frontmatter.FreshAuthor | src/goodreads-sync.utils.ts:39-54 | the fresh `author` is the wiki link of the author, followed by the link of the additional authors exactly when that column is non-empty |
| Frontmatter.FreshReadLast | src/goodreads-sync.utils.ts:44-46 | the fresh `read-last` has the read date's length and contains no `/`: each `/` became `-` and every other character is kept |
| Frontmatter.FreshTitleFields | src/goodreads-sync.utils.ts:35-38 | title, subtitle and series fields come from the parsed title, absent ones as undefined |
| Frontmatter.FreshReadCount | src/goodreads-sync.utils.ts:47 | an empty read count becomes 0 |
| Frontmatter.FreshEmptyNumbers | src/goodreads-sync.utils.ts:41-43 | an empty rating, page-count or publication-year column gives NaN |
| Frontmatter.FreshRating | src/goodreads-sync.utils.ts:41 | the fresh rating is an integer or NaN |
| Frontmatter.Merge | src/goodreads-sync.utils.ts:56-80 | the merged record has the keys of both records |
| Frontmatter.MergeWith | src/goodreads-sync.utils.ts:56-80 | the key-by-key loop over the existing record, in any key order, computes the merge |
| Frontmatter.UpdateWithTitle | src/goodreads-sync.utils.ts:30-81 | once the title is parsed, the result holds exactly the fresh keys and the note's keys |
| Frontmatter.UpdateFrontmatter | src/goodreads-sync.utils.ts:28-82 | fails exactly when parsing the title throws; otherwise the result has the fresh keys plus the existing ones and is the merge for the parsed title |
| Frontmatter.ShelfAlwaysFresh | src/goodreads-sync.utils.ts:60-62 | the merged shelf is always the CSV's exclusive shelf |
| Frontmatter.RatingAlwaysFresh | src/goodreads-sync.utils.ts:69-71 | the merged rating is always the CSV rating read by parseInt |
| Frontmatter.TagsFromString | src/goodreads-sync.utils.ts:63-67 | an existing space-separated tag string becomes its words followed by `books`, deduplicated in order |
| Frontmatter.UntouchedKeepsFresh | src/goodreads-sync.utils.ts:56-58 | a fresh key the note lacks keeps its fresh value |
| Frontmatter.BlankTakesFresh | src/goodreads-sync.utils.ts:73-78 | an existing null, undefined, empty string or empty array is replaced by the defined fresh value (except a blank `tags` string, see TagsFromString) |
| Frontmatter.NoteValueKept | src/goodreads-sync.utils.ts:56-80 | any other existing value, and every key the fresh record lacks, survives the merge unchanged |
| Frontmatter.MergeValueIdempotent | src/goodreads-sync.utils.ts:59-79 | applying the customizer's merge a second time with the same fresh value changes nothing |
| Frontmatter.MergeIdempotent | src/goodreads-sync.utils.ts:56-80 | merging a fresh record into an already merged result changes nothing |
| Frontmatter.UpdateWithTitleIdempotent | src/goodreads-sync.utils.ts:56-80 | merging the same parsed row into an already updated note changes nothing |
| Frontmatter.UpdateIdempotent | src/goodreads-sync.utils.ts:28-82 | when the update succeeds, running it again on its own output returns the same frontmatter |
| MeetingNotes.RejectEmpty | format_meeting_notes.rb:5 | every kept line is a non-empty input line, and every non-empty input line is kept |
| MeetingNotes.RejectEmptyOne | format_meeting_notes.rb:5 | a single line is kept exactly when it is non-empty |
| MeetingNotes.RejectEmptyAppend | format_meeting_notes.rb:5 | rejection works piece by piece, so the kept lines stay in input order with their multiplicity |
| MeetingNotes.RejectEmptyKeepsNonEmpty | format_meeting_notes.rb:5 | a list of non-empty lines is kept unchanged |
| MeetingNotes.InputLines | format_meeting_notes.rb:5 | the input lines are non-empty and contain no newline |
| MeetingNotes.InputLinesOfJoin | format_meeting_notes.rb:5 | cutting a document written from non-empty, newline-free lines gives those lines back, in order |
| MeetingNotes.FormatOfLines | format_meeting_notes.rb:3-31 | for a document written line by line, the first two lines are discarded and the rest are formatted in order and joined by newlines |
| MeetingNotes.HeaderName | format_meeting_notes.rb:18 | the section name has no surrounding Ruby whitespace |
| MeetingNotes.FormatLine | format_meeting_notes.rb:16-27 | a line is kept exactly when it is a `###` header, or a `-` item that is neither a rule nor the chat link; a header becomes a bold bullet and an item is indented by two spaces |
| MeetingNotes.FormatLines | format_meeting_notes.rb:14-28 | the output has no more lines than the input |
| MeetingNotes.FormatLinesAppend | format_meeting_notes.rb:14-28 | formatting distributes over concatenation of line lists |
| MeetingNotes.FormatMeetingNotes | format_meeting_notes.rb:3-32 | fails (NoMethodError on nil) exactly when fewer than two non-empty lines are given; otherwise joins the formatted lines after the first two |
| MeetingNotes.FormatMeetingNotesLoop | format_meeting_notes.rb:3-32 | the loop with the source's if/elsif chain computes the same result as the fold |
| MeetingNotes.OutputLineShapes | format_meeting_notes.rb:16-27 | every output line is newline-free and either `- **name**` or starts with `  -` |
| MeetingNotes.OutputLines | format_meeting_notes.rb:31 | splitting the output on newlines gives back the formatted lines, at most two fewer than the input lines |
| MeetingNotes.HeaderOfName | format_meeting_notes.rb:16-19 | `###`, whitespace and a trimmed name give the bullet `- **name**` |
| MeetingNotes.ItemLine | format_meeting_notes.rb:24-26 | a `-` item that is neither a rule nor the chat link is indented by two spaces |
| MeetingNotes.ChatLineDropped | format_meeting_notes.rb:16-22 | any line containing the chat-transcript marker that is not a `###` header is dropped |
| MeetingNotes.RuleDropped | format_meeting_notes.rb:16-22 | any line starting with `---` is dropped |
| MeetingNotes.FreeTextDropped | format_meeting_notes.rb:16-27 | any line that starts with neither `###` nor `-` is dropped |
| MeetingNotes.ExampleBody | format_meeting_notes.rb:14-28 | a header, an item, a rule, the chat link and free text give exactly a bold header and an indented item |

## Left out

- Reading the CSV export (src/utils/csv.ts), listing the vault directory
  and writing notes. The directory listing is a parameter of
  `FindBookFile`; the CSV row is a parameter of `UpdateFrontmatter`.
- src/ddns-update.ts, which is unrelated to the modelled core.
- src/goodreads-sync.types.ts: the model uses the 24 column names it
  declares as the required keys of a row (`IsBookRow`), with every value a
  string.
- Reading standard input and printing the result in
  format_meeting_notes.rb (`ARGF.read`, `puts`).
- Frontmatter.MergeValue: when the customizer returns undefined and the
  existing value is defined, the existing value replaces the fresh one.
  The library's deep merge would combine two arrays element by element
  (a longer fresh array keeps its extra elements) and merge nested objects
  key by key. Nested objects are not in the value type.
- Frontmatter.MergeValueIdempotent: requires the fresh `rating` to be an
  integer, NaN or undefined. That is what parseInt returns, so the
  requirement holds for every fresh record.
- JsValue.ParseInt: models leading JavaScript whitespace, a sign, a `0x` or
  `0X` hexadecimal prefix and decimal digits; any other character, `_`
  included, ends the digit run. Precision loss above 2^53 is not modelled;
  integers are unbounded. `parseInt("-0")` is `-0` in JavaScript but
  `Int(0)` in the model, which has no negative zero.
- JsValue.IntToString: writes every integer in plain decimal notation.
  JavaScript switches to exponent notation from 1e21 onwards.
- Text.JsTrim: the JavaScript whitespace set is the ASCII whitespace, NBSP,
  BOM, line and paragraph separators, and the Unicode space separators,
  all written out; Unicode case and normalisation play no part.
- Text.RubyStrip: Ruby `strip` removes ASCII whitespace and NUL; other
  Unicode spaces are kept, as in Ruby.
- Strings are sequences of Unicode characters. JavaScript strings are
  UTF-16 code units, so a character outside the Basic Multilingual Plane
  counts as one character here and as two in the source. No literal of
  either pattern is such a character, so only lengths differ, not the
  split.
- The source updates the frontmatter object in place (`push` onto
  `author`, and `mergeWith` mutating its first argument). The model builds
  new values.
