# extract-tagged-template-literals, modelled in Dafny

`searchAndExtract(documentContent, tag)` finds every tagged template literal (`hbs`, `handlebars`,
`dotted.string`, ...) in a JavaScript or TypeScript document. It builds a string in which each
literal's text sits on the same line, and where possible in the same column, as in the document. The
text before each literal, through the tag and its opening backtick, becomes whitespace:
non-whitespace characters are blanked to spaces, and then some of those spaces are trimmed. Each
closing backtick is deleted, not blanked. Everything after the last literal is dropped. `searchAndExtractHbs` is the
same function with the tag `hbs|handlebars`.

The project is split into these modules:

- `Wrappers` (`wrappers.dfy`): `Option` and `Result`.
- `CharClasses` (`char_classes.dfy`): JavaScript's `\s` and its line terminators, the identifier
  characters, and line-feed counting.
- `TagSpec` (`tag_spec.dfy`): the tag validation pattern, written as a recognizer. It is proved
  equal to a grammar (a `|`-list of names, each a `.`-list of identifiers) and to a character-level
  reading. The module also splits the tag into the alternatives of the pattern's `(?:tag)` group.
- `Scanner` (`scanner.dfy`): one `exec` of the pattern ``([\s\S]*?(?:tag)`)([\s\S]*?)((?<=[^\\])`)``
  from `lastIndex`, written with indices. `FindMatch` searches, and `IsFirstMatch` is the
  independent statement of the regular expression's preference order: the earliest tag position,
  then the first listed alternative, then the earliest closing backtick that no backslash precedes.
  `FindMatch` is proved to return exactly that match.
- `Rewrite` (`rewrite.dfy`): the four `replace` calls and the `/\n[ ]+$/` test, written one
  character at a time. The blanking `replace(/\S/gm, " ")` (`BlankOut`) is specified position by
  position. The three space-deleting replacements are proved to only delete spaces
  (`SpacesDeleted`). `replace(/[ ]/gm, '')` (`StripAllSpaces`) is proved to leave no space. The two
  line-end trims (`StripSpacesBeforeNewline`, `RightTrimLines`, both built on `DropSpaces`) are
  proved equal to line-wise references (`TrimLines`, `RTrim`).
- `Extractor` (`extractor.dfy`): a match's rewrite (`RewritePrefix`, `RewriteLiteral`,
  `Contribution`) and the recursive specification `Extract` of the whole output. It also holds the
  imperative methods that follow the source: `RewriteGroups` (the callback), `ScanAndRewrite` (the
  `while` loop over `exec`), `SearchAndExtract` and `SearchAndExtractHbs`. These methods are proved
  equal to `Extract`, and the properties of the output are proved about `Extract`.

An invalid tag raises an exception in the source. Here it is the result `Err(InvalidTag(tag))`.

## Model

| member | source | states |
|---|---|---|
| TagSpec.IsValidTagSpec | src/index.ts:54-55 | The validation test, read left to right as a recognizer. `TagSpecGrammar` and `ValidTagSpecLocal` specify it |
| TagSpec.TagNames | src/index.ts:59 | The alternatives of the `(?:tag)` group, in their order: the tag split at each bar. `JoinSplit` and `SplitJoin` specify it |
| TagSpec.TagSpecGrammar | src/index.ts:54 | A tag passes the validation pattern exactly when every name between bars is a non-empty `.`-separated list of `[a-zA-Z0-9_]+` identifiers |
| TagSpec.ValidTagSpecLocal | src/index.ts:54 | A tag is valid exactly when it is non-empty, uses only identifier characters, dots and bars, begins and ends with an identifier character, and never has two separators in a row |
| TagSpec.AfterIdentCharLocal | src/index.ts:54 | After an identifier character, the rest of the tag is accepted exactly when each separator is followed by an identifier character and the tag ends on one |
| TagSpec.TagNameGrammar | src/index.ts:54 | One name (`ident(\.ident)*`) is valid exactly when every `.`-separated piece is an identifier |
| TagSpec.JoinSplit | src/index.ts:59 | Putting the alternatives back together with bars gives back the tag text spliced into the pattern |
| TagSpec.SplitJoin | src/index.ts:59 | Names without a bar, joined with bars, split back into the same names in the same order |
| TagSpec.Split | src/index.ts:59 | No alternative contains the separator, and every character of an alternative comes from the tag |
| Scanner.FirstClosing | src/index.ts:59 | The lazy literal group ends at the first backtick with no backslash before it; when there is none, no closing backtick follows |
| Scanner.FirstClosingIsFirst | src/index.ts:59 | A closing backtick with none before it is the one the literal stops at |
| Scanner.CandidateIff | src/index.ts:59 | An alternative can complete a match at a position exactly when the tag and a backtick occur there and some closing backtick follows |
| Scanner.TryAt | src/index.ts:59 | One alternative at one position gives a match exactly when it can complete there. The match found starts at that position, uses that alternative, and ends at the first closing backtick |
| Scanner.TryAlternatives | src/index.ts:59 | The alternation's result is a match of one of the tried alternatives at that position |
| Scanner.TryAlternativesFirst | src/index.ts:59 | The alternation picks the first listed alternative that can complete, and finds none only when none can |
| Scanner.FindMatch | src/index.ts:64 | A match found from `lastIndex` starts at or after it, and its literal is enclosed by its opening and closing backticks |
| Scanner.FindMatchFirst | src/index.ts:64 | `exec` returns the first match in the preference order, and it returns nothing only when no alternative can complete at any later position |
| Scanner.FindMatchIsFirst | src/index.ts:64 | Conversely, the first match in the preference order is the one `exec` returns |
| Scanner.MatchOfPrefix | src/index.ts:59 | A match stays a match when the document is cut anywhere after its closing backtick |
| Scanner.FindMatchOfPrefix | src/index.ts:64 | `exec` finds the same match when the document is cut anywhere after that match's closing backtick |
| Scanner.FindMatchNoneOfPrefix | src/index.ts:64 | When `exec` finds nothing in the document, it finds nothing in any prefix of it |
| Scanner.LiteralBackticksEscaped | src/index.ts:59 | Every backtick inside a matched literal has a backslash right before it, because of the look-behind of the closing group |
| Rewrite.BlankOut | src/index.ts:76 | `replace(/\S/gm, " ")` keeps the length of the text. `BlankOutAt` specifies it position by position |
| Rewrite.BlankOutAt | src/index.ts:76 | `replace(/\S/gm, " ")` keeps each whitespace character and turns every other character into a space, position by position, so the result is all whitespace |
| Rewrite.BlankOutNewlines | src/index.ts:76 | Blanking keeps the number of line feeds |
| Rewrite.BlankOutAppend | src/index.ts:76 | Blanking works character by character: blanking a concatenation concatenates the blanked parts |
| Rewrite.StripAllSpaces | src/index.ts:89 | `replace(/[ ]/gm, '')`, deleting every space. `StripAllSpacesSpec` specifies it |
| Rewrite.DropSpaces | src/index.ts:89 | The shared reading of `/[ ]*(?=\n+)/gm` and `/(?!\n)[ ]+$/gm` replaced by nothing: a space is deleted exactly when its run of spaces ends a line. `DropSpacesByLine`, `DropSpacesDeletesSpaces` and `DropSpacesNoLineEndSpace` specify it |
| Rewrite.StripSpacesBeforeNewline | src/index.ts:89 | The trim of the spaces in front of each line feed. `StripSpacesBeforeNewlineSpec` specifies it |
| Rewrite.RightTrimLines | src/index.ts:94 | The multiline right trim of every line. `RightTrimLinesSpec` specifies it |
| Rewrite.StripAllSpacesSpec | src/index.ts:89 | `replace(/[ ]/gm, '')` leaves no space and deletes nothing but spaces |
| Rewrite.StripSpacesBeforeNewlineSpec | src/index.ts:89 | `replace(/[ ]*(?=\n+)/gm, '')` is the line-wise trim of each `\n`-terminated line. It deletes only spaces, and afterwards no space is directly followed by a line feed |
| Rewrite.RightTrimLinesSpec | src/index.ts:94 | `replace(/(?!\n)[ ]+$/gm, '')` is the line-wise right trim of every line, the last included. It deletes only spaces, and afterwards every space is followed by a character that is not a line terminator |
| Rewrite.DropSpacesByLine | src/index.ts:89 | Deleting each space whose run of spaces ends a line is the same as right-trimming each line separately (for both the `\n` lookahead and the multiline `$`) |
| Rewrite.DropSpacesDeletesSpaces | src/index.ts:94 | Both replacements only delete spaces: all other characters are kept in order |
| Rewrite.DropSpacesNoLineEndSpace | src/index.ts:94 | After either replacement, no remaining space ends a line |
| Rewrite.RTrimSpec | src/index.ts:94 | Trimming one line keeps a prefix of it, drops only spaces, and leaves no trailing space |
| Rewrite.StripKeepsLastLine | src/index.ts:87-89 | With no line feed after it, the text's last line is never trimmed: this keeps the indentation in front of the literal |
| Rewrite.EndsWithNewlineThenSpaces | src/index.ts:93 | The guard `/\n[ ]+$/` of the right trim. `EndsWithNewlineThenSpacesIff` specifies it |
| Rewrite.EndsWithNewlineThenSpacesIff | src/index.ts:93 | The test `/\n[ ]+$/` holds exactly when some line feed is followed only by one or more spaces up to the end of the literal |
| Rewrite.SpacesDeletedLength | src/index.ts:89 | Deleting spaces never makes the text longer |
| Rewrite.SpacesDeletedKeepsNewlines | src/index.ts:89 | Deleting spaces keeps the number of line feeds |
| Rewrite.SpacesDeletedKeepsEscapes | src/index.ts:94 | Deleting spaces keeps every backtick right after its backslash |
| Extractor.StartsWithNewline | src/index.ts:89 | The test `/^\n/`, without the multiline flag: the literal's first character is a line feed |
| Extractor.RewritePrefix | src/index.ts:76-89 | The text before the literal, blanked and then trimmed, with the trim chosen by `StartsWithNewline`. `RewritePrefixSpec` and `RewritePrefixBlank` specify it |
| Extractor.RewritePrefixSpec | src/index.ts:76-89 | The text before the literal is blanked and then only loses spaces. When the literal starts with a line feed, no space remains; otherwise every line is trimmed except the last |
| Extractor.RewritePrefixBlank | src/index.ts:76-89 | The rewritten text before the literal keeps all its line feeds and holds only whitespace |
| Extractor.RewriteLiteral | src/index.ts:91-95 | The literal, right-trimmed when the guard holds. `RewriteLiteralSpec` specifies it |
| Extractor.Contribution | src/index.ts:97 | What one match appends, `beforeTpl + theTpl`; the closing backtick is not part of it. `ContributionNonEmpty`, `ContributionNewlines` and `ContributionOfPrefix` specify it |
| Extractor.RewriteLiteralSpec | src/index.ts:91-95 | The literal only loses spaces. It is trimmed line by line when it ends with a line feed and spaces, and is left as it is otherwise |
| Extractor.RewriteLiteralTrimsEveryLine | src/index.ts:91-95 | When the right trim applies, no line of the literal ends with a space any more |
| Extractor.RewriteGroups | src/index.ts:71-98 | The callback over groups 1 to 3 appends exactly the rewritten prefix followed by the rewritten literal |
| Extractor.Matches | src/index.ts:64-68 | The matches of successive `exec` calls, each search resuming right after the previous closing backtick. `MatchesFollowScan` specifies it |
| Extractor.Assemble | src/index.ts:97 | The concatenation of the steps' contributions, in order |
| Extractor.Extract | src/index.ts:63-102 | The returned `inlineTemplate`: all contributions of the scan from a position. `ExtractNone` and `ExtractStep` unfold it, and `ExtractEmptyIff`, `ExtractNewlines` and `TailIgnored` state its properties |
| Extractor.MatchesFollowScan | src/index.ts:64-68 | The loop's `exec` calls return a sequence of first matches: the first is searched from 0, each next one from right after the previous closing backtick, and none overlaps the next |
| Extractor.ExtractNone | src/index.ts:63-64 | Without a match, the output is the empty initial `inlineTemplate` |
| Extractor.ExtractStep | src/index.ts:97 | The output is the first match's rewritten prefix and literal, followed by the output of the scan from right after its closing backtick |
| Extractor.ExtractAccumulate | src/index.ts:97 | Appending one match's piece keeps the relation between the accumulated `inlineTemplate` and the whole output |
| Extractor.ScanEnd | src/index.ts:64 | The scan ends at or after where it starts, right after a closing backtick (a backtick with no backslash before it) when it has matched anything, and no match can begin after that point |
| Extractor.ScanEndStep | src/index.ts:64 | A match moves the scan on without changing where it ends |
| Extractor.ScanAndRewrite | src/index.ts:59-102 | The `while` loop over `exec`, including the guard against zero-width matches, returns exactly `Extract(doc, 0, names)`. The guard is proved never to fire |
| Extractor.SearchAndExtract | src/index.ts:53-103 | An invalid tag gives the error for that tag. A valid tag gives the output of the scan with that tag's alternatives |
| Extractor.HbsTagValid | src/index.ts:112 | The default tag, `hbs` and `handlebars` joined by a bar, passes validation |
| Extractor.HbsTagNames | src/index.ts:112 | The default tag has the alternatives `hbs` and then `handlebars` |
| Extractor.SearchAndExtractHbs | src/index.ts:111-113 | The wrapper never fails, and returns the output for the alternatives `hbs`, `handlebars` |
| Extractor.PrefixKeepsBacktickBlank | src/index.ts:86-89 | When the literal does not start with a line feed, the rewritten prefix is the trimmed blanked text before the opening backtick, followed by one space: the blank for the opening backtick survives the trim |
| Extractor.ContributionNonEmpty | src/index.ts:76-97 | Every match adds at least one character to the output |
| Extractor.ExtractEmptyIff | src/index.ts:63-102 | The output is empty exactly when no alternative can complete a match from the scan start on (both directions) |
| Extractor.RewriteNewlines | src/index.ts:76-97 | A match's rewritten prefix and literal have together the line feeds of the original prefix and literal |
| Extractor.ContributionShorter | src/index.ts:97 | A match's piece is shorter than the text from the scan position through its closing backtick: the closing backtick is never output, and the rewrites only blank or delete |
| Extractor.ContributionNewlines | src/index.ts:76-97 | A match's piece has exactly the line feeds of the document from the scan position through its closing backtick |
| Extractor.ExtractNewlines | src/__tests__/searchAndExtract.test.ts:26-36 | The output has exactly as many line feeds as the document up to the last closing backtick, so each literal keeps its line number |
| Extractor.ContributionOfPrefix | src/index.ts:97 | What a match contributes depends only on the document up to its closing backtick |
| Extractor.TailIgnored | src/index.ts:64-102 | Cutting the document anywhere after the last closing backtick leaves the output unchanged |
| Extractor.TailIgnoredNone | src/index.ts:64-102 | Without a match, both the document and any prefix of it give empty output |
| Extractor.TailIgnoredStep | src/index.ts:64-102 | When the outputs after one match agree for the document and its cut, the outputs from before the match agree too |
| Extractor.OutputIgnoresTail | src/index.ts:64-102 | The text after the last matched literal has no effect on the output |
| Extractor.PrefixKeepsColumn | src/__tests__/searchAndExtract.test.ts:82-83 | When the literal does not start with a line feed, the last line of the prefix becomes blanks of its own length. The literal therefore starts at the same column as in the document, counted from the scan position |
| Extractor.RewriteLiteralKeepsEscapes | src/__tests__/searchAndExtract.test.ts:91 | An escaped backtick in a literal is still escaped in the output |

## Left out

- Regular expressions in general: the model covers only the eight patterns of src/index.ts, each
  written as character-level functions, and not a regular-expression engine.
- The error message of line 56: an invalid tag gives `Err(InvalidTag(tag))` instead of throwing an
  `Error` with that text.
- Strings are sequences of Unicode scalar values, not UTF-16 code units. Three cases differ. First,
  a character outside the Basic Multilingual Plane is blanked by line 76 to two spaces (one per code
  unit), but to one space here. Second, the pattern of line 59 has no `u` flag, so a `.` in a tag
  matches one code unit there but one whole character here: the tag `a.b` matches the text `a`, an emoji,
  `b` in the model, and not in the source. Third, unpaired surrogates cannot be
  represented.
- The `.` in a tag. The function's documentation (src/index.ts:4-7) presents `dotted.string` as a
  tag name. The code, though, splices the tag into the pattern unescaped, so a `.` matches any
  character except a line terminator. The model follows the code (`Scanner.PatternCharMatches`).
- Extractor.ScanAndRewrite: the branch of the zero-width guard (lines 66-68) holds an
  `assert false` and not `lastIndex++`. The branch is proved unreachable: every match ends at a
  closing backtick after the scan position.
- Extractor.PrefixKeepsColumn: states the column relative to the scan position, not relative to
  the start of the document line. The document-wide statement does not hold. A literal that
  follows another on the same line is shifted left by one column for the earlier literal's closing
  backtick, which line 97 never outputs (`Extractor.ContributionShorter`). It is shifted further by the spaces that the right trim
  (lines 93-95) removed from the earlier literal's last line.
- `m.forEach` over the groups (line 71) is modelled as one call on groups 1 and 2
  (`Extractor.RewriteGroups`). Group 0 is not used. The work done on the visit to group 3 (lines
  86-97) is the part of `RewriteGroups` that follows the blanking.
