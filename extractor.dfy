/**
 * `searchAndExtract` and `searchAndExtractHbs` (src/index.ts:53-113): the per-match rewrites, the
 * recursive specification of the whole output, the scanning loop proved equal to it, and the
 * properties of the output.
 */
module Extractor {
  import opened Wrappers
  import opened CharClasses
  import opened TagSpec
  import opened Rewrite
  import opened Scanner

  /** The only failure: the tag specification does not follow the grammar. */
  datatype TagError = InvalidTag(tag: string)

  /** The literal begins on a new line (`/^\n/`, no multiline flag: only the very start). */
  predicate StartsWithNewline(lit: string)
  {
    |lit| > 0 && lit[0] == '\n'
  }

  /**
   * The text from the scan position through the opening backtick, blanked and then trimmed: every
   * space goes when the literal starts on a new line, otherwise only the spaces that end a line.
   */
  function RewritePrefix(prefix: string, lit: string): string
  {
    var blank := BlankOut(prefix);
    if StartsWithNewline(lit) then StripAllSpaces(blank) else StripSpacesBeforeNewline(blank)
  }

  /**
   * The rewritten prefix is the blanked prefix with spaces deleted: no space is left when the literal
   * starts on a new line, and otherwise the spaces that end its lines are deleted.
   */
  lemma {:induction false} RewritePrefixSpec(prefix: string, lit: string, r: string)
    requires r == RewritePrefix(prefix, lit)
    ensures SpacesDeleted(BlankOut(prefix), r)
    ensures StartsWithNewline(lit) ==> ' ' !in r
    ensures !StartsWithNewline(lit) ==> r == TrimLines(BlankOut(prefix), false)
  {
    var blank := BlankOut(prefix);
    if StartsWithNewline(lit) {
      StripAllSpacesSpec(blank);
    } else {
      StripSpacesBeforeNewlineSpec(blank, r);
    }
  }

  /** The rewritten prefix keeps the prefix's line feeds and holds only whitespace. */
  lemma {:induction false} RewritePrefixBlank(prefix: string, lit: string, r: string)
    requires r == RewritePrefix(prefix, lit)
    ensures Newlines(r) == Newlines(prefix)
    ensures forall i :: 0 <= i < |r| ==> IsWhitespace(r[i])
  {
    var blank := BlankOut(prefix);
    RewritePrefixSpec(prefix, lit, r);
    BlankOutAt(prefix);
    BlankOutNewlines(prefix);
    SpacesDeletedKeepsNewlines(blank, r);
    SpacesDeletedChars(blank, r);
    assert forall i :: 0 <= i < |r| ==> r[i] in blank;
  }

  /**
   * The literal, right-trimmed line by line when it ends with a line feed and one or more spaces
   * (the indentation of the closing backtick), and left as it is otherwise.
   */
  function RewriteLiteral(lit: string): string
  {
    if EndsWithNewlineThenSpaces(lit) then RightTrimLines(lit) else lit
  }

  /** The rewritten literal is the literal with spaces deleted: the line-wise right trim, or nothing. */
  lemma RewriteLiteralSpec(lit: string, r: string)
    requires r == RewriteLiteral(lit)
    ensures SpacesDeleted(lit, r)
    ensures EndsWithNewlineThenSpaces(lit) ==> r == TrimLines(lit, true)
    ensures !EndsWithNewlineThenSpaces(lit) ==> r == lit
  {
    if EndsWithNewlineThenSpaces(lit) {
      RightTrimLinesSpec(lit, r);
    } else {
      SpacesDeletedNone(lit);
    }
  }

  /** When the right trim applies, no line of the rewritten literal ends with a space. */
  lemma RewriteLiteralTrimsEveryLine(lit: string, r: string)
    requires r == RewriteLiteral(lit) && EndsWithNewlineThenSpaces(lit)
    ensures forall i :: 0 <= i < |r| && r[i] == ' ' ==> i + 1 < |r| && !IsLineTerminator(r[i + 1])
  {
    RightTrimLinesSpec(lit, r);
  }

  /** What one match, scanned from `pos`, adds to the output: the rewritten prefix and literal. */
  function Contribution(doc: string, pos: nat, m: Match): string
    requires pos <= m.litStart <= m.litEnd <= |doc|
  {
    var lit := doc[m.litStart..m.litEnd];
    RewritePrefix(doc[pos..m.litStart], lit) + RewriteLiteral(lit)
  }

  /** A match together with the scan position it was found from. */
  datatype Step = Step(from: nat, m: Match)

  /**
   * The successive `exec` results from scan position `pos`: each scan resumes right after the
   * previous closing backtick, and the scan stops at the first position with no match.
   */
  function Matches(doc: string, pos: nat, names: seq<string>): seq<Step>
    decreases |doc| - pos
  {
    match FindMatch(doc, pos, names)
    case None => []
    case Some(m) => [Step(pos, m)] + Matches(doc, m.litEnd + 1, names)
  }

  /** Every step's prefix and literal lie inside the document. */
  ghost predicate StepsInRange(doc: string, ms: seq<Step>)
  {
    forall i :: 0 <= i < |ms| ==> ms[i].from <= ms[i].m.litStart <= ms[i].m.litEnd <= |doc|
  }

  /** The concatenation of the contributions of the steps, in order (`inlineTemplate += ...`). */
  function Assemble(doc: string, ms: seq<Step>): string
    requires StepsInRange(doc, ms)
  {
    if ms == [] then [] else Contribution(doc, ms[0].from, ms[0].m) + Assemble(doc, ms[1..])
  }

  lemma {:induction false} MatchesInRange(doc: string, pos: nat, names: seq<string>)
    ensures StepsInRange(doc, Matches(doc, pos, names))
    decreases |doc| - pos
  {
    match FindMatch(doc, pos, names)
    case None =>
    case Some(m) =>
      MatchesInRange(doc, m.litEnd + 1, names);
      assert Matches(doc, pos, names) == [Step(pos, m)] + Matches(doc, m.litEnd + 1, names);
  }

  /**
   * The steps of the scan are the successive first matches: the first is found from `pos`, each
   * later one from right after the previous closing backtick, and none overlaps the next.
   */
  lemma {:induction false} MatchesFollowScan(doc: string, pos: nat, names: seq<string>)
    ensures var ms := Matches(doc, pos, names);
      (|ms| > 0 ==> ms[0].from == pos) &&
      (forall i :: 0 <= i < |ms| ==> IsFirstMatch(doc, ms[i].from, names, ms[i].m)) &&
      (forall i, j :: 0 <= i && j == i + 1 && j < |ms| ==> ms[j].from == ms[i].m.litEnd + 1 > ms[i].m.litEnd)
    decreases |doc| - pos
  {
    FindMatchFirst(doc, pos, names);
    match FindMatch(doc, pos, names)
    case None =>
    case Some(m) =>
      MatchesFollowScan(doc, m.litEnd + 1, names);
      var rest := Matches(doc, m.litEnd + 1, names);
      var ms := Matches(doc, pos, names);
      assert ms == [Step(pos, m)] + rest;
      assert forall i :: 0 < i < |ms| ==> ms[i] == rest[i - 1];
  }

  /** The output from scan position `pos` on; the text after the last match adds nothing. */
  function Extract(doc: string, pos: nat, names: seq<string>): string
  {
    MatchesInRange(doc, pos, names);
    Assemble(doc, Matches(doc, pos, names))
  }

  /** Without a match from `pos` the output is empty. */
  lemma ExtractNone(doc: string, pos: nat, names: seq<string>)
    requires FindMatch(doc, pos, names).None?
    ensures Extract(doc, pos, names) == []
  {
  }

  /** One step of the output: the first match's contribution, then the output after its closing backtick. */
  lemma ExtractStep(doc: string, pos: nat, names: seq<string>, m: Match)
    requires FindMatch(doc, pos, names) == Some(m)
    ensures pos < m.litEnd + 1 <= |doc|
    ensures Extract(doc, pos, names) == Contribution(doc, pos, m) + Extract(doc, m.litEnd + 1, names)
  {
    var rest := Matches(doc, m.litEnd + 1, names);
    MatchesInRange(doc, m.litEnd + 1, names);
    MatchesInRange(doc, pos, names);
    var ms := Matches(doc, pos, names);
    assert ms == [Step(pos, m)] + rest;
    assert ms[1..] == rest;
  }

  /** The position right after the last closing backtick matched from `pos`, or `pos` itself. */
  function ScanEnd(doc: string, pos: nat, names: seq<string>): (e: nat)
    requires pos <= |doc|
    ensures pos <= e <= |doc|
    ensures e > pos ==> IsClosingAt(doc, e - 1)
    ensures NoCandidateFrom(doc, names, e)
    decreases |doc| - pos
  {
    FindMatchFirst(doc, pos, names);
    match FindMatch(doc, pos, names)
    case None => pos
    case Some(m) => ScanEnd(doc, m.litEnd + 1, names)
  }

  /** A match moves the end of the scan along: the scan from `pos` ends where the scan after the match ends. */
  lemma ScanEndStep(doc: string, pos: nat, names: seq<string>, m: Match)
    requires pos <= |doc| && FindMatch(doc, pos, names) == Some(m)
    ensures ScanEnd(doc, pos, names) == ScanEnd(doc, m.litEnd + 1, names)
  {
  }

  /** Appending a match's contribution to the output so far keeps the account of the whole output `total`. */
  lemma ExtractAccumulate(doc: string, pos: nat, names: seq<string>, m: Match, acc: string, total: string)
    requires FindMatch(doc, pos, names) == Some(m)
    requires acc + Extract(doc, pos, names) == total
    ensures (acc + Contribution(doc, pos, m)) + Extract(doc, m.litEnd + 1, names) == total
  {
    ExtractStep(doc, pos, names, m);
  }

  /**
   * The callback run on the groups of one match: the text before the literal (group 1) is blanked
   * and trimmed, the literal (group 2) right-trimmed when it ends with an indented closing line.
   */
  method RewriteGroups(group1: string, group2: string) returns (piece: string)
    ensures piece == RewritePrefix(group1, group2) + RewriteLiteral(group2)
  {
    var beforeTpl := BlankOut(group1);
    var theTpl := group2;
    beforeTpl := if StartsWithNewline(theTpl) then StripAllSpaces(beforeTpl) else StripSpacesBeforeNewline(beforeTpl);
    if EndsWithNewlineThenSpaces(theTpl) {
      theTpl := RightTrimLines(theTpl);
    }
    piece := beforeTpl + theTpl;
  }

  /**
   * The `exec` loop over the document with the tag names `names`: for each match the prefix is
   * blanked and trimmed, the literal right-trimmed, and both appended to the output.
   */
  method ScanAndRewrite(doc: string, names: seq<string>) returns (inlineTemplate: string)
    ensures inlineTemplate == Extract(doc, 0, names)
  {
    var lastIndex: nat := 0;
    inlineTemplate := "";
    var m := FindMatch(doc, lastIndex, names);
    while m.Some?
      invariant lastIndex <= |doc|
      invariant m == FindMatch(doc, lastIndex, names)
      invariant inlineTemplate + Extract(doc, lastIndex, names) == Extract(doc, 0, names)
      decreases |doc| - lastIndex
    {
      var start := lastIndex;
      var found := m.value;
      lastIndex := found.litEnd + 1;
      // the guard against zero-width matches never fires: a match always reaches past its start
      if start == lastIndex {
        assert false;
      }
      var piece := RewriteGroups(doc[start..found.litStart], doc[found.litStart..found.litEnd]);
      ExtractAccumulate(doc, start, names, found, inlineTemplate, Extract(doc, 0, names));
      inlineTemplate := inlineTemplate + piece;
      m := FindMatch(doc, lastIndex, names);
    }
    ExtractNone(doc, lastIndex, names);
    assert inlineTemplate + [] == inlineTemplate;
  }

  /** `searchAndExtract`: the error of an invalid tag, and the output of a valid one. */
  method SearchAndExtract(doc: string, tag: string) returns (r: Result<string, TagError>)
    ensures !IsValidTagSpec(tag) ==> r == Err(InvalidTag(tag))
    ensures IsValidTagSpec(tag) ==> r == Ok(Extract(doc, 0, TagNames(tag)))
  {
    if !IsValidTagSpec(tag) {
      return Err(InvalidTag(tag));
    }
    var inlineTemplate := ScanAndRewrite(doc, TagNames(tag));
    return Ok(inlineTemplate);
  }

  /** The default tag specification is valid. */
  lemma HbsTagValid()
    ensures IsValidTagSpec("hbs|handlebars")
  {
    assert "hbs|handlebars" == "hbs" + ['|'] + "handlebars";
    ValidTwo("hbs", "handlebars");
  }

  /** The default tag specification names its two alternatives, in this order. */
  lemma HbsTagNames()
    ensures TagNames("hbs|handlebars") == ["hbs", "handlebars"]
  {
    assert "hbs|handlebars" == "hbs" + ['|'] + "handlebars";
    SplitTwo("hbs", "handlebars");
  }

  /** `searchAndExtract` with the tag `hbs|handlebars`. */
  method SearchAndExtractHbs(doc: string) returns (r: string)
    ensures r == Extract(doc, 0, ["hbs", "handlebars"])
  {
    HbsTagValid();
    HbsTagNames();
    var res := SearchAndExtract(doc, "hbs|handlebars");
    r := res.value;
  }

  /**
   * A prefix ending with the opening backtick keeps a blank for it when the literal does not start a
   * line: the rewritten prefix is the trimmed text before the backtick, then that blank.
   */
  lemma PrefixKeepsBacktickBlank(prefix: string, lit: string)
    requires prefix != [] && prefix[|prefix| - 1] == '`' && !StartsWithNewline(lit)
    ensures RewritePrefix(prefix, lit) == StripSpacesBeforeNewline(BlankOut(prefix[..|prefix| - 1])) + [' ']
  {
    var a, c := prefix[..|prefix| - 1], prefix[|prefix| - 1];
    assert prefix == a + [c];
    assert BlankOut([c]) == [' '] by {
      assert [c][1..] == [];
    }
    BlankOutAppend(a, [c]);
    StripKeepsLastLine(BlankOut(a), [' ']);
  }

  /** A match adds at least one character: a blank for its opening backtick, or its literal's line feed. */
  lemma ContributionNonEmpty(doc: string, pos: nat, m: Match)
    requires Delimited(doc, pos, m)
    ensures Contribution(doc, pos, m) != []
  {
    var prefix := doc[pos..m.litStart];
    var lit := doc[m.litStart..m.litEnd];
    if StartsWithNewline(lit) {
      RewriteLiteralSpec(lit, RewriteLiteral(lit));
      SpacesDeletedKeepsNewlines(lit, RewriteLiteral(lit));
      assert lit == [lit[0]] + lit[1..];
      assert Newlines(lit) > 0;
    } else {
      PrefixKeepsBacktickBlank(prefix, lit);
    }
  }

  /**
   * A match's piece is shorter than the text from the scan position through its closing backtick:
   * the prefix and the literal are only blanked or lose spaces, and the closing backtick is dropped.
   */
  lemma ContributionShorter(doc: string, pos: nat, m: Match)
    requires Delimited(doc, pos, m)
    ensures |Contribution(doc, pos, m)| < m.litEnd + 1 - pos
  {
    var prefix, lit := doc[pos..m.litStart], doc[m.litStart..m.litEnd];
    var p, l := RewritePrefix(prefix, lit), RewriteLiteral(lit);
    RewritePrefixSpec(prefix, lit, p);
    RewriteLiteralSpec(lit, l);
    SpacesDeletedLength(BlankOut(prefix), p);
    SpacesDeletedLength(lit, l);
  }

  /** The output is empty exactly when no tagged literal can be matched at or after the scan position. */
  lemma ExtractEmptyIff(doc: string, pos: nat, names: seq<string>)
    ensures Extract(doc, pos, names) == [] <==> NoCandidateFrom(doc, names, pos)
  {
    FindMatchFirst(doc, pos, names);
    match FindMatch(doc, pos, names)
    case None =>
      ExtractNone(doc, pos, names);
    case Some(m) =>
      ExtractStep(doc, pos, names, m);
      ContributionNonEmpty(doc, pos, m);
      assert Candidate(doc, m.tagStart, names, m.alt);
  }

  /** The rewrites keep the line feeds of the prefix and of the literal. */
  lemma RewriteNewlines(prefix: string, lit: string)
    ensures Newlines(RewritePrefix(prefix, lit) + RewriteLiteral(lit)) == Newlines(prefix) + Newlines(lit)
  {
    RewritePrefixBlank(prefix, lit, RewritePrefix(prefix, lit));
    RewriteLiteralSpec(lit, RewriteLiteral(lit));
    SpacesDeletedKeepsNewlines(lit, RewriteLiteral(lit));
  }

  /** A match's contribution has the line feeds of the document from the scan position through its closing backtick. */
  lemma ContributionNewlines(doc: string, pos: nat, m: Match)
    requires Delimited(doc, pos, m)
    ensures Newlines(Contribution(doc, pos, m)) == Newlines(doc[pos..m.litEnd + 1])
  {
    var prefix, lit := doc[pos..m.litStart], doc[m.litStart..m.litEnd];
    RewriteNewlines(prefix, lit);
    assert doc[pos..m.litEnd + 1] == prefix + lit + [doc[m.litEnd]];
  }

  /** The output has exactly the line feeds of the document from `pos` through the last closing backtick. */
  lemma {:induction false} ExtractNewlines(doc: string, pos: nat, names: seq<string>)
    requires pos <= |doc|
    ensures Newlines(Extract(doc, pos, names)) == Newlines(doc[pos..ScanEnd(doc, pos, names)])
    decreases |doc| - pos
  {
    var f := FindMatch(doc, pos, names);
    if f.None? {
      ExtractNone(doc, pos, names);
    } else {
      var m := f.value;
      var next := m.litEnd + 1;
      ExtractStep(doc, pos, names, m);
      ExtractNewlines(doc, next, names);
      ContributionNewlines(doc, pos, m);
      ScanEndStep(doc, pos, names, m);
      NewlinesAppend(Contribution(doc, pos, m), Extract(doc, next, names));
      NewlinesSplit(doc, pos, next, ScanEnd(doc, next, names));
    }
  }

  /** Cutting the document after a match leaves that match's contribution as it is. */
  lemma ContributionOfPrefix(doc: string, e: nat, pos: nat, m: Match)
    requires pos <= m.litStart <= m.litEnd < e <= |doc|
    ensures Contribution(doc[..e], pos, m) == Contribution(doc, pos, m)
  {
    assert doc[..e][pos..m.litStart] == doc[pos..m.litStart];
    assert doc[..e][m.litStart..m.litEnd] == doc[m.litStart..m.litEnd];
  }

  /**
   * Cutting the document right after its last matched closing backtick, or anywhere later, leaves the
   * output as it is.
   */
  lemma {:induction false} TailIgnored(doc: string, pos: nat, names: seq<string>, e: nat)
    requires pos <= |doc| && ScanEnd(doc, pos, names) <= e <= |doc|
    ensures Extract(doc[..e], pos, names) == Extract(doc, pos, names)
    decreases |doc| - pos
  {
    var f := FindMatch(doc, pos, names);
    if f.None? {
      TailIgnoredNone(doc, e, pos, names);
    } else {
      var m := f.value;
      ScanEndStep(doc, pos, names, m);
      TailIgnored(doc, m.litEnd + 1, names, e);
      TailIgnoredStep(doc, e, pos, names, m);
    }
  }

  /** The end of `TailIgnored`: without a match there is no output, from the document or from the cut one. */
  lemma TailIgnoredNone(doc: string, e: nat, pos: nat, names: seq<string>)
    requires FindMatch(doc, pos, names).None? && e <= |doc|
    ensures Extract(doc[..e], pos, names) == Extract(doc, pos, names) == []
  {
    FindMatchNoneOfPrefix(doc, e, pos, names);
    ExtractNone(doc, pos, names);
    ExtractNone(doc[..e], pos, names);
  }

  /** One step of `TailIgnored`: the cut document finds the same match and so makes the same contribution. */
  lemma TailIgnoredStep(doc: string, e: nat, pos: nat, names: seq<string>, m: Match)
    requires FindMatch(doc, pos, names) == Some(m) && m.litEnd < e <= |doc|
    requires Extract(doc[..e], m.litEnd + 1, names) == Extract(doc, m.litEnd + 1, names)
    ensures Extract(doc[..e], pos, names) == Extract(doc, pos, names)
  {
    FindMatchOfPrefix(doc, e, pos, names, m);
    ExtractStep(doc, pos, names, m);
    ExtractStep(doc[..e], pos, names, m);
    ContributionOfPrefix(doc, e, pos, m);
  }

  /** The whole output depends only on the document up to its last matched closing backtick. */
  lemma OutputIgnoresTail(doc: string, names: seq<string>)
    ensures Extract(doc[..ScanEnd(doc, 0, names)], 0, names) == Extract(doc, 0, names)
  {
    TailIgnored(doc, 0, names, ScanEnd(doc, 0, names));
  }

  /**
   * When the literal does not start on a new line, the last line of the prefix comes out as blanks of
   * its own length, so the literal's first character keeps its column within the prefix.
   */
  lemma {:induction false} PrefixKeepsColumn(a: string, b: string, lit: string)
    requires '\n' !in b && !StartsWithNewline(lit)
    ensures RewritePrefix(a + b, lit) == StripSpacesBeforeNewline(BlankOut(a)) + BlankOut(b)
    ensures |BlankOut(b)| == |b| && '\n' !in BlankOut(b)
  {
    BlankOutAppend(a, b);
    BlankOutNewlines(b);
    assert Newlines(BlankOut(b)) == 0;
    StripKeepsLastLine(BlankOut(a), BlankOut(b));
  }

  /** Escaped backticks stay escaped in the output: the rewrite of a literal keeps every backslash. */
  lemma RewriteLiteralKeepsEscapes(lit: string)
    requires BackticksEscaped('`', lit)
    ensures BackticksEscaped('`', RewriteLiteral(lit))
  {
    RewriteLiteralSpec(lit, RewriteLiteral(lit));
    SpacesDeletedKeepsEscapes('`', lit, RewriteLiteral(lit));
  }
}
