/**
 * The string rewrites applied to each match: blanking the text before a literal, deleting the spaces
 * that end its lines, and the line-wise right trim of a literal.
 */
module Rewrite {
  import opened CharClasses

  /** Replacing every `\S` character by one space (`replace(/\S/gm, " ")`). */
  function BlankOut(s: string): (r: string)
    ensures |r| == |s|
    decreases |s|
  {
    if s == [] then [] else [if IsWhitespace(s[0]) then s[0] else ' '] + BlankOut(s[1..])
  }

  /** Blanking keeps each whitespace character and turns every other character into one space. */
  lemma {:induction false} BlankOutAt(s: string)
    ensures forall i :: 0 <= i < |s| ==> BlankOut(s)[i] == (if IsWhitespace(s[i]) then s[i] else ' ')
    ensures forall i :: 0 <= i < |s| ==> IsWhitespace(BlankOut(s)[i])
    decreases |s|
  {
    if s != [] {
      BlankOutAt(s[1..]);
      var t := BlankOut(s[1..]);
      assert BlankOut(s) == [if IsWhitespace(s[0]) then s[0] else ' '] + t;
      assert forall i :: 0 < i < |s| ==> BlankOut(s)[i] == t[i - 1] && s[i] == s[1..][i - 1];
    }
  }

  /** Blanking keeps every line feed and makes no new one, so the text keeps its lines. */
  lemma {:induction false} BlankOutNewlines(s: string)
    ensures Newlines(BlankOut(s)) == Newlines(s)
    decreases |s|
  {
    if s != [] {
      BlankOutNewlines(s[1..]);
      var c := if IsWhitespace(s[0]) then s[0] else ' ';
      assert s == [s[0]] + s[1..];
      assert multiset(BlankOut(s)) == multiset([c]) + multiset(BlankOut(s[1..]));
    }
  }

  /** Blanking works character by character, so it distributes over concatenation. */
  lemma {:induction false} BlankOutAppend(a: string, b: string)
    ensures BlankOut(a + b) == BlankOut(a) + BlankOut(b)
    decreases |a|
  {
    if a == [] {
      assert a + b == b;
    } else {
      BlankOutAppend(a[1..], b);
      var c := if IsWhitespace(a[0]) then a[0] else ' ';
      assert (a + b)[0] == a[0] && (a + b)[1..] == a[1..] + b;
      assert [c] + (BlankOut(a[1..]) + BlankOut(b)) == ([c] + BlankOut(a[1..])) + BlankOut(b);
    }
  }

  /**
   * `r` is `s` with some of its U+0020 spaces deleted and nothing else changed: every other character
   * survives, in order.
   */
  ghost predicate SpacesDeleted(s: string, r: string)
    decreases |s|
  {
    if s == [] then r == []
    else (r != [] && r[0] == s[0] && SpacesDeleted(s[1..], r[1..])) || (s[0] == ' ' && SpacesDeleted(s[1..], r))
  }

  /** Deleting no space at all. */
  lemma {:induction false} SpacesDeletedNone(s: string)
    ensures SpacesDeleted(s, s)
    decreases |s|
  {
    if s != [] {
      SpacesDeletedNone(s[1..]);
    }
  }

  /** Deleting spaces keeps the count of every other character, line feeds in particular. */
  lemma {:induction false} SpacesDeletedKeepsOthers(s: string, r: string, c: char)
    requires SpacesDeleted(s, r)
    requires c != ' '
    ensures multiset(r)[c] == multiset(s)[c]
    ensures |r| <= |s|
    decreases |s|
  {
    if s != [] {
      assert s == [s[0]] + s[1..];
      if r != [] && r[0] == s[0] && SpacesDeleted(s[1..], r[1..]) {
        SpacesDeletedKeepsOthers(s[1..], r[1..], c);
        assert r == [r[0]] + r[1..];
      } else {
        SpacesDeletedKeepsOthers(s[1..], r, c);
      }
    }
  }

  /** Deleting spaces never lengthens the text. */
  lemma {:induction false} SpacesDeletedLength(s: string, r: string)
    requires SpacesDeleted(s, r)
    ensures |r| <= |s|
    decreases |s|
  {
    if s != [] {
      if r != [] && r[0] == s[0] && SpacesDeleted(s[1..], r[1..]) {
        SpacesDeletedLength(s[1..], r[1..]);
      } else {
        SpacesDeletedLength(s[1..], r);
      }
    }
  }

  lemma SpacesDeletedKeepsNewlines(s: string, r: string)
    requires SpacesDeleted(s, r)
    ensures Newlines(r) == Newlines(s)
  {
    SpacesDeletedKeepsOthers(s, r, '\n');
  }

  /** Deleting spaces introduces no character. */
  lemma {:induction false} SpacesDeletedChars(s: string, r: string)
    requires SpacesDeleted(s, r)
    ensures forall c :: c in r ==> c in s
    decreases |s|
  {
    if s != [] {
      assert s == [s[0]] + s[1..];
      if r != [] && r[0] == s[0] && SpacesDeleted(s[1..], r[1..]) {
        SpacesDeletedChars(s[1..], r[1..]);
        assert r == [r[0]] + r[1..];
      } else {
        SpacesDeletedChars(s[1..], r);
      }
    }
  }

  /** Deleting spaces never separates a backslash from the backtick after it. */
  lemma {:induction false} SpacesDeletedKeepsEscapes(prev: char, s: string, r: string)
    requires SpacesDeleted(s, r)
    requires BackticksEscaped(prev, s)
    ensures BackticksEscaped(prev, r)
    decreases |s|
  {
    if s != [] {
      if r != [] && r[0] == s[0] && SpacesDeleted(s[1..], r[1..]) {
        assert BackticksEscaped(s[0], s[1..]) by {
          forall i | 0 <= i < |s[1..]| && s[1..][i] == '`' ensures (if i == 0 then s[0] else s[1..][i - 1]) == '\\' {
            assert s[i + 1] == '`';
          }
        }
        SpacesDeletedKeepsEscapes(s[0], s[1..], r[1..]);
        forall i | 0 <= i < |r| && r[i] == '`' ensures (if i == 0 then prev else r[i - 1]) == '\\' {
          if i == 0 {
            assert s[0] == '`';
          } else {
            assert r[1..][i - 1] == '`';
            if i > 1 { assert r[1..][i - 2] == r[i - 1]; }
          }
        }
      } else {
        assert s[0] == ' ';
        assert BackticksEscaped(prev, s[1..]) by {
          forall i | 0 <= i < |s[1..]| && s[1..][i] == '`' ensures (if i == 0 then prev else s[1..][i - 1]) == '\\' {
            assert s[i + 1] == '`';
          }
        }
        SpacesDeletedKeepsEscapes(prev, s[1..], r);
      }
    }
  }

  /** Deleting every U+0020 space (`replace(/[ ]/gm, '')`). */
  function StripAllSpaces(s: string): string
    decreases |s|
  {
    if s == [] then [] else if s[0] == ' ' then StripAllSpaces(s[1..]) else [s[0]] + StripAllSpaces(s[1..])
  }

  /** What is left is `s` without its spaces: only spaces are deleted, and all of them. */
  lemma {:induction false} StripAllSpacesSpec(s: string)
    ensures ' ' !in StripAllSpaces(s)
    ensures SpacesDeleted(s, StripAllSpaces(s))
    decreases |s|
  {
    if s != [] {
      StripAllSpacesSpec(s[1..]);
      if s[0] != ' ' {
        assert StripAllSpaces(s)[1..] == StripAllSpaces(s[1..]);
      }
    }
  }

  // ---------------------------------------------------------------------------------------------
  // Runs of spaces

  /** Every character of `s` is a U+0020 space. */
  predicate AllSpaces(s: string)
    decreases |s|
  {
    s == [] || (s[0] == ' ' && AllSpaces(s[1..]))
  }

  lemma {:induction false} AllSpacesIff(s: string)
    ensures AllSpaces(s) <==> forall i :: 0 <= i < |s| ==> s[i] == ' '
    decreases |s|
  {
    if s != [] {
      AllSpacesIff(s[1..]);
      assert forall i :: 0 < i < |s| ==> s[i] == s[1..][i - 1];
    }
  }

  /** The text that follows the run of spaces at the start of `s`. */
  function AfterSpaces(s: string): string
    decreases |s|
  {
    if s != [] && s[0] == ' ' then AfterSpaces(s[1..]) else s
  }

  /** The run stops at the first character that is not a space, and only an all-space text has no such character. */
  lemma {:induction false} AfterSpacesEmpty(s: string)
    ensures AfterSpaces(s) == [] <==> AllSpaces(s)
    ensures AfterSpaces(s) != [] ==> AfterSpaces(s)[0] != ' '
    decreases |s|
  {
    if s != [] && s[0] == ' ' {
      AfterSpacesEmpty(s[1..]);
    }
  }

  /** The run of spaces at the start of `a + b` stops inside `a` unless `a` is all spaces. */
  lemma {:induction false} AfterSpacesAppend(a: string, b: string)
    ensures AfterSpaces(a + b) == if AllSpaces(a) then AfterSpaces(b) else AfterSpaces(a) + b
    decreases |a|
  {
    if a == [] {
      assert a + b == b;
    } else {
      assert (a + b)[0] == a[0] && (a + b)[1..] == a[1..] + b;
      if a[0] == ' ' {
        AfterSpacesAppend(a[1..], b);
      }
    }
  }

  /**
   * Whether a space is deleted, given the text `rest` that follows its run of spaces. Without
   * `multiline` the run must be followed by a line feed (`[ ]*(?=\n+)`); with it, by a line
   * terminator or by the end of the text (`(?!\n)[ ]+$` in multiline mode).
   */
  predicate RunEndsLine(rest: string, multiline: bool)
  {
    if multiline then rest == [] || IsLineTerminator(rest[0]) else rest != [] && rest[0] == '\n'
  }

  /**
   * The global replacement by the empty string of the space runs that `RunEndsLine` accepts: a space
   * is deleted exactly when the text after its run ends a line there, and every other character
   * is kept.
   */
  function DropSpaces(s: string, multiline: bool): string
    decreases |s|
  {
    if s == [] then []
    else if s[0] == ' ' && RunEndsLine(AfterSpaces(s), multiline) then DropSpaces(s[1..], multiline)
    else [s[0]] + DropSpaces(s[1..], multiline)
  }

  lemma {:induction false} DropSpacesDeletesSpaces(s: string, multiline: bool)
    ensures SpacesDeleted(s, DropSpaces(s, multiline))
    decreases |s|
  {
    if s != [] {
      DropSpacesDeletesSpaces(s[1..], multiline);
      if !(s[0] == ' ' && RunEndsLine(AfterSpaces(s), multiline)) {
        assert DropSpaces(s, multiline)[1..] == DropSpaces(s[1..], multiline);
      }
    }
  }

  /** When the text after a run does not end a line, neither does the result of the replacement on it. */
  lemma DropSpacesHead(u: string, multiline: bool)
    requires !RunEndsLine(AfterSpaces(u), multiline)
    ensures !RunEndsLine(DropSpaces(u, multiline), multiline)
  {
  }

  /** No space of `r` stands where a deleted run would end. */
  ghost predicate NoSpaceAtLineEnd(r: string, multiline: bool)
  {
    forall i :: 0 <= i < |r| && r[i] == ' ' ==> !RunEndsLine(r[i + 1..], multiline)
  }

  /** After the replacement no space is left where a deleted run would end. */
  lemma {:induction false} DropSpacesNoLineEndSpace(s: string, multiline: bool)
    ensures NoSpaceAtLineEnd(DropSpaces(s, multiline), multiline)
    decreases |s|
  {
    if s != [] {
      DropSpacesNoLineEndSpace(s[1..], multiline);
      var t := DropSpaces(s[1..], multiline);
      if !(s[0] == ' ' && RunEndsLine(AfterSpaces(s), multiline)) {
        var r := [s[0]] + t;
        assert DropSpaces(s, multiline) == r;
        if s[0] == ' ' {
          assert AfterSpaces(s) == AfterSpaces(s[1..]);
          DropSpacesHead(s[1..], multiline);
        }
        forall i | 0 <= i < |r| && r[i] == ' ' ensures !RunEndsLine(r[i + 1..], multiline) {
          if i == 0 {
            assert r[1..] == t;
          } else {
            assert r[i] == t[i - 1];
            assert r[i + 1..] == t[i - 1 + 1..];
          }
        }
      }
    }
  }

  // ---------------------------------------------------------------------------------------------
  // The line-wise reading of DropSpaces

  /** Whether `c` ends a line for the given mode. */
  predicate EndsLine(c: char, multiline: bool)
  {
    if multiline then IsLineTerminator(c) else c == '\n'
  }

  /** No character of `s` ends a line. */
  predicate OneLine(s: string, multiline: bool)
    decreases |s|
  {
    s == [] || (!EndsLine(s[0], multiline) && OneLine(s[1..], multiline))
  }

  /** A text without line feeds is one line for the prefix rewrite. */
  lemma {:induction false} OneLineWithout(s: string)
    requires '\n' !in s
    ensures OneLine(s, false)
    decreases |s|
  {
    if s != [] {
      assert s == [s[0]] + s[1..];
      OneLineWithout(s[1..]);
    }
  }

  /** Within one line, the text after a run of spaces is empty or starts with a character that does not end the line. */
  lemma {:induction false} AfterSpacesOneLine(s: string, multiline: bool)
    requires OneLine(s, multiline)
    ensures AfterSpaces(s) == [] || !EndsLine(AfterSpaces(s)[0], multiline)
    decreases |s|
  {
    if s != [] && s[0] == ' ' {
      AfterSpacesOneLine(s[1..], multiline);
    }
  }

  /** The length of the first line of `s`: the index of its first line end, or `|s|`. */
  function LineLength(s: string, multiline: bool): (i: nat)
    ensures i <= |s|
    decreases |s|
  {
    if s == [] || EndsLine(s[0], multiline) then 0 else 1 + LineLength(s[1..], multiline)
  }

  /** The first line holds no line end, and the character after it, if any, ends it. */
  lemma {:induction false} LineLengthSplit(s: string, multiline: bool)
    ensures OneLine(s[..LineLength(s, multiline)], multiline)
    ensures LineLength(s, multiline) < |s| ==> EndsLine(s[LineLength(s, multiline)], multiline)
    decreases |s|
  {
    if s != [] && !EndsLine(s[0], multiline) {
      LineLengthSplit(s[1..], multiline);
      var i := LineLength(s, multiline);
      assert s[..i][0] == s[0] && s[..i][1..] == s[1..][..i - 1];
      assert i < |s| ==> s[i] == s[1..][i - 1];
    }
  }

  /** `s` without its trailing spaces: a character is kept unless only spaces follow from it on. */
  function RTrim(s: string): string
    decreases |s|
  {
    if AllSpaces(s) then [] else [s[0]] + RTrim(s[1..])
  }

  /** The right trim keeps a prefix of `s`, drops only spaces, and leaves no space at the end. */
  lemma {:induction false} RTrimSpec(s: string)
    ensures |RTrim(s)| <= |s| && RTrim(s) == s[..|RTrim(s)|]
    ensures forall i :: |RTrim(s)| <= i < |s| ==> s[i] == ' '
    ensures RTrim(s) == [] || RTrim(s)[|RTrim(s)| - 1] != ' '
    decreases |s|
  {
    if AllSpaces(s) {
      AllSpacesIff(s);
    } else {
      RTrimSpec(s[1..]);
      var r, t := RTrim(s), RTrim(s[1..]);
      assert r == [s[0]] + t;
      assert s[..|r|] == [s[0]] + s[1..][..|t|];
      forall i | |r| <= i < |s| ensures s[i] == ' ' {
        assert s[i] == s[1..][i - 1];
      }
      if t == [] {
        assert AllSpaces(s[1..]);
      }
    }
  }

  /**
   * Right-trimming each line of `s` and keeping the line ends. Without `multiline` the last line
   * (the one not followed by a line feed) is left as it is.
   */
  function TrimLines(s: string, multiline: bool): string
    decreases |s|
  {
    var i := LineLength(s, multiline);
    if i == |s| then (if multiline then RTrim(s) else s)
    else RTrim(s[..i]) + [s[i]] + TrimLines(s[i + 1..], multiline)
  }

  /** On a single line the replacement is the right trim with `multiline`, and does nothing without it. */
  lemma {:induction false} DropSpacesOneLine(a: string, multiline: bool)
    requires OneLine(a, multiline)
    ensures DropSpaces(a, multiline) == if multiline then RTrim(a) else a
    decreases |a|
  {
    if a != [] {
      DropSpacesOneLine(a[1..], multiline);
      AfterSpacesOneLine(a, multiline);
      AfterSpacesEmpty(a);
      assert a == [a[0]] + a[1..];
    }
  }

  /** A line followed by a line end: the line is right-trimmed, the line end kept, and the rest replaced on its own. */
  lemma {:induction false} DropSpacesLineEnd(a: string, rest: string, multiline: bool)
    requires OneLine(a, multiline) && rest != [] && EndsLine(rest[0], multiline)
    ensures DropSpaces(a + rest, multiline) == RTrim(a) + [rest[0]] + DropSpaces(rest[1..], multiline)
    decreases |a|
  {
    if a == [] {
      assert a + rest == rest;
    } else {
      var s := a + rest;
      assert s[0] == a[0] && s[1..] == a[1..] + rest;
      DropSpacesLineEnd(a[1..], rest, multiline);
      assert RunEndsLine(AfterSpaces(s), multiline) <==> AllSpaces(a) by {
        AfterSpacesAppend(a, rest);
        AfterSpacesOneLine(a, multiline);
        AfterSpacesEmpty(a);
      }
      var x, y := RTrim(a[1..]), DropSpaces(rest[1..], multiline);
      if AllSpaces(a) {
        assert x == [];
      } else {
        assert [a[0]] + (x + [rest[0]] + y) == ([a[0]] + x) + [rest[0]] + y;
      }
    }
  }

  /** The replacement of space runs is the line-wise right trim. */
  lemma {:induction false} DropSpacesByLine(s: string, multiline: bool)
    ensures DropSpaces(s, multiline) == TrimLines(s, multiline)
    decreases |s|
  {
    var i := LineLength(s, multiline);
    LineLengthSplit(s, multiline);
    if i == |s| {
      assert s[..i] == s;
      DropSpacesOneLine(s, multiline);
    } else {
      DropSpacesByLine(s[i + 1..], multiline);
      DropSpacesLineEnd(s[..i], s[i..], multiline);
      assert s == s[..i] + s[i..] && s[i..][1..] == s[i + 1..];
    }
  }

  // ---------------------------------------------------------------------------------------------
  // The two uses of DropSpaces

  /**
   * Deleting the spaces that end a line of the blanked prefix (`replace(/[ ]*(?=\n+)/gm, '')`): a
   * space goes when its run is followed by a line feed.
   */
  function StripSpacesBeforeNewline(s: string): string
  {
    DropSpaces(s, false)
  }

  /**
   * Every line followed by a line feed is right-trimmed and the last line is kept, only spaces are
   * deleted, and no space is left right before a line feed.
   */
  lemma StripSpacesBeforeNewlineSpec(s: string, r: string)
    requires r == StripSpacesBeforeNewline(s)
    ensures r == TrimLines(s, false)
    ensures SpacesDeleted(s, r)
    ensures forall i :: 0 <= i < |r| - 1 && r[i] == ' ' ==> r[i + 1] != '\n'
  {
    DropSpacesByLine(s, false);
    DropSpacesDeletesSpaces(s, false);
    DropSpacesNoLineEndSpace(s, false);
  }

  /**
   * The line-wise right trim of a literal (`replace(/(?!\n)[ ]+$/gm, '')`): a space goes when its run
   * is followed by a line terminator (`\n`, `\r`, U+2028, U+2029) or by the end of the literal.
   */
  function RightTrimLines(s: string): string
  {
    DropSpaces(s, true)
  }

  /**
   * Every line, the last one included, is right-trimmed, only spaces are deleted, and every space
   * left is followed by a character that is no line terminator.
   */
  lemma RightTrimLinesSpec(s: string, r: string)
    requires r == RightTrimLines(s)
    ensures r == TrimLines(s, true)
    ensures SpacesDeleted(s, r)
    ensures forall i :: 0 <= i < |r| && r[i] == ' ' ==> i + 1 < |r| && !IsLineTerminator(r[i + 1])
  {
    DropSpacesByLine(s, true);
    DropSpacesDeletesSpaces(s, true);
    DropSpacesNoLineEndSpace(s, true);
  }

  /** The part of the prefix after its last line feed comes through unchanged, so it keeps its length. */
  lemma {:induction false} StripKeepsLastLine(a: string, b: string)
    requires '\n' !in b
    ensures StripSpacesBeforeNewline(a + b) == StripSpacesBeforeNewline(a) + b
    decreases |a|
  {
    OneLineWithout(b);
    if a == [] {
      assert a + b == b;
      DropSpacesOneLine(b, false);
    } else {
      var s := a + b;
      assert s[0] == a[0] && s[1..] == a[1..] + b;
      StripKeepsLastLine(a[1..], b);
      AfterSpacesAppend(a, b);
      AfterSpacesEmpty(a);
      AfterSpacesOneLine(b, false);
      var x := DropSpaces(a[1..], false);
      assert [a[0]] + (x + b) == ([a[0]] + x) + b;
    }
  }

  /**
   * The guard of the right trim (`/\n[ ]+$/`): the literal ends with a line feed followed by one or
   * more spaces.
   */
  predicate EndsWithNewlineThenSpaces(lit: string)
    decreases |lit|
  {
    |lit| >= 2 && ((lit[0] == '\n' && AllSpaces(lit[1..])) || EndsWithNewlineThenSpaces(lit[1..]))
  }

  /** The guard holds exactly when some line feed is followed by spaces only, and at least one. */
  lemma {:induction false} EndsWithNewlineThenSpacesIff(lit: string)
    ensures EndsWithNewlineThenSpaces(lit) <==>
      exists i :: 0 <= i < |lit| - 1 && lit[i] == '\n' && forall k :: i < k < |lit| ==> lit[k] == ' '
    decreases |lit|
  {
    if lit != [] {
      var t := lit[1..];
      EndsWithNewlineThenSpacesIff(t);
      AllSpacesIff(t);
      assert forall k :: 0 < k < |lit| ==> lit[k] == t[k - 1];
      if EndsWithNewlineThenSpaces(lit) {
        if lit[0] == '\n' && AllSpaces(t) {
          assert 0 < |lit| - 1 && lit[0] == '\n' && forall k :: 0 < k < |lit| ==> lit[k] == ' ';
        } else {
          var j :| 0 <= j < |t| - 1 && t[j] == '\n' && forall k :: j < k < |t| ==> t[k] == ' ';
          assert lit[j + 1] == '\n' && forall k :: j + 1 < k < |lit| ==> lit[k] == ' ';
        }
      }
      if exists i :: 0 <= i < |lit| - 1 && lit[i] == '\n' && forall k :: i < k < |lit| ==> lit[k] == ' ' {
        var i :| 0 <= i < |lit| - 1 && lit[i] == '\n' && forall k :: i < k < |lit| ==> lit[k] == ' ';
        if i > 0 {
          assert t[i - 1] == '\n' && forall k :: i - 1 < k < |t| ==> t[k] == ' ';
        }
      }
    }
  }
}
