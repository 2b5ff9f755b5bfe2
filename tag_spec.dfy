/**
 * The tag specification accepted by the extractor: one or more tag names separated by `|`,
 * each name one or more identifiers separated by `.`, an identifier being `[a-zA-Z0-9_]+`.
 * The names are spliced into the scanning pattern as an alternation.
 */
module TagSpec {
  import opened CharClasses

  /** An identifier: `[a-zA-Z0-9_]+`. */
  predicate IsIdent(s: string)
  {
    |s| > 0 && forall i :: 0 <= i < |s| ==> IsIdentChar(s[i])
  }

  /**
   * The recognizer for `ident ('.' ident)*` (or, when `bars` holds, for the full
   * `ident ('.' ident)* ('|' ident ('.' ident)*)*`) in the state where the next
   * character must start an identifier.
   */
  predicate StartsIdent(u: string, bars: bool)
    decreases |u|
  {
    |u| > 0 && IsIdentChar(u[0]) && AfterIdentChar(u[1..], bars)
  }

  /** The same recognizer in the state right after an identifier character (an accepting state). */
  predicate AfterIdentChar(u: string, bars: bool)
    decreases |u|
  {
    u == [] ||
    (IsIdentChar(u[0]) && AfterIdentChar(u[1..], bars)) ||
    ((u[0] == '.' || (bars && u[0] == '|')) && StartsIdent(u[1..], bars))
  }

  /** The whole-string test of the validation pattern. */
  predicate IsValidTagSpec(tag: string)
  {
    StartsIdent(tag, true)
  }

  /** One tag name, `ident ('.' ident)*`. */
  predicate IsValidTagName(name: string)
  {
    StartsIdent(name, false)
  }

  /** The pieces of `s` between occurrences of `sep`. */
  function Split(s: string, sep: char): (parts: seq<string>)
    ensures |parts| >= 1
    ensures forall p :: p in parts ==> sep !in p && forall c :: c in p ==> c in s
    decreases |s|
  {
    if s == [] then [[]]
    else
      var rest := Split(s[1..], sep);
      assert forall c :: c in s[1..] ==> c in s;
      assert rest[0] in rest && forall p :: p in rest[1..] ==> p in rest;
      if s[0] == sep then [[]] + rest else [[s[0]] + rest[0]] + rest[1..]
  }

  /** The pieces joined back with `sep` between neighbours. */
  function Join(parts: seq<string>, sep: char): string
    requires |parts| >= 1
    decreases |parts|
  {
    if |parts| == 1 then parts[0] else parts[0] + [sep] + Join(parts[1..], sep)
  }

  /** The alternatives of the pattern's `(?:tag)` group, in the order they are tried. */
  function TagNames(tag: string): seq<string>
  {
    Split(tag, '|')
  }

  /** Joining the pieces restores the split string. */
  lemma {:induction false} JoinSplit(s: string, sep: char)
    ensures Join(Split(s, sep), sep) == s
    decreases |s|
  {
    if s != [] {
      JoinSplit(s[1..], sep);
      var rest := Split(s[1..], sep);
      if s[0] == sep {
        assert Split(s, sep)[1..] == rest;
      } else if |rest| == 1 {
        assert s == [s[0]] + s[1..];
      } else {
        assert Split(s, sep)[1..] == rest[1..];
        assert rest == [rest[0]] + rest[1..];
        assert Join(rest, sep) == rest[0] + [sep] + Join(rest[1..], sep);
        assert s == [s[0]] + s[1..];
      }
    }
  }

  /** A piece without the separator splits to itself. */
  lemma {:induction false} SplitWithout(a: string, sep: char)
    requires sep !in a
    ensures Split(a, sep) == [a]
    decreases |a|
  {
    if a != [] {
      SplitWithout(a[1..], sep);
      assert a == [a[0]] + a[1..];
    }
  }

  /** Splitting at the first separator. */
  lemma {:induction false} SplitAtFirst(a: string, sep: char, b: string)
    requires sep !in a
    ensures Split(a + [sep] + b, sep) == [a] + Split(b, sep)
    decreases |a|
  {
    if a == [] {
      assert a + [sep] + b == [sep] + b;
      assert ([sep] + b)[1..] == b;
    } else {
      SplitAtFirst(a[1..], sep, b);
      assert (a + [sep] + b)[1..] == a[1..] + [sep] + b;
      assert a == [a[0]] + a[1..];
    }
  }

  /** Splitting undoes joining pieces that do not contain the separator. */
  lemma {:induction false} SplitJoin(parts: seq<string>, sep: char)
    requires |parts| >= 1
    requires forall i :: 0 <= i < |parts| ==> sep !in parts[i]
    ensures Split(Join(parts, sep), sep) == parts
    decreases |parts|
  {
    if |parts| == 1 {
      SplitWithout(parts[0], sep);
    } else {
      SplitJoin(parts[1..], sep);
      SplitAtFirst(parts[0], sep, Join(parts[1..], sep));
    }
  }

  /** Outside separators, both bar modes of the recognizer agree. */
  lemma {:induction false} BarsIrrelevant(u: string)
    requires '|' !in u
    ensures StartsIdent(u, true) == StartsIdent(u, false)
    ensures AfterIdentChar(u, true) == AfterIdentChar(u, false)
    decreases |u|
  {
    if u != [] {
      BarsIrrelevant(u[1..]);
    }
  }

  /** An identifier followed by a separator, in the recognizer. */
  lemma {:induction false} IdentThenSeparator(s: string, sep: char, r: string, bars: bool)
    requires sep == '.' || (bars && sep == '|')
    requires '.' !in s && '|' !in s
    ensures StartsIdent(s + [sep] + r, bars) == (IsIdent(s) && StartsIdent(r, bars))
    ensures AfterIdentChar(s + [sep] + r, bars) == ((forall i :: 0 <= i < |s| ==> IsIdentChar(s[i])) && StartsIdent(r, bars))
    decreases |s|
  {
    var u := s + [sep] + r;
    if s == [] {
      assert u == [sep] + r;
      assert u[1..] == r;
    } else {
      IdentThenSeparator(s[1..], sep, r, bars);
      assert u[1..] == s[1..] + [sep] + r;
      assert u[0] == s[0];
      if IsIdentChar(s[0]) {
        assert (forall i :: 0 <= i < |s| ==> IsIdentChar(s[i])) == (forall i :: 0 <= i < |s[1..]| ==> IsIdentChar(s[1..][i])) by {
          if forall i :: 0 <= i < |s[1..]| ==> IsIdentChar(s[1..][i]) {
            forall i | 0 <= i < |s| ensures IsIdentChar(s[i]) {
              if i > 0 { assert s[i] == s[1..][i - 1]; }
            }
          }
        }
      } else {
        assert s[0] in s;
      }
    }
  }

  /** An identifier without separators, in the recognizer. */
  lemma {:induction false} IdentAlone(s: string, bars: bool)
    requires '.' !in s && '|' !in s
    ensures StartsIdent(s, bars) == IsIdent(s)
    ensures AfterIdentChar(s, bars) == (forall i :: 0 <= i < |s| ==> IsIdentChar(s[i]))
    decreases |s|
  {
    if s != [] {
      IdentAlone(s[1..], bars);
      if IsIdentChar(s[0]) {
        assert (forall i :: 0 <= i < |s| ==> IsIdentChar(s[i])) == (forall i :: 0 <= i < |s[1..]| ==> IsIdentChar(s[1..][i])) by {
          if forall i :: 0 <= i < |s[1..]| ==> IsIdentChar(s[1..][i]) {
            forall i | 0 <= i < |s| ensures IsIdentChar(s[i]) {
              if i > 0 { assert s[i] == s[1..][i - 1]; }
            }
          }
        }
      } else {
        assert s[0] in s;
      }
    }
  }

  /** A tag name followed by `|`, in the recognizer of a whole specification. */
  lemma {:induction false} NameThenBar(n: string, r: string)
    requires '|' !in n
    ensures StartsIdent(n + ['|'] + r, true) == (StartsIdent(n, false) && StartsIdent(r, true))
    ensures AfterIdentChar(n + ['|'] + r, true) == (AfterIdentChar(n, false) && StartsIdent(r, true))
    decreases |n|
  {
    var u := n + ['|'] + r;
    if n == [] {
      assert u == ['|'] + r;
      assert u[1..] == r;
    } else {
      NameThenBar(n[1..], r);
      assert u[1..] == n[1..] + ['|'] + r;
      assert u[0] == n[0];
    }
  }

  /** The recognizer on joined identifiers accepts exactly when each piece is an identifier. */
  lemma {:induction false} JoinedIdents(segs: seq<string>, bars: bool)
    requires |segs| >= 1
    requires forall j :: 0 <= j < |segs| ==> '.' !in segs[j] && '|' !in segs[j]
    ensures StartsIdent(Join(segs, '.'), bars) == (forall j :: 0 <= j < |segs| ==> IsIdent(segs[j]))
    decreases |segs|
  {
    if |segs| == 1 {
      IdentAlone(segs[0], bars);
    } else {
      JoinedIdents(segs[1..], bars);
      IdentThenSeparator(segs[0], '.', Join(segs[1..], '.'), bars);
      assert forall j :: 1 <= j < |segs| ==> segs[j] == segs[1..][j - 1];
    }
  }

  /** The recognizer on joined names accepts exactly when each piece is a tag name. */
  lemma {:induction false} JoinedNames(names: seq<string>)
    requires |names| >= 1
    requires forall i :: 0 <= i < |names| ==> '|' !in names[i]
    ensures StartsIdent(Join(names, '|'), true) == (forall i :: 0 <= i < |names| ==> IsValidTagName(names[i]))
    decreases |names|
  {
    if |names| == 1 {
      BarsIrrelevant(names[0]);
    } else {
      JoinedNames(names[1..]);
      NameThenBar(names[0], Join(names[1..], '|'));
      assert forall i :: 1 <= i < |names| ==> names[i] == names[1..][i - 1];
    }
  }

  /** Every `.`-separated piece of `name` is an identifier. */
  ghost predicate SegmentsAreIdents(name: string)
  {
    forall j :: 0 <= j < |Split(name, '.')| ==> IsIdent(Split(name, '.')[j])
  }

  /** A tag name is valid exactly when every `.`-separated piece is an identifier. */
  lemma TagNameGrammar(name: string)
    requires '|' !in name
    ensures IsValidTagName(name) <==> SegmentsAreIdents(name)
  {
    var segs := Split(name, '.');
    JoinSplit(name, '.');
    assert forall j :: 0 <= j < |segs| ==> segs[j] in segs;
    JoinedIdents(segs, false);
  }

  /**
   * The validation pattern, read as a grammar: a specification is valid exactly when it is a
   * `|`-separated list of names, each of them a `.`-separated list of identifiers.
   */
  lemma TagSpecGrammar(tag: string)
    ensures IsValidTagSpec(tag) <==> forall i :: 0 <= i < |TagNames(tag)| ==> SegmentsAreIdents(TagNames(tag)[i])
  {
    var names := TagNames(tag);
    JoinSplit(tag, '|');
    assert forall i :: 0 <= i < |names| ==> names[i] in names;
    JoinedNames(names);
    forall i | 0 <= i < |names| ensures IsValidTagName(names[i]) <==> SegmentsAreIdents(names[i]) {
      TagNameGrammar(names[i]);
    }
  }

  /** Only identifier characters and the two separators. */
  predicate IsTagChar(c: char)
  {
    IsIdentChar(c) || c == '.' || c == '|'
  }

  /**
   * The characters after an identifier character: all tag characters, every separator followed by an
   * identifier character, and a last character (if any) that is an identifier character.
   */
  ghost predicate WellSeparatedTail(u: string)
  {
    (forall i :: 0 <= i < |u| ==> IsTagChar(u[i])) &&
    (forall i :: 0 <= i < |u| - 1 ==> IsIdentChar(u[i]) || IsIdentChar(u[i + 1])) &&
    (u != [] ==> IsIdentChar(u[|u| - 1]))
  }

  lemma {:induction false} AfterIdentCharLocal(u: string)
    ensures AfterIdentChar(u, true) <==> WellSeparatedTail(u)
    decreases |u|
  {
    if u != [] {
      AfterIdentCharLocal(u[1..]);
      assert forall i :: 1 <= i < |u| ==> u[i] == u[1..][i - 1];
      if |u| >= 2 {
        AfterIdentCharLocal(u[2..]);
        assert forall i :: 2 <= i < |u| ==> u[i] == u[2..][i - 2];
        assert u[1..][1..] == u[2..];
      }
    }
  }

  /**
   * A character-level reading of the same pattern: a non-empty string of identifier characters, `.`
   * and `|` that begins and ends with an identifier character and never has two separators in a row.
   */
  lemma ValidTagSpecLocal(tag: string)
    ensures IsValidTagSpec(tag) <==>
      |tag| > 0 && IsIdentChar(tag[0]) && IsIdentChar(tag[|tag| - 1]) &&
      (forall i :: 0 <= i < |tag| ==> IsTagChar(tag[i])) &&
      (forall i :: 0 <= i < |tag| - 1 ==> IsIdentChar(tag[i]) || IsIdentChar(tag[i + 1]))
  {
    if tag != [] {
      AfterIdentCharLocal(tag[1..]);
      assert forall i :: 1 <= i < |tag| ==> tag[i] == tag[1..][i - 1];
    }
  }

  /** A specification of two names splits into those two names. */
  lemma SplitTwo(a: string, b: string)
    requires '|' !in a && '|' !in b
    ensures Split(a + ['|'] + b, '|') == [a, b]
  {
    SplitAtFirst(a, '|', b);
    SplitWithout(b, '|');
  }

  /** Two identifiers joined by a bar form a valid specification. */
  lemma ValidTwo(a: string, b: string)
    requires IsIdent(a) && IsIdent(b) && '|' !in a && '|' !in b && '.' !in a && '.' !in b
    ensures IsValidTagSpec(a + ['|'] + b)
  {
    NameThenBar(a, b);
    IdentAlone(a, false);
    IdentAlone(b, true);
  }
}
