/**
 * The scan for tagged template literals, written with indices instead of the pattern
 * `([\s\S]*?(?:tag)`)([\s\S]*?)((?<=[^\\])`)` run with `exec` from `lastIndex`.
 *
 * Because the leading `[\s\S]*?` can absorb any text, a match always begins at the scan position;
 * the lazy quantifiers and the alternation then pick, in this order of preference, the earliest
 * tag position, the first listed alternative there, and the earliest closing backtick.
 */
module Scanner {
  import opened Wrappers
  import opened CharClasses

  /**
   * One match: the tag alternative `alt` at `tagStart`, the opening backtick right after it, the
   * literal `doc[litStart..litEnd]`, and the closing backtick at `litEnd`.
   */
  datatype Match = Match(tagStart: nat, alt: nat, litStart: nat, litEnd: nat)

  /**
   * One character of a tag as a pattern character: the tag is spliced into the pattern unescaped,
   * so a `.` is the wildcard for any character but a line terminator.
   */
  predicate PatternCharMatches(p: char, c: char)
  {
    if p == '.' then !IsLineTerminator(c) else p == c
  }

  /** The tag `name`, read as a pattern, matches the document at `k`. */
  predicate NameMatchesAt(doc: string, k: nat, name: string)
  {
    k + |name| <= |doc| && forall i :: 0 <= i < |name| ==> PatternCharMatches(name[i], doc[k + i])
  }

  /** The tag `name` followed by a backtick occurs at `k`. */
  predicate Opens(doc: string, k: nat, name: string)
  {
    NameMatchesAt(doc, k, name) && k + |name| < |doc| && doc[k + |name|] == '`'
  }

  /** `(?<=[^\\])``: a backtick whose left neighbour exists and is not a backslash. */
  predicate IsClosingAt(doc: string, j: nat)
  {
    0 < j < |doc| && doc[j] == '`' && doc[j - 1] != '\\'
  }

  /** The first closing backtick at or after `j`, the lazy `([\s\S]*?)` of the literal. */
  function FirstClosing(doc: string, j: nat): (r: Option<nat>)
    ensures r.Some? ==> (j <= r.value < |doc| && IsClosingAt(doc, r.value) &&
                         forall i :: j <= i < r.value ==> !IsClosingAt(doc, i))
    ensures r.None? ==> forall i :: j <= i < |doc| ==> !IsClosingAt(doc, i)
    decreases |doc| - j
  {
    if j >= |doc| then None
    else if IsClosingAt(doc, j) then Some(j)
    else FirstClosing(doc, j + 1)
  }

  /** Conversely, a closing backtick with none before it from `j` on is the one `FirstClosing` finds. */
  lemma {:induction false} FirstClosingIsFirst(doc: string, j: nat, c: nat)
    requires j <= c && IsClosingAt(doc, c)
    requires forall i :: j <= i < c ==> !IsClosingAt(doc, i)
    ensures FirstClosing(doc, j) == Some(c)
    decreases c - j
  {
    if j < c {
      FirstClosingIsFirst(doc, j + 1, c);
    }
  }

  /**
   * Alternative `a` at `k` can complete a match: the tag and an opening backtick occur there, and a
   * closing backtick follows.
   */
  predicate Candidate(doc: string, k: nat, names: seq<string>, a: nat)
  {
    a < |names| && Opens(doc, k, names[a]) && FirstClosing(doc, k + |names[a]| + 1).Some?
  }

  /** The shape of a match of alternative `m.alt`, its literal ending at the first closing backtick. */
  predicate IsMatchAt(doc: string, names: seq<string>, m: Match)
  {
    m.alt < |names| && Opens(doc, m.tagStart, names[m.alt]) &&
    m.litStart == m.tagStart + |names[m.alt]| + 1 &&
    FirstClosing(doc, m.litStart) == Some(m.litEnd)
  }

  /** A candidate is exactly a tag, an opening backtick and some closing backtick after it. */
  lemma CandidateIff(doc: string, k: nat, names: seq<string>, a: nat)
    requires a < |names|
    ensures Candidate(doc, k, names, a) <==>
      Opens(doc, k, names[a]) && exists j :: k + |names[a]| < j < |doc| && IsClosingAt(doc, j)
  {
    var c := FirstClosing(doc, k + |names[a]| + 1);
    if c.Some? {
      assert k + |names[a]| < c.value < |doc| && IsClosingAt(doc, c.value);
    }
  }

  /** Trying alternative `a` at position `k`. */
  function TryAt(doc: string, k: nat, names: seq<string>, a: nat): (r: Option<Match>)
    requires a < |names|
    ensures r.Some? <==> Candidate(doc, k, names, a)
    ensures r.Some? ==> r.value.tagStart == k && r.value.alt == a && IsMatchAt(doc, names, r.value)
  {
    var name := names[a];
    if Opens(doc, k, name) then
      match FirstClosing(doc, k + |name| + 1)
      case Some(e) => Some(Match(k, a, k + |name| + 1, e))
      case None => None
    else None
  }

  /** Trying the alternatives `a`, `a + 1`, ... at position `k`, in the order they are listed. */
  function TryAlternatives(doc: string, k: nat, names: seq<string>, a: nat): (r: Option<Match>)
    ensures r.Some? ==> a <= r.value.alt && r.value.tagStart == k && IsMatchAt(doc, names, r.value)
    decreases |names| - a
  {
    if a >= |names| then None
    else
      match TryAt(doc, k, names, a)
      case Some(m) => Some(m)
      case None => TryAlternatives(doc, k, names, a + 1)
  }

  /** No alternative from `lo` to `hi - 1` can complete a match at `k`. */
  ghost predicate NoAlternativeBetween(doc: string, k: nat, names: seq<string>, lo: nat, hi: nat)
  {
    forall b :: lo <= b < hi ==> !Candidate(doc, k, names, b)
  }

  /** The alternative that `TryAlternatives` picks is the first one that can be completed. */
  lemma {:induction false} TryAlternativesFirst(doc: string, k: nat, names: seq<string>, a: nat)
    ensures TryAlternatives(doc, k, names, a).Some? ==>
              NoAlternativeBetween(doc, k, names, a, TryAlternatives(doc, k, names, a).value.alt)
    ensures TryAlternatives(doc, k, names, a).None? ==> NoAlternativeBetween(doc, k, names, a, |names|)
    decreases |names| - a
  {
    if a < |names| && TryAt(doc, k, names, a).None? {
      TryAlternativesFirst(doc, k, names, a + 1);
    }
  }

  /**
   * One `exec` of the pattern from the scan position `pos`: a match of the pattern starting at or
   * after `pos`, or none. `FindMatchFirst` and `FindMatchIsFirst` show it is the first one.
   */
  function FindMatch(doc: string, pos: nat, names: seq<string>): (r: Option<Match>)
    ensures r.Some? ==> Delimited(doc, pos, r.value)
    decreases |doc| - pos
  {
    if pos >= |doc| then None
    else
      match TryAlternatives(doc, pos, names, 0)
      case Some(m) => MatchDelimited(doc, pos, names, m); Some(m)
      case None => FindMatch(doc, pos + 1, names)
  }

  /**
   * The match lies at or after `pos`, and its literal stands between the opening backtick right
   * before it and the closing backtick right after it.
   */
  ghost predicate Delimited(doc: string, pos: nat, m: Match)
  {
    pos <= m.tagStart < m.litStart <= m.litEnd < |doc| && doc[m.litStart - 1] == '`' && doc[m.litEnd] == '`'
  }

  /** A match takes at least the tag and both backticks, so the scan position always advances. */
  lemma MatchDelimited(doc: string, pos: nat, names: seq<string>, m: Match)
    requires pos <= m.tagStart && IsMatchAt(doc, names, m)
    ensures Delimited(doc, pos, m)
  {
  }

  /** No alternative can complete a match at any position from `lo` to `hi - 1`. */
  ghost predicate NoCandidateBetween(doc: string, names: seq<string>, lo: nat, hi: nat)
  {
    forall k, a :: lo <= k < hi ==> !Candidate(doc, k, names, a)
  }

  /** No alternative can complete a match at any position from `lo` on. */
  ghost predicate NoCandidateFrom(doc: string, names: seq<string>, lo: nat)
  {
    forall k, a :: lo <= k ==> !Candidate(doc, k, names, a)
  }

  /**
   * The first-match rule: the earliest tag position at or after `pos` where some alternative can be
   * completed, and there the first such alternative in the order listed.
   */
  ghost predicate IsFirstMatch(doc: string, pos: nat, names: seq<string>, m: Match)
  {
    pos <= m.tagStart && IsMatchAt(doc, names, m) &&
    NoCandidateBetween(doc, names, pos, m.tagStart) && NoAlternativeBetween(doc, m.tagStart, names, 0, m.alt)
  }

  /** What `FindMatch` returns is the first match, and when it finds none there is no candidate. */
  lemma {:induction false} FindMatchFirst(doc: string, pos: nat, names: seq<string>)
    ensures FindMatch(doc, pos, names).Some? ==> IsFirstMatch(doc, pos, names, FindMatch(doc, pos, names).value)
    ensures FindMatch(doc, pos, names).None? ==> NoCandidateFrom(doc, names, pos)
    decreases |doc| - pos
  {
    if pos < |doc| {
      TryAlternativesFirst(doc, pos, names, 0);
      if TryAlternatives(doc, pos, names, 0).None? {
        FindMatchFirst(doc, pos + 1, names);
        assert forall a :: !Candidate(doc, pos, names, a);
      }
    }
  }

  /** Conversely, the first match is what `FindMatch` returns. */
  lemma FindMatchIsFirst(doc: string, pos: nat, names: seq<string>, m: Match)
    requires IsFirstMatch(doc, pos, names, m)
    ensures FindMatch(doc, pos, names) == Some(m)
  {
    FindMatchFirst(doc, pos, names);
    assert Candidate(doc, m.tagStart, names, m.alt);
    var r := FindMatch(doc, pos, names);
    assert r.Some?;
    var f := r.value;
    assert Candidate(doc, f.tagStart, names, f.alt);
  }

  /** Below the cut, the closing backticks of the cut document are those of the whole document. */
  lemma ClosingsOfPrefix(doc: string, e: nat, lo: nat, hi: nat)
    requires lo <= hi < e <= |doc|
    ensures IsClosingAt(doc[..e], hi) <==> IsClosingAt(doc, hi)
    ensures forall i :: lo <= i < hi ==> (IsClosingAt(doc[..e], i) <==> IsClosingAt(doc, i))
  {
    var cut := doc[..e];
    assert forall i :: 0 <= i < e ==> cut[i] == doc[i];
  }

  /** The candidates of a prefix of the document are candidates of the whole document. */
  lemma CandidatesOfPrefix(doc: string, e: nat, names: seq<string>)
    requires e <= |doc|
    ensures forall k, a :: Candidate(doc[..e], k, names, a) ==> Candidate(doc, k, names, a)
  {
    var cut := doc[..e];
    forall k: nat, a: nat | Candidate(cut, k, names, a) ensures Candidate(doc, k, names, a) {
      var j := k + |names[a]| + 1;
      var c := FirstClosing(cut, j).value;
      ClosingsOfPrefix(doc, e, j, c);
      assert forall i :: 0 <= i < e ==> cut[i] == doc[i];
      FirstClosingIsFirst(doc, j, c);
    }
  }

  /** A match that ends before the cut is a match of the cut document. */
  lemma MatchOfPrefix(doc: string, e: nat, names: seq<string>, m: Match)
    requires IsMatchAt(doc, names, m) && m.litEnd < e <= |doc|
    ensures IsMatchAt(doc[..e], names, m)
  {
    var cut := doc[..e];
    assert forall i :: 0 <= i < e ==> cut[i] == doc[i];
    ClosingsOfPrefix(doc, e, m.litStart, m.litEnd);
    FirstClosingIsFirst(cut, m.litStart, m.litEnd);
  }

  /** A match found in the document and ending before the cut is also the one found in the cut document. */
  lemma FindMatchOfPrefix(doc: string, e: nat, pos: nat, names: seq<string>, m: Match)
    requires FindMatch(doc, pos, names) == Some(m) && m.litEnd < e <= |doc|
    ensures FindMatch(doc[..e], pos, names) == Some(m)
  {
    FindMatchFirst(doc, pos, names);
    MatchOfPrefix(doc, e, names, m);
    CandidatesOfPrefix(doc, e, names);
    FindMatchIsFirst(doc[..e], pos, names, m);
  }

  /** Without a match in the document there is none in a prefix of it. */
  lemma FindMatchNoneOfPrefix(doc: string, e: nat, pos: nat, names: seq<string>)
    requires FindMatch(doc, pos, names).None? && e <= |doc|
    ensures FindMatch(doc[..e], pos, names).None?
  {
    var cut := doc[..e];
    FindMatchFirst(doc, pos, names);
    FindMatchFirst(cut, pos, names);
    CandidatesOfPrefix(doc, e, names);
    var r := FindMatch(cut, pos, names);
    assert r.Some? ==> Candidate(cut, r.value.tagStart, names, r.value.alt);
  }

  /**
   * Inside a literal every backtick is escaped: it is preceded by a backslash, and it is not the
   * literal's first character (whose left neighbour is the opening backtick).
   */
  lemma LiteralBackticksEscaped(doc: string, names: seq<string>, m: Match)
    requires IsMatchAt(doc, names, m)
    ensures BackticksEscaped('`', doc[m.litStart..m.litEnd])
  {
    NoClosingEscaped(doc, m.litStart, m.litEnd);
  }

  /** A stretch after a backtick with no closing backtick in it has every backtick escaped. */
  lemma NoClosingEscaped(doc: string, lo: nat, hi: nat)
    requires 0 < lo <= hi <= |doc| && doc[lo - 1] == '`'
    requires forall i :: lo <= i < hi ==> !IsClosingAt(doc, i)
    ensures BackticksEscaped('`', doc[lo..hi])
  {
    var lit := doc[lo..hi];
    forall i | 0 <= i < |lit| && lit[i] == '`'
      ensures (if i == 0 then '`' else lit[i - 1]) == '\\'
    {
      assert lit[i] == doc[lo + i] && !IsClosingAt(doc, lo + i);
      if i > 0 {
        assert lit[i - 1] == doc[lo + i - 1];
      }
    }
    assert BackticksEscaped('`', lit);
  }
}
