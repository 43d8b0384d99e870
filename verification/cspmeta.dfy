/**
 * `removeCspMeta`: blanks the value of a Content-Security-Policy meta tag by
 * one case-insensitive, leftmost, non-global substitution of
 *   ("?Content-Security-Policy"?)(\s+)(content=")([^"]+)"   by   $1$2$3$2"
 * The value is replaced by the whitespace run `$2`, not by the empty string.
 *
 * `Matches` is the language of the pattern: every way a span of the text can
 * be split into the pattern's groups.  `MatchAt` is the deterministic matcher
 * run at one position; it finds a split exactly when one exists, and there is
 * never more than one split at a given start, so the leftmost start fixes the
 * match the regex engine reports.
 */
module CspMeta {
  import opened Wrappers
  import opened Ascii
  import opened Records

  const PolicyName: string := "Content-Security-Policy"
  const ContentAttr: string := "content=\""

  /** `\s` of ECMAScript: the WhiteSpace and LineTerminator code points. */
  predicate IsWs(c: char) {
    c == '\t' || c == '\n' || c == '\U{000B}' || c == '\U{000C}' || c == '\r' || c == ' '
    || c == '\U{00A0}' || c == '\U{1680}' || ('\U{2000}' <= c <= '\U{200A}')
    || c == '\U{2028}' || c == '\U{2029}' || c == '\U{202F}' || c == '\U{205F}'
    || c == '\U{3000}' || c == '\U{FEFF}'
  }

  /** `s[a..b]` is all whitespace. */
  predicate AllWs(s: string, a: nat, b: nat) {
    a <= b <= |s| && forall k :: a <= k < b ==> IsWs(s[k])
  }

  /** `s[a..b]` holds no double quote. */
  predicate NoQuote(s: string, a: nat, b: nat) {
    a <= b <= |s| && forall k :: a <= k < b ==> s[k] != '"'
  }

  /** `s[a..b]` matches the first group `"?Content-Security-Policy"?`. */
  predicate NameSpan(s: string, a: nat, b: nat) {
    || (CiAt(s, a, PolicyName) && b == a + 23)
    || (a < |s| && s[a] == '"' && CiAt(s, a + 1, PolicyName) && b == a + 24)
    || (CiAt(s, a, PolicyName) && b == a + 24 && b <= |s| && s[a + 23] == '"')
    || (a < |s| && s[a] == '"' && CiAt(s, a + 1, PolicyName) && b == a + 25 && b <= |s| && s[a + 24] == '"')
  }

  /**
   * Group boundaries of one match: `$1` is `[start, nameEnd)`, `$2` is
   * `[nameEnd, wsEnd)`, `$3` is `[wsEnd, wsEnd + 9)`, the value is
   * `[wsEnd + 9, valueEnd)` and the closing quote sits at `valueEnd`.
   */
  datatype Match = Match(start: nat, nameEnd: nat, wsEnd: nat, valueEnd: nat) {
    function ValueStart(): nat { wsEnd + |ContentAttr| }
  }

  /** The group boundaries are in order and the closing quote is in place. */
  predicate Placed(s: string, m: Match) {
    m.start <= m.nameEnd < m.wsEnd && m.ValueStart() < m.valueEnd < |s| && s[m.valueEnd] == '"'
  }

  /** The pattern matches `s` with the group boundaries `m`. */
  predicate Matches(s: string, m: Match) {
    && Placed(s, m)
    && NameSpan(s, m.start, m.nameEnd)
    && AllWs(s, m.nameEnd, m.wsEnd)
    && CiAt(s, m.wsEnd, ContentAttr)
    && NoQuote(s, m.ValueStart(), m.valueEnd)
  }

  lemma PolicyNameFacts()
    ensures |PolicyName| == 23 && |ContentAttr| == 9
    ensures Lower(PolicyName[0]) == 'c' && Lower(PolicyName[22]) == 'y'
    ensures Lower(ContentAttr[0]) == 'c' && ContentAttr[8] == '"'
    ensures forall k :: 1 <= k < 9 ==> Lower(ContentAttr[k]) != 'c'
  {
    assert ContentAttr == ['c', 'o', 'n', 't', 'e', 'n', 't', '=', '"'];
  }

  /** The end of the whitespace run starting at `i`: `\s+` can only stop there. */
  function WsRunEnd(s: string, i: nat): (r: nat)
    requires i <= |s|
    ensures i <= r <= |s| && AllWs(s, i, r)
    ensures r == |s| || !IsWs(s[r])
    decreases |s| - i
  {
    if i < |s| && IsWs(s[i]) then WsRunEnd(s, i + 1) else i
  }

  /** The end of the run of non-quote characters starting at `i`: `[^"]+` can only stop there. */
  function QuoteFreeEnd(s: string, i: nat): (r: nat)
    requires i <= |s|
    ensures i <= r <= |s| && NoQuote(s, i, r)
    ensures r == |s| || s[r] == '"'
    decreases |s| - i
  {
    if i < |s| && s[i] != '"' then QuoteFreeEnd(s, i + 1) else i
  }

  /** The matcher run at position `p`, taking each part of the pattern the only way it can go. */
  function MatchAt(s: string, p: nat): (r: Option<Match>)
    ensures r.Some? ==> r.value.start == p && Placed(s, r.value)
  {
    assert |PolicyName| == 23 && |ContentAttr| == 9;
    var q := NameStartAt(s, p);
    if !CiAt(s, q, PolicyName) then None
    else MatchAfterName(s, p, NameEndAt(s, q))
  }

  /** `"?` before the name: the name starts after an opening quote, if there is one. */
  function NameStartAt(s: string, p: nat): nat {
    if p < |s| && s[p] == '"' then p + 1 else p
  }

  /** `"?` after the name: the first group ends after a closing quote, if there is one. */
  function NameEndAt(s: string, q: nat): nat {
    if q + 23 < |s| && s[q + 23] == '"' then q + 24 else q + 23
  }

  /** The rest of the matcher, once the first group `[p, nameEnd)` is taken. */
  function MatchAfterName(s: string, p: nat, nameEnd: nat): (r: Option<Match>)
    requires p <= nameEnd <= |s|
    ensures r.Some? ==> r.value.start == p && r.value.nameEnd == nameEnd && Placed(s, r.value)
  {
    assert |PolicyName| == 23 && |ContentAttr| == 9;
    var wsEnd := WsRunEnd(s, nameEnd);
    if wsEnd == nameEnd || !CiAt(s, wsEnd, ContentAttr) then None
    else
      var valueEnd := QuoteFreeEnd(s, wsEnd + 9);
      if valueEnd == wsEnd + 9 || valueEnd == |s| then None
      else Some(Match(p, nameEnd, wsEnd, valueEnd))
  }

  /** Whatever the matcher reports is a match of the pattern. */
  lemma MatchAtSound(s: string, p: nat)
    requires MatchAt(s, p).Some?
    ensures Matches(s, MatchAt(s, p).value)
  {
    PolicyNameFacts();
  }

  /** The first group always ends in a character that is not whitespace, and spans 23 to 25 characters. */
  lemma NameSpanBounds(s: string, a: nat, b: nat)
    requires NameSpan(s, a, b)
    ensures a + 23 <= b <= a + 25 && b <= |s| && !IsWs(s[b - 1]) && s[b - 1] != ' '
  {
    PolicyNameFacts();
    if s[b - 1] != '"' {
      var i := b - 23;
      assert CiAt(s, i, PolicyName);
      assert SameFold(s[i + 22], PolicyName[22]);
    }
  }

  /** The name starts right after an opening quote, if there is one. */
  lemma NameStart(s: string, a: nat, b: nat)
    requires NameSpan(s, a, b)
    ensures CiAt(s, NameStartAt(s, a), PolicyName) && NameStartAt(s, a) + 23 <= b <= NameStartAt(s, a) + 24
  {
    PolicyNameFacts();
    if a < |s| && s[a] == '"' {
      assert !SameFold(s[a], PolicyName[0]);
    }
  }

  /** Whenever the pattern matches, its first group ends where the matcher ends it. */
  lemma NameEndAgrees(s: string, m: Match)
    requires Matches(s, m)
    ensures CiAt(s, NameStartAt(s, m.start), PolicyName)
    ensures m.nameEnd == NameEndAt(s, NameStartAt(s, m.start))
  {
    NameStart(s, m.start, m.nameEnd);
    NameSpanBounds(s, m.start, m.nameEnd);
  }

  /** Whenever the pattern matches, `\s+` and `[^"]+` end where the matcher ends them. */
  lemma RunsAgree(s: string, m: Match)
    requires Matches(s, m)
    ensures WsRunEnd(s, m.nameEnd) == m.wsEnd
    ensures QuoteFreeEnd(s, m.ValueStart()) == m.valueEnd
  {
    PolicyNameFacts();
    assert SameFold(s[m.wsEnd], ContentAttr[0]);
  }

  /** Whenever the pattern matches at a start, the matcher finds that very match. */
  lemma MatchAtComplete(s: string, m: Match)
    requires Matches(s, m)
    ensures MatchAt(s, m.start) == Some(m)
  {
    NameEndAgrees(s, m);
    RunsAgree(s, m);
    MatchAtSteps(s, m);
  }

  /** The matcher's steps, each taken the way `m` takes it. */
  lemma MatchAtSteps(s: string, m: Match)
    requires Placed(s, m)
    requires CiAt(s, NameStartAt(s, m.start), PolicyName)
    requires m.nameEnd == NameEndAt(s, NameStartAt(s, m.start))
    requires m.nameEnd <= |s| && WsRunEnd(s, m.nameEnd) == m.wsEnd && CiAt(s, m.wsEnd, ContentAttr)
    requires QuoteFreeEnd(s, m.ValueStart()) == m.valueEnd
    ensures MatchAt(s, m.start) == Some(m)
  {
    assert |PolicyName| == 23 && |ContentAttr| == 9;
    assert MatchAt(s, m.start) == MatchAfterName(s, m.start, m.nameEnd);
    AfterNameSteps(s, m);
  }

  lemma AfterNameSteps(s: string, m: Match)
    requires Placed(s, m)
    requires m.nameEnd <= |s| && WsRunEnd(s, m.nameEnd) == m.wsEnd && CiAt(s, m.wsEnd, ContentAttr)
    requires QuoteFreeEnd(s, m.ValueStart()) == m.valueEnd
    ensures MatchAfterName(s, m.start, m.nameEnd) == Some(m)
  {
    assert |PolicyName| == 23 && |ContentAttr| == 9;
    assert m.ValueStart() == m.wsEnd + 9;
  }

  /** There is at most one match at any start. */
  lemma MatchUnique(s: string, m1: Match, m2: Match)
    requires Matches(s, m1) && Matches(s, m2) && m1.start == m2.start
    ensures m1 == m2
  {
    MatchAtComplete(s, m1);
    MatchAtComplete(s, m2);
  }

  /** The first position in `[from, last]` that satisfies `at`. */
  function FirstWhere(at: nat -> bool, from: nat, last: nat): (r: Option<nat>)
    decreases last + 1 - from
  {
    if last < from then None
    else if at(from) then Some(from)
    else FirstWhere(at, from + 1, last)
  }

  /** `FirstWhere` finds a position satisfying `at` with none before it, or reports that there is none. */
  lemma {:induction false} FirstWhereSpec(at: nat -> bool, from: nat, last: nat)
    ensures var r := FirstWhere(at, from, last);
            && (r.Some? ==> from <= r.value <= last && at(r.value))
            && (r.Some? ==> forall q :: from <= q < r.value ==> !at(q))
            && (r.None? ==> forall q :: from <= q <= last ==> !at(q))
    decreases last + 1 - from
  {
    if from <= last && !at(from) {
      FirstWhereSpec(at, from + 1, last);
    }
  }

  /** The leftmost match at or after `from`: the matcher tried at each position in turn. */
  function FindFirst(s: string, from: nat): (r: Option<Match>)
    ensures r.Some? ==> from <= r.value.start && Placed(s, r.value)
  {
    var at := (q: nat) => MatchAt(s, q).Some?;
    FirstWhereSpec(at, from, |s|);
    var found := FirstWhere(at, from, |s|);
    if found.Some? then MatchAt(s, found.value) else None
  }

  /** The search reports the first position, from `from` on, where the matcher succeeds. */
  lemma FindFirstSpec(s: string, from: nat)
    ensures var r := FindFirst(s, from);
            && (r.Some? ==> MatchAt(s, r.value.start) == r)
            && (r.Some? ==> forall q :: from <= q < r.value.start ==> MatchAt(s, q).None?)
            && (r.None? ==> forall q :: from <= q <= |s| ==> MatchAt(s, q).None?)
  {
    var at := (q: nat) => MatchAt(s, q).Some?;
    FirstWhereSpec(at, from, |s|);
    var p := FirstWhere(at, from, |s|);
    if p.Some? {
      forall q | from <= q < p.value ensures MatchAt(s, q).None? {
        assert !at(q);
      }
    } else {
      forall q | from <= q <= |s| ensures MatchAt(s, q).None? {
        assert !at(q);
      }
    }
  }

  /** What the search returns is a match of the pattern. */
  lemma FindFirstSound(s: string)
    requires FindFirst(s, 0).Some?
    ensures Matches(s, FindFirst(s, 0).value)
  {
    FindFirstSpec(s, 0);
    MatchAtSound(s, FindFirst(s, 0).value.start);
  }

  /** `m` is a match and no match starts before it: the one the regex engine reports. */
  ghost predicate Leftmost(s: string, m: Match) {
    Matches(s, m) && forall m' :: Matches(s, m') ==> m.start <= m'.start
  }

  /** The regex search: no match at all, or the match with the smallest start. */
  lemma FindFirstLeftmost(s: string)
    ensures FindFirst(s, 0).None? <==> forall m :: !Matches(s, m)
    ensures FindFirst(s, 0).Some? ==> Leftmost(s, FindFirst(s, 0).value)
  {
    FindFirstSpec(s, 0);
    if FindFirst(s, 0).Some? {
      FindFirstSound(s);
    }
    forall m | Matches(s, m) ensures FindFirst(s, 0).Some? && FindFirst(s, 0).value.start <= m.start {
      MatchAtComplete(s, m);
      NameSpanBounds(s, m.start, m.nameEnd);
    }
  }

  /** The search returns exactly the leftmost match. */
  lemma FindFirstIsLeftmost(s: string, m: Match)
    ensures FindFirst(s, 0) == Some(m) <==> Leftmost(s, m)
  {
    FindFirstLeftmost(s);
    if Leftmost(s, m) {
      var f := FindFirst(s, 0).value;
      assert f.start == m.start;
      MatchUnique(s, f, m);
    }
  }

  /** The text with the span of `m` replaced by `$1$2$3$2"`. */
  function Substitute(s: string, m: Match): (t: string)
    requires Placed(s, m)
  {
    s[..m.start] + s[m.start..m.nameEnd] + s[m.nameEnd..m.wsEnd] + s[m.wsEnd..m.ValueStart()]
    + s[m.nameEnd..m.wsEnd] + "\"" + s[m.valueEnd + 1..]
  }

  /** `input.replace(regex, '$1$2$3$2"')`: only the leftmost match is replaced. */
  function Rewrite(s: string): (r: string)
  {
    match FindFirst(s, 0)
    case None => s
    case Some(m) => Substitute(s, m)
  }

  /** The text with the value of `m` replaced by its whitespace run. */
  function Splice(s: string, m: Match): (t: string)
    requires Placed(s, m)
  {
    s[..m.ValueStart()] + s[m.nameEnd..m.wsEnd] + s[m.valueEnd..]
  }

  lemma SplitAt(s: string, a: nat, b: nat, c: nat, d: nat)
    requires a <= b <= c <= d <= |s|
    ensures s[..a] + s[a..b] + s[b..c] + s[c..d] == s[..d]
  {
  }

  lemma QuoteThenRest(s: string, i: nat)
    requires i < |s| && s[i] == '"'
    ensures "\"" + s[i + 1..] == s[i..]
  {
  }

  /** The substitution keeps everything up to the value, puts the whitespace run in its place, and keeps the rest. */
  lemma SubstituteIsSplice(s: string, m: Match)
    requires Placed(s, m)
    ensures Substitute(s, m) == Splice(s, m)
  {
    SplitAt(s, m.start, m.nameEnd, m.wsEnd, m.ValueStart());
    QuoteThenRest(s, m.valueEnd);
  }

  /** The rewrite splices the whitespace run over the value of the leftmost match. */
  lemma RewriteShape(s: string)
    requires FindFirst(s, 0).Some?
    ensures Placed(s, FindFirst(s, 0).value)
    ensures Rewrite(s) == Splice(s, FindFirst(s, 0).value)
  {
    SubstituteIsSplice(s, FindFirst(s, 0).value);
  }

  lemma CiAtLocal(x: string, y: string, i: nat, lit: string)
    requires CiAt(x, i, lit) && i + |lit| <= |y|
    requires forall k :: i <= k < i + |lit| ==> x[k] == y[k]
    ensures CiAt(y, i, lit)
  {
    forall k | 0 <= k < |lit| ensures SameFold(y[i + k], lit[k]) {
      assert x[i + k] == y[i + k];
    }
  }

  lemma NameSpanLocal(x: string, y: string, a: nat, b: nat)
    requires NameSpan(x, a, b) && b <= |y|
    requires forall k :: a <= k < b ==> x[k] == y[k]
    ensures NameSpan(y, a, b)
  {
    var q := NameStartAt(x, a);
    NameStart(x, a, b);
    PolicyNameFacts();
    assert x[a] == y[a] && x[b - 1] == y[b - 1];
    CiAtLocal(x, y, q, PolicyName);
  }

  /** A match reads nothing outside its own span, so a text that agrees on the span matches too. */
  lemma MatchesLocal(x: string, y: string, m: Match)
    requires Matches(x, m)
    requires m.valueEnd < |y|
    requires forall k :: m.start <= k <= m.valueEnd ==> x[k] == y[k]
    ensures Matches(y, m)
  {
    NameSpanBounds(x, m.start, m.nameEnd);
    PolicyNameFacts();
    CiAtLocal(x, y, m.wsEnd, ContentAttr);
    NameSpanLocal(x, y, m.start, m.nameEnd);
  }

  /** The spliced text, position by position. */
  lemma SpliceFacts(s: string, m: Match, t: string)
    requires Placed(s, m) && t == Splice(s, m)
    ensures var v := m.ValueStart();
            var c := v + (m.wsEnd - m.nameEnd);
            && |t| == c + (|s| - m.valueEnd)
            && (forall k :: 0 <= k < v ==> t[k] == s[k])
            && (forall k :: v <= k < c ==> t[k] == s[k - v + m.nameEnd])
            && (forall k :: c <= k < |t| ==> t[k] == s[k - c + m.valueEnd])
  {
  }

  /** In the spliced text the tag still matches, its value now the whitespace run. */
  lemma SpliceMatchesAgain(s: string, m: Match, t: string)
    requires Matches(s, m) && t == Splice(s, m)
    ensures var c := m.ValueStart() + (m.wsEnd - m.nameEnd);
            Matches(t, Match(m.start, m.nameEnd, m.wsEnd, c))
            && AllWs(t, m.ValueStart(), c)
  {
    var v := m.ValueStart();
    var c := v + (m.wsEnd - m.nameEnd);
    SpliceFacts(s, m, t);
    SpliceKeepsTag(s, m, t);
    assert t[c] == s[m.valueEnd];
    forall k | v <= k < c ensures IsWs(t[k]) {
      assert t[k] == s[k - v + m.nameEnd];
    }
  }

  /** The spliced text keeps the tag name, the whitespace run and `content="` of `m`. */
  lemma SpliceKeepsTag(s: string, m: Match, t: string)
    requires Matches(s, m) && t == Splice(s, m)
    ensures NameSpan(t, m.start, m.nameEnd) && AllWs(t, m.nameEnd, m.wsEnd) && CiAt(t, m.wsEnd, ContentAttr)
  {
    SpliceFacts(s, m, t);
    NameSpanBounds(s, m.start, m.nameEnd);
    PolicyNameFacts();
    NameSpanLocal(s, t, m.start, m.nameEnd);
    CiAtLocal(s, t, m.wsEnd, ContentAttr);
  }

  /**
   * No match of the spliced text starts before the old one: a match that
   * did would either lie wholly in the unchanged prefix, and so have been a
   * match of `s`, or have to use a character of the spliced region in a
   * place where the pattern cannot take it.
   */
  lemma NoEarlierMatch(s: string, m: Match, t: string, m2: Match)
    requires Leftmost(s, m) && t == Splice(s, m)
    requires Matches(t, m2)
    ensures m.start <= m2.start
  {
    var v := m.ValueStart();
    SpliceFacts(s, m, t);
    NameSpanBounds(s, m.start, m.nameEnd);
    NameSpanBounds(t, m2.start, m2.nameEnd);
    PolicyNameFacts();
    if m2.start < m.start {
      if m2.valueEnd < v {
        MatchesLocal(t, s, m2);
      } else if m2.ValueStart() >= v {
        if m2.wsEnd == m.wsEnd {
          SameRunSameName(s, m, t, m2);
        } else {
          ContentAttrNotLater(s, m, t, m2);
        }
      }
      assert false;
    }
  }

  /** A whitespace run ending at `content="` has one start: the tag name cannot end inside it. */
  lemma NameEndsMeet(s: string, m: Match, t: string, m2: Match)
    requires Matches(s, m) && t == Splice(s, m)
    requires Matches(t, m2) && m2.wsEnd == m.wsEnd
    ensures m2.nameEnd == m.nameEnd
  {
    SpliceFacts(s, m, t);
    NameSpanBounds(s, m.start, m.nameEnd);
    NameSpanBounds(t, m2.start, m2.nameEnd);
  }

  /** Case of `NoEarlierMatch`: both `content="` at the same place means the same tag name. */
  lemma SameRunSameName(s: string, m: Match, t: string, m2: Match)
    requires Leftmost(s, m) && t == Splice(s, m)
    requires Matches(t, m2) && m2.wsEnd == m.wsEnd
    ensures m.start <= m2.start
  {
    NameEndsMeet(s, m, t, m2);
    SpliceFacts(s, m, t);
    NameSpanLocal(t, s, m2.start, m2.nameEnd);
    assert Matches(s, Match(m2.start, m.nameEnd, m.wsEnd, m.valueEnd));
  }

  /** Case of `NoEarlierMatch`: an earlier match cannot have its `content="` further right. */
  lemma ContentAttrNotLater(s: string, m: Match, t: string, m2: Match)
    requires Matches(s, m) && t == Splice(s, m)
    requires Matches(t, m2) && m2.start < m.start
    ensures m2.wsEnd <= m.wsEnd
  {
    var x := m2.wsEnd;
    SpliceFacts(s, m, t);
    NameSpanBounds(s, m.start, m.nameEnd);
    NameSpanBounds(t, m2.start, m2.nameEnd);
    PolicyNameFacts();
    assert SameFold(t[x], ContentAttr[0]);
  }

  /**
   * After the rewrite the same tag is still the first match, now with the
   * whitespace run `$2` as its value.
   */
  lemma RewriteResult(s: string, m: Match)
    requires FindFirst(s, 0) == Some(m)
    ensures var c := m.ValueStart() + (m.wsEnd - m.nameEnd);
            && FindFirst(Rewrite(s), 0) == Some(Match(m.start, m.nameEnd, m.wsEnd, c))
            && AllWs(Rewrite(s), m.ValueStart(), c)
  {
    RewriteShape(s);
    FindFirstIsLeftmost(s, m);
    var t := Splice(s, m);
    var m2 := Match(m.start, m.nameEnd, m.wsEnd, m.ValueStart() + (m.wsEnd - m.nameEnd));
    SpliceMatchesAgain(s, m, t);
    forall m' | Matches(t, m') ensures m2.start <= m'.start {
      NoEarlierMatch(s, m, t, m');
    }
    FindFirstIsLeftmost(t, m2);
  }

  /** Splicing the spliced run back over itself changes nothing. */
  lemma SpliceAgain(s: string, m: Match, t: string, m2: Match)
    requires Placed(s, m) && t == Splice(s, m)
    requires m2 == Match(m.start, m.nameEnd, m.wsEnd, m.ValueStart() + (m.wsEnd - m.nameEnd))
    requires Placed(t, m2)
    ensures Splice(t, m2) == t
  {
    var v := m.ValueStart();
    var c := m2.valueEnd;
    assert t[m.nameEnd..m.wsEnd] == s[m.nameEnd..m.wsEnd];
    assert t[v..c] == s[m.nameEnd..m.wsEnd];
    assert t[..v] + t[v..c] + t[c..] == t;
  }

  /** Neutralising twice is neutralising once. */
  lemma RewriteIdempotent(s: string)
    ensures Rewrite(Rewrite(s)) == Rewrite(s)
  {
    if FindFirst(s, 0).Some? {
      var m := FindFirst(s, 0).value;
      RewriteResult(s, m);
      RewriteShape(s);
      var t := Rewrite(s);
      RewriteShape(t);
      SpliceAgain(s, m, t, FindFirst(t, 0).value);
    }
  }

  /** Without a match anywhere, the text is returned as it was. */
  lemma RewriteNoMatch(s: string)
    requires forall m :: !Matches(s, m)
    ensures Rewrite(s) == s
  {
    FindFirstLeftmost(s);
  }

  /**
   * With a match, only the leftmost one is rewritten: the text up to its
   * value (everything before the match and `$1$2$3`) and the text from its
   * closing quote on are kept, and the value becomes the whitespace run `$2`.
   */
  lemma RewriteLeftmost(s: string, m: Match)
    requires Leftmost(s, m)
    ensures Rewrite(s) == s[..m.ValueStart()] + s[m.nameEnd..m.wsEnd] + s[m.valueEnd..]
  {
    FindFirstIsLeftmost(s, m);
    RewriteShape(s);
  }

  /** The pattern needs at least one value character: `content=""` is never matched. */
  lemma EmptyValueNeverMatches(s: string, m: Match)
    requires m.ValueStart() < |s| && s[m.ValueStart()] == '"'
    ensures !Matches(s, m)
  {
  }

  /** Two texts that differ only in the case of ASCII letters. */
  predicate FoldEq(x: string, y: string) {
    |x| == |y| && forall k :: 0 <= k < |x| ==> SameFold(x[k], y[k])
  }

  lemma FoldChar(a: char, b: char)
    requires SameFold(a, b)
    ensures IsWs(a) <==> IsWs(b)
    ensures a == '"' <==> b == '"'
  {
    SameFoldCases(a, b);
  }

  /** Matching ignores the case of letters: texts equal up to ASCII case match at the same places. */
  lemma MatchesIgnoreCase(x: string, y: string, m: Match)
    requires FoldEq(x, y)
    ensures Matches(x, m) <==> Matches(y, m)
  {
    forall k | 0 <= k < |x| ensures (IsWs(x[k]) <==> IsWs(y[k])) && (x[k] == '"' <==> y[k] == '"') {
      FoldChar(x[k], y[k]);
    }
  }

  // ----------------------------------------------------------------------
  // The stage.
  // ----------------------------------------------------------------------

  datatype ErrorCode = EBADINPUT

  /** What the stage hands back for one record: the record, and the error it reports, if any. */
  datatype Outcome = Outcome(record: Vinyl, error: Option<ErrorCode>)

  /**
   * `removeCspMeta`'s transform for one record.  Missing or empty contents
   * report `EBADINPUT` and pass the record back untouched.
   */
  function RemoveCspMeta(v: Vinyl): (r: Outcome)
    ensures r.error.Some? <==> v.contents.None? || v.contents.value == ""
    ensures r.error.Some? ==> r.error.value == EBADINPUT && r.record == v
    ensures r.error.None? ==> r.record.path == v.path && r.record.contents == Some(Rewrite(v.contents.value))
  {
    match v.contents
    case Some(input) =>
      if input != "" then Outcome(v.(contents := Some(Rewrite(input))), None)
      else Outcome(v, Some(EBADINPUT))
    case None => Outcome(v, Some(EBADINPUT))
  }

  /** Rewriting never empties a non-empty text. */
  lemma RewriteNonEmpty(s: string)
    requires s != ""
    ensures Rewrite(s) != ""
  {
    if FindFirst(s, 0).Some? {
      RewriteShape(s);
      SpliceFacts(s, FindFirst(s, 0).value, Rewrite(s));
    }
  }

  /**
   * The stage is idempotent: a record it accepted passes through it a second
   * time without error and without change.
   */
  lemma RemoveCspMetaIdempotent(v: Vinyl)
    requires RemoveCspMeta(v).error.None?
    ensures RemoveCspMeta(RemoveCspMeta(v).record) == RemoveCspMeta(v)
  {
    RewriteNonEmpty(v.contents.value);
    RewriteIdempotent(v.contents.value);
  }

  /**
   * After the stage the first CSP meta declaration, if there is one, has a
   * value made only of whitespace: trimmed, it is empty.
   */
  lemma RemoveCspMetaBlanksValue(v: Vinyl)
    requires RemoveCspMeta(v).error.None?
    requires exists m :: Matches(v.contents.value, m)
    ensures var out := RemoveCspMeta(v).record.contents.value;
            FindFirst(out, 0).Some?
            && AllWs(out, FindFirst(out, 0).value.ValueStart(), FindFirst(out, 0).value.valueEnd)
  {
    var s := v.contents.value;
    FindFirstLeftmost(s);
    RewriteResult(s, FindFirst(s, 0).value);
  }
}
