/** The srcset splitter: the global, multi-line regular expression
    `\s*([^,\s]+).*?(?:,|$)\s*` run repeatedly with `exec` over an attribute value,
    and the spans it yields, one per comma-separated candidate. */
module Srcset {
  import opened Js
  import opened Text
  import opened Ast

  /** `[^,\s]`: a character of a candidate's URL token. */
  predicate IsTokenChar(c: char) {
    c != ',' && !IsSpace(c)
  }

  /** Greedy `\s*` from `i`. */
  function SkipSpace(s: string, i: nat): (j: nat)
    requires i <= |s|
    ensures i <= j <= |s|
    ensures forall k :: i <= k < j ==> IsSpace(s[k])
    ensures j < |s| ==> !IsSpace(s[j])
    decreases |s| - i
  {
    if i < |s| && IsSpace(s[i]) then SkipSpace(s, i + 1) else i
  }

  /** Greedy `[^,\s]+` from `i` (zero characters when it cannot start). */
  function SkipToken(s: string, i: nat): (j: nat)
    requires i <= |s|
    ensures i <= j <= |s|
    ensures forall k :: i <= k < j ==> IsTokenChar(s[k])
    ensures j < |s| ==> !IsTokenChar(s[j])
    decreases |s| - i
  {
    if i < |s| && IsTokenChar(s[i]) then SkipToken(s, i + 1) else i
  }

  /** Lazy `.*?` followed by `(?:,|$)` under the `m` flag: `.` does not cross a line
      terminator and `$` matches at one, so the descriptor ends at the first comma,
      line terminator or end of the text. */
  function CandidateEnd(s: string, i: nat): (j: nat)
    requires i <= |s|
    ensures i <= j <= |s|
    ensures forall k :: i <= k < j ==> s[k] != ',' && !IsLineTerminator(s[k])
    ensures j < |s| ==> s[j] == ',' || IsLineTerminator(s[j])
    decreases |s| - i
  {
    if i < |s| && s[i] != ',' && !IsLineTerminator(s[i]) then CandidateEnd(s, i + 1) else i
  }

  /** One successful `exec`: `index` is where the whole match starts, the URL token
      (capture group 1) is `[tokenStart, tokenEnd)`, and `lastIndex` is where the match ends. */
  datatype Match = Match(index: nat, tokenStart: nat, tokenEnd: nat, lastIndex: nat)

  /** The shape every match has: leading white space, then a non-empty maximal token,
      all inside the text. */
  predicate MatchOk(s: string, m: Match) {
    && m.index <= m.tokenStart < m.tokenEnd <= m.lastIndex <= |s|
    && (forall k :: m.index <= k < m.tokenStart ==> IsSpace(s[k]))
    && (forall k :: m.tokenStart <= k < m.tokenEnd ==> IsTokenChar(s[k]))
    && (m.tokenEnd < |s| ==> !IsTokenChar(s[m.tokenEnd]))
  }

  /** The match that starts exactly at `q`, if any. Backtracking never changes the outcome:
      the token cannot start on white space, and the rest of the pattern cannot fail. */
  function MatchAt(s: string, q: nat): (r: Option<Match>)
    requires q <= |s|
    ensures r.Some? ==> r.value.index == q && MatchOk(s, r.value)
    ensures r.None? <==> SkipSpace(s, q) == |s| || s[SkipSpace(s, q)] == ','
  {
    var w := SkipSpace(s, q);
    if w < |s| && IsTokenChar(s[w]) then
      var t := SkipToken(s, w);
      var c := CandidateEnd(s, t);
      Some(Match(q, w, t, SkipSpace(s, if c < |s| && s[c] == ',' then c + 1 else c)))
    else None
  }

  /** `regex.exec(s)` with `regex.lastIndex == p`: the leftmost match starting at or after `p`. */
  function Exec(s: string, p: nat): (r: Option<Match>)
    requires p <= |s|
    ensures r.Some? ==> p <= r.value.index && MatchOk(s, r.value) && MatchAt(s, r.value.index) == r
    ensures r.Some? ==> forall q :: p <= q < r.value.index ==> MatchAt(s, q).None?
    ensures r.None? ==> forall q :: p <= q <= |s| ==> MatchAt(s, q).None?
    decreases |s| - p
  {
    match MatchAt(s, p)
    case Some(m) => Some(m)
    case None => if p == |s| then None else Exec(s, p + 1)
  }

  /** `r` is a chain of matches read from `p` on: each well shaped, consuming past its
      token unless it reaches the end, and starting at or after the end of the one before. */
  predicate Ordered(s: string, p: nat, r: seq<Match>)
    decreases |r|
  {
    || r == []
    || (&& MatchOk(s, r[0]) && p <= r[0].index
        && (r[0].lastIndex < |s| ==> r[0].tokenEnd < r[0].lastIndex)
        && Ordered(s, r[0].lastIndex, r[1..]))
  }

  /** Every match the `while (match = regex.exec(s))` loop sees, starting from `lastIndex == p`. */
  function Matches(s: string, p: nat): (r: seq<Match>)
    requires p <= |s|
    ensures Ordered(s, p, r)
    decreases |s| - p
  {
    match Exec(s, p)
    case None => []
    case Some(m) =>
      MatchAtConsumes(s, m.index);
      [m] + Matches(s, m.lastIndex)
  }

  /** A match that stops before the end of the text consumes at least one character
      after its token: a comma, or a line terminator, which `\s*` takes. */
  lemma MatchAtConsumes(s: string, q: nat)
    requires q <= |s| && MatchAt(s, q).Some?
    ensures var m := MatchAt(s, q).value; m.lastIndex < |s| ==> m.tokenEnd < m.lastIndex
  {
  }

  /** A chain of matches is well shaped, starts at or after `p`, runs left to right and
      never overlaps. */
  lemma OrderedShape(s: string, p: nat, r: seq<Match>)
    requires Ordered(s, p, r)
    ensures forall k :: 0 <= k < |r| ==> MatchOk(s, r[k]) && p <= r[k].index
    ensures forall k :: 0 <= k < |r| - 1 ==> r[k].lastIndex <= r[k + 1].index && r[k].tokenEnd < r[k + 1].index
  {
    OrderedMatches(s, p, r);
    OrderedLinks(s, p, r);
  }

  lemma {:induction false} OrderedMatches(s: string, p: nat, r: seq<Match>)
    requires Ordered(s, p, r)
    ensures forall k :: 0 <= k < |r| ==> MatchOk(s, r[k]) && p <= r[k].index
    decreases |r|
  {
    if r != [] {
      var rest := r[1..];
      OrderedMatches(s, r[0].lastIndex, rest);
      assert forall k :: 0 < k < |r| ==> r[k] == rest[k - 1];
    }
  }

  lemma {:induction false} OrderedLinks(s: string, p: nat, r: seq<Match>)
    requires Ordered(s, p, r)
    ensures forall k :: 0 <= k < |r| - 1 ==> r[k].lastIndex <= r[k + 1].index && r[k].tokenEnd < r[k + 1].index
    decreases |r|
  {
    if r != [] {
      var rest := r[1..];
      OrderedLinks(s, r[0].lastIndex, rest);
      assert forall k :: 0 < k < |r| ==> r[k] == rest[k - 1];
      if rest != [] {
        SeparatedHead(s, r[0], rest[0]);
      }
    }
  }

  /** A match that consumes past its token, followed by another match: the second one
      starts after the first token. */
  lemma SeparatedHead(s: string, m: Match, n: Match)
    requires MatchOk(s, n) && m.lastIndex <= n.index
    requires m.lastIndex < |s| ==> m.tokenEnd < m.lastIndex
    ensures m.tokenEnd < n.index
  {
  }

  /** The span the source hands to the registry for a match: it starts at the start of the
      WHOLE match, leading white space included, and is as long as the token. */
  function AsWrittenSpan(raw: string, base: nat, m: Match): Span {
    var token := Slice(raw, m.tokenStart, m.tokenEnd);
    Span(token, base + m.index, base + m.index + |token|)
  }

  /** The span of the token itself. */
  function TokenSpan(raw: string, base: nat, m: Match): Span {
    Span(Slice(raw, m.tokenStart, m.tokenEnd), base + m.tokenStart, base + m.tokenEnd)
  }

  function AsWrittenSpans(raw: string, base: nat, ms: seq<Match>): (r: seq<Span>)
    ensures |r| == |ms| && forall k :: 0 <= k < |ms| ==> r[k] == AsWrittenSpan(raw, base, ms[k])
  {
    if ms == [] then [] else [AsWrittenSpan(raw, base, ms[0])] + AsWrittenSpans(raw, base, ms[1..])
  }

  /** The as-written spans of a match chain, one match at a time. */
  lemma {:induction false} AsWrittenSpansCons(raw: string, base: nat, m: Match, rest: seq<Match>)
    ensures AsWrittenSpans(raw, base, [m] + rest) == [AsWrittenSpan(raw, base, m)] + AsWrittenSpans(raw, base, rest)
  {
    assert ([m] + rest)[1..] == rest;
  }

  function TokenSpans(raw: string, base: nat, ms: seq<Match>): (r: seq<Span>)
    ensures |r| == |ms| && forall k :: 0 <= k < |ms| ==> r[k] == TokenSpan(raw, base, ms[k])
  {
    if ms == [] then [] else [TokenSpan(raw, base, ms[0])] + TokenSpans(raw, base, ms[1..])
  }

  /** The spans of a match chain, one match at a time. */
  lemma {:induction false} TokenSpansCons(raw: string, base: nat, m: Match, rest: seq<Match>)
    ensures TokenSpans(raw, base, [m] + rest) == [TokenSpan(raw, base, m)] + TokenSpans(raw, base, rest)
  {
    assert ([m] + rest)[1..] == rest;
  }

  /** The candidates of the srcset value `raw` that starts at offset `base`, as the source computes them. */
  function SrcsetSpansAsWritten(raw: string, base: nat): seq<Span> {
    AsWrittenSpans(raw, base, Matches(raw, 0))
  }

  /** The candidates of the srcset value `raw` that starts at offset `base`, each span covering its URL token. */
  function SrcsetSpans(raw: string, base: nat): seq<Span> {
    TokenSpans(raw, base, Matches(raw, 0))
  }

  /** A token span holds a non-empty URL token free of commas and white space, lies
      inside the value and covers exactly its token in the source text. */
  lemma TokenSpanSound(content: string, raw: string, base: nat, m: Match)
    requires base + |raw| <= |content| && content[base..base + |raw|] == raw
    requires MatchOk(raw, m)
    ensures var sp := TokenSpan(raw, base, m);
      && |sp.raw| > 0
      && (forall c :: 0 <= c < |sp.raw| ==> IsTokenChar(sp.raw[c]))
      && base <= sp.start && sp.end <= base + |raw|
      && sp.end - sp.start == |sp.raw|
      && content[sp.start..sp.end] == sp.raw
  {
    var sp := TokenSpan(raw, base, m);
    assert forall c :: 0 <= c < |sp.raw| ==> sp.raw[c] == raw[m.tokenStart + c];
    assert content[base + m.tokenStart..base + m.tokenEnd] == raw[m.tokenStart..m.tokenEnd];
  }

  /** Each candidate span is sound (see TokenSpanSound), and each follows the previous one
      with at least one character (a comma, white space or a descriptor) in between. */
  lemma SrcsetSpansSound(content: string, raw: string, base: nat)
    requires base + |raw| <= |content| && content[base..base + |raw|] == raw
    ensures var sp := SrcsetSpans(raw, base);
      && (forall k :: 0 <= k < |sp| ==>
            && |sp[k].raw| > 0
            && (forall c :: 0 <= c < |sp[k].raw| ==> IsTokenChar(sp[k].raw[c]))
            && base <= sp[k].start && sp[k].end <= base + |raw|
            && sp[k].end - sp[k].start == |sp[k].raw|
            && content[sp[k].start..sp[k].end] == sp[k].raw)
      && (forall k :: 0 <= k < |sp| - 1 ==> sp[k].end < sp[k + 1].start)
  {
    var ms := Matches(raw, 0);
    OrderedShape(raw, 0, ms);
    var sp := SrcsetSpans(raw, base);
    forall k | 0 <= k < |sp|
      ensures && |sp[k].raw| > 0
              && (forall c :: 0 <= c < |sp[k].raw| ==> IsTokenChar(sp[k].raw[c]))
              && base <= sp[k].start && sp[k].end <= base + |raw|
              && sp[k].end - sp[k].start == |sp[k].raw|
              && content[sp[k].start..sp[k].end] == sp[k].raw
    {
      TokenSpanSound(content, raw, base, ms[k]);
    }
    forall k | 0 <= k < |sp| - 1
      ensures sp[k].end < sp[k + 1].start
    {
      SeparatedTokens(raw, ms[k], ms[k + 1]);
    }
  }

  /** A match ends its token on a non-token character, so the next token starts later. */
  lemma SeparatedTokens(raw: string, m: Match, n: Match)
    requires MatchOk(raw, m) && MatchOk(raw, n) && m.lastIndex <= n.index
    ensures m.tokenEnd < n.tokenStart
  {
  }

  /** The spans the source computes hold a non-empty URL token free of commas and white
      space, are as long as their tokens, lie inside the value, and follow one another
      left to right with at least one character in between. Each starts where its match
      starts and ends no later than its token, so in the text it covers only white space
      and token characters: never a comma and never a descriptor. */
  lemma SrcsetSpansAsWrittenShape(content: string, raw: string, base: nat)
    requires base + |raw| <= |content| && content[base..base + |raw|] == raw
    ensures var sp := SrcsetSpansAsWritten(raw, base);
      && (forall k :: 0 <= k < |sp| ==>
            && |sp[k].raw| > 0
            && (forall c :: 0 <= c < |sp[k].raw| ==> IsTokenChar(sp[k].raw[c]))
            && base <= sp[k].start && sp[k].end <= base + |raw|
            && sp[k].end - sp[k].start == |sp[k].raw|)
      && (forall k :: 0 <= k < |sp| - 1 ==> sp[k].end < sp[k + 1].start)
    ensures var sp, ms := SrcsetSpansAsWritten(raw, base), Matches(raw, 0);
      forall k :: 0 <= k < |sp| ==> sp[k].start == base + ms[k].index && sp[k].end <= base + ms[k].tokenEnd
    ensures var sp := SrcsetSpansAsWritten(raw, base);
      forall k, c :: 0 <= k < |sp| && sp[k].start <= c < sp[k].end ==>
        content[c] != ',' && (IsSpace(content[c]) || IsTokenChar(content[c]))
  {
    var ms := Matches(raw, 0);
    OrderedShape(raw, 0, ms);
    var sp := SrcsetSpansAsWritten(raw, base);
    forall k | 0 <= k < |sp|
      ensures && |sp[k].raw| > 0
              && (forall c :: 0 <= c < |sp[k].raw| ==> IsTokenChar(sp[k].raw[c]))
              && base <= sp[k].start && sp[k].end <= base + |raw|
              && sp[k].end - sp[k].start == |sp[k].raw|
      ensures sp[k].start == base + ms[k].index && sp[k].end <= base + ms[k].tokenEnd
      ensures forall c :: sp[k].start <= c < sp[k].end ==>
        content[c] != ',' && (IsSpace(content[c]) || IsTokenChar(content[c]))
    {
      AsWrittenSpanShape(raw, base, ms[k]);
      AsWrittenSpanCovers(content, raw, base, ms[k]);
    }
    forall k | 0 <= k < |sp| - 1
      ensures sp[k].end < sp[k + 1].start
    {
      assert ms[k].tokenEnd < ms[k + 1].index;
    }
  }

  /** One as-written span starts at its match, ends no later than its token, and holds
      the token's characters. */
  lemma AsWrittenSpanShape(raw: string, base: nat, m: Match)
    requires MatchOk(raw, m)
    ensures var sp := AsWrittenSpan(raw, base, m);
      && |sp.raw| == m.tokenEnd - m.tokenStart > 0
      && (forall c :: 0 <= c < |sp.raw| ==> IsTokenChar(sp.raw[c]))
      && sp.start == base + m.index
      && sp.end <= base + m.tokenEnd <= base + |raw|
      && sp.end - sp.start == |sp.raw|
  {
    var sp := AsWrittenSpan(raw, base, m);
    assert forall c :: 0 <= c < |sp.raw| ==> sp.raw[c] == raw[m.tokenStart + c];
  }

  /** The text one as-written span covers lies between the match's start and its token's
      end: leading white space and token characters only. */
  lemma AsWrittenSpanCovers(content: string, raw: string, base: nat, m: Match)
    requires base + |raw| <= |content| && content[base..base + |raw|] == raw
    requires MatchOk(raw, m)
    ensures var sp := AsWrittenSpan(raw, base, m);
      forall c :: sp.start <= c < sp.end ==>
        content[c] != ',' && (IsSpace(content[c]) || IsTokenChar(content[c]))
  {
    var sp := AsWrittenSpan(raw, base, m);
    AsWrittenSpanShape(raw, base, m);
    forall c | sp.start <= c < sp.end
      ensures content[c] != ',' && (IsSpace(content[c]) || IsTokenChar(content[c]))
    {
      assert content[c] == content[base..base + |raw|][c - base] == raw[c - base];
    }
  }

  /** A srcset value written with leading white space: the source registers the token
      `a.png` but overwrites the range that starts at the space, so the overwrite leaves
      the token's last character behind and replaces the space. */
  lemma AsWrittenMisplacesLeadingToken()
    ensures Matches(" a.png", 0) == [Match(0, 1, 6, 6)]
    ensures var sp := SrcsetSpansAsWritten(" a.png", 0);
      && |sp| == 1 && sp[0] == Span("a.png", 0, 5)
      && " a.png"[sp[0].start..sp[0].end] == " a.pn" != sp[0].raw
  {
    var s := " a.png";
    assert SkipSpace(s, 1) == 1;
    assert SkipSpace(s, 0) == 1;
    assert SkipToken(s, 6) == 6;
    assert SkipToken(s, 1) == 6;
    assert CandidateEnd(s, 6) == 6;
    assert SkipSpace(s, 6) == 6;
    assert MatchAt(s, 0) == Some(Match(0, 1, 6, 6));
    assert Exec(s, 0) == Some(Match(0, 1, 6, 6));
    assert MatchAt(s, 6).None?;
    assert Exec(s, 6) == None;
    assert Matches(s, 6) == [];
    assert Matches(s, 0) == [Match(0, 1, 6, 6)];
    assert s[1..6] == "a.png";
  }

  /** A value with two candidates, `./a.png 1x, ./b.png 2x`: two matches whose tokens are
      `[0, 7)` and `[12, 19)`, so the descriptors and the comma stay outside every span. */
  lemma MatchesOfTwo()
    ensures Matches("./a.png 1x, ./b.png 2x", 0) == [Match(0, 0, 7, 12), Match(12, 12, 19, 22)]
  {
    var s := "./a.png 1x, ./b.png 2x";
    FirstOfTwo();
    SecondOfTwo();
    assert MatchAt(s, 22) == None;
    assert Exec(s, 22) == None;
    assert Matches(s, 22) == [];
    assert Matches(s, 12) == [Match(12, 12, 19, 22)];
  }

  lemma FirstToken()
    ensures SkipToken("./a.png 1x, ./b.png 2x", 0) == 7
  {
    var s := "./a.png 1x, ./b.png 2x";
    assert SkipToken(s, 7) == 7;
    assert SkipToken(s, 6) == 7;
    assert SkipToken(s, 5) == 7;
    assert SkipToken(s, 4) == 7;
    assert SkipToken(s, 3) == 7;
    assert SkipToken(s, 2) == 7;
    assert SkipToken(s, 1) == 7;
    assert SkipToken(s, 0) == 7;
  }

  lemma FirstDescriptor()
    ensures CandidateEnd("./a.png 1x, ./b.png 2x", 7) == 10
  {
    var s := "./a.png 1x, ./b.png 2x";
    assert CandidateEnd(s, 10) == 10;
    assert CandidateEnd(s, 9) == 10;
    assert CandidateEnd(s, 8) == 10;
    assert CandidateEnd(s, 7) == 10;
  }

  lemma SecondToken()
    ensures SkipToken("./a.png 1x, ./b.png 2x", 12) == 19
  {
    var s := "./a.png 1x, ./b.png 2x";
    assert SkipToken(s, 19) == 19;
    assert SkipToken(s, 18) == 19;
    assert SkipToken(s, 17) == 19;
    assert SkipToken(s, 16) == 19;
    assert SkipToken(s, 15) == 19;
    assert SkipToken(s, 14) == 19;
    assert SkipToken(s, 13) == 19;
    assert SkipToken(s, 12) == 19;
  }

  lemma SecondDescriptor()
    ensures CandidateEnd("./a.png 1x, ./b.png 2x", 19) == 22
  {
    var s := "./a.png 1x, ./b.png 2x";
    assert CandidateEnd(s, 22) == 22;
    assert CandidateEnd(s, 21) == 22;
    assert CandidateEnd(s, 20) == 22;
    assert CandidateEnd(s, 19) == 22;
  }

  /** The first `exec` on the example matches at 0. */
  lemma FirstOfTwo()
    ensures Exec("./a.png 1x, ./b.png 2x", 0) == Some(Match(0, 0, 7, 12))
  {
    FirstMatch();
  }

  /** The pattern matches at 0: token `[0, 7)`, descriptor up to the comma at 10, and the
      white space after it, so `lastIndex` is 12. */
  lemma FirstMatch()
    ensures MatchAt("./a.png 1x, ./b.png 2x", 0) == Some(Match(0, 0, 7, 12))
  {
    var s := "./a.png 1x, ./b.png 2x";
    assert s[0] == '.';
    NoSpaceAt(s, 0);
    assert IsTokenChar(s[0]);
    FirstToken();
    FirstDescriptor();
    assert s[10] == ',';
    assert s[11] == ' ' && s[12] == '.';
    NoSpaceAt(s, 12);
    assert SkipSpace(s, 11) == 12;
  }

  /** White space skipping stops at once on a character that is not white space. */
  lemma NoSpaceAt(s: string, i: nat)
    requires i < |s| && !IsSpace(s[i])
    ensures SkipSpace(s, i) == i
  {
  }

  /** The second `exec`, from `lastIndex` 12, matches at 12. */
  lemma SecondOfTwo()
    ensures Exec("./a.png 1x, ./b.png 2x", 12) == Some(Match(12, 12, 19, 22))
  {
    SecondMatch();
  }

  /** The pattern matches at 12: token `[12, 19)`, descriptor to the end. */
  lemma SecondMatch()
    ensures MatchAt("./a.png 1x, ./b.png 2x", 12) == Some(Match(12, 12, 19, 22))
  {
    var s := "./a.png 1x, ./b.png 2x";
    assert s[12] == '.';
    NoSpaceAt(s, 12);
    assert IsTokenChar(s[12]);
    SecondToken();
    SecondDescriptor();
    assert SkipSpace(s, 22) == 22;
  }

  /** The two-candidate value yields, as the source computes them, the spans of its two
      URL tokens only: no match there has leading white space. */
  lemma SpansOfTwo(base: nat)
    ensures SrcsetSpansAsWritten("./a.png 1x, ./b.png 2x", base) == [Span("./a.png", base, base + 7), Span("./b.png", base + 12, base + 19)]
  {
    var s := "./a.png 1x, ./b.png 2x";
    var ms := Matches(s, 0);
    MatchesOfTwo();
    var w := AsWrittenSpans(s, base, ms);
    assert |w| == 2;
    AsWrittenOfTwo(base, Match(0, 0, 7, 12), "./a.png");
    AsWrittenOfTwo(base, Match(12, 12, 19, 22), "./b.png");
  }

  /** The corrected spans of the two-candidate value are the same two. */
  lemma TokenSpansOfTwo(base: nat)
    ensures SrcsetSpans("./a.png 1x, ./b.png 2x", base) == [Span("./a.png", base, base + 7), Span("./b.png", base + 12, base + 19)]
  {
    var s := "./a.png 1x, ./b.png 2x";
    var ms := Matches(s, 0);
    MatchesOfTwo();
    var r := TokenSpans(s, base, ms);
    assert |r| == 2;
    TokenOfTwo(base, Match(0, 0, 7, 12), "./a.png");
    TokenOfTwo(base, Match(12, 12, 19, 22), "./b.png");
  }

  /** One as-written span of the example: its match starts at its token. */
  lemma AsWrittenOfTwo(base: nat, m: Match, token: string)
    requires m in [Match(0, 0, 7, 12), Match(12, 12, 19, 22)]
    requires token == if m.tokenStart == 0 then "./a.png" else "./b.png"
    ensures AsWrittenSpan("./a.png 1x, ./b.png 2x", base, m) == Span(token, base + m.tokenStart, base + m.tokenEnd)
  {
    TokenOfTwo(base, m, token);
  }

  /** One token of the example, cut out by its match. */
  lemma TokenOfTwo(base: nat, m: Match, token: string)
    requires m in [Match(0, 0, 7, 12), Match(12, 12, 19, 22)]
    requires token == if m.tokenStart == 0 then "./a.png" else "./b.png"
    ensures TokenSpan("./a.png 1x, ./b.png 2x", base, m) == Span(token, base + m.tokenStart, base + m.tokenEnd)
  {
    var s := "./a.png 1x, ./b.png 2x";
    if m.tokenStart == 0 {
      assert s[0..7] == "./a.png";
    } else {
      assert s[12..19] == "./b.png";
    }
  }
}
