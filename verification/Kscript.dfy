/** The line tokenizer of kernel scripts (Extensions/kscript.h). */
module Kscript {
  import opened Bytes
  import opened CStrings

  const MAX_TOKENS: nat := 16

  /** A token points into its line. */
  datatype Token = Token(start: nat, length: nat)

  function End(t: Token): nat {
    t.start + t.length
  }

  function Text(line: seq<char>, t: Token): seq<char>
    requires End(t) <= |line|
  {
    line[t.start..End(t)]
  }

  predicate IsSpace(c: char) {
    c == ' ' || c == '\t' || c == '\r'
  }

  predicate IsEnd(c: char) {
    c == '\n' || c == '\0'
  }

  /** Starts a comment, but only where a token would begin. */
  predicate IsComment(c: char) {
    c == '#' || c == ';'
  }

  predicate InToken(c: char) {
    !IsSpace(c) && !IsEnd(c)
  }

  // ---- what tokenizing means ----------------------------------------------------------------

  ghost predicate Spaces(line: seq<char>, lo: nat, hi: nat) {
    lo <= hi <= |line| && forall i :: lo <= i < hi ==> IsSpace(line[i])
  }

  /** `t` is the next token after `prev`: only whitespace before it, a maximal run, no comment. */
  ghost predicate NextToken(line: seq<char>, prev: nat, t: Token) {
    && Spaces(line, prev, t.start)
    && 0 < t.length && End(t) <= |line|
    && (forall i :: t.start <= i < End(t) ==> InToken(line[i]))
    && !IsComment(line[t.start])
    && (End(t) == |line| || !InToken(line[End(t)]))
  }

  /** Nothing but whitespace before the end of the line or a comment. */
  ghost predicate NoMore(line: seq<char>, prev: nat) {
    exists e: nat :: Spaces(line, prev, e) && Stops(line, e)
  }

  /** No token begins at `i`. */
  predicate Stops(line: seq<char>, i: nat) {
    i >= |line| || IsEnd(line[i]) || IsComment(line[i])
  }

  /** The tokens from `at` on, at most `room`: each is the next one after the one before, and
      they stop short of `room` only at the end of the line or a comment. */
  ghost predicate Tokenizes(line: seq<char>, at: nat, ts: seq<Token>, room: nat)
    decreases |ts|
  {
    if ts == [] then room > 0 ==> NoMore(line, at)
    else room > 0 && NextToken(line, at, ts[0]) && Tokenizes(line, End(ts[0]), ts[1..], room - 1)
  }

  // ---- as a function -------------------------------------------------------------------------

  function SkipSpaces(line: seq<char>, at: nat): (i: nat)
    requires at <= |line|
    ensures at <= i <= |line|
    decreases |line| - at
  {
    if at < |line| && IsSpace(line[at]) then SkipSpaces(line, at + 1) else at
  }

  function SkipToken(line: seq<char>, at: nat): (i: nat)
    requires at <= |line|
    ensures at <= i <= |line|
    decreases |line| - at
  {
    if at < |line| && InToken(line[at]) then SkipToken(line, at + 1) else at
  }

  function Tokens(line: seq<char>, at: nat, room: nat): (ts: seq<Token>)
    requires at <= |line|
    ensures |ts| <= room
    decreases room, |line|
  {
    if room == 0 then []
    else
      var i := SkipSpaces(line, at);
      if Stops(line, i) then []
      else
        var j := SkipToken(line, i);
        [Token(i, j - i)] + Tokens(line, j, room - 1)
  }

  // ---- the two agree ---------------------------------------------------------------------------

  lemma {:induction false} FirstNonSpace(line: seq<char>, at: nat, e: nat)
    requires Spaces(line, at, e) && (e == |line| || !IsSpace(line[e]))
    ensures SkipSpaces(line, at) == e
    decreases e - at
  {
    if at == e {
    } else {
      FirstNonSpace(line, at + 1, e);
    }
  }

  lemma {:induction false} SpacesSkipped(line: seq<char>, at: nat)
    requires at <= |line|
    ensures Spaces(line, at, SkipSpaces(line, at))
    decreases |line| - at
  {
    if at == |line| || !IsSpace(line[at]) {
    } else {
      SpacesSkipped(line, at + 1);
    }
  }

  ghost predicate Run(line: seq<char>, lo: nat, hi: nat) {
    && lo <= hi <= |line| && (forall i :: lo <= i < hi ==> InToken(line[i]))
    && (hi == |line| || !InToken(line[hi]))
  }

  lemma {:induction false} EndOfRun(line: seq<char>, at: nat, e: nat)
    requires Run(line, at, e)
    ensures SkipToken(line, at) == e
    decreases e - at
  {
    if at == e {
    } else {
      EndOfRun(line, at + 1, e);
    }
  }

  lemma {:induction false} RunSkipped(line: seq<char>, at: nat)
    requires at <= |line|
    ensures Run(line, at, SkipToken(line, at))
    decreases |line| - at
  {
    if at == |line| || !InToken(line[at]) {
    } else {
      RunSkipped(line, at + 1);
    }
  }

  lemma {:induction false} NotSpaceAfter(line: seq<char>, at: nat)
    requires at <= |line|
    ensures SkipSpaces(line, at) == |line| || !IsSpace(line[SkipSpaces(line, at)])
    decreases |line| - at
  {
    if at == |line| || !IsSpace(line[at]) {
    } else {
      NotSpaceAfter(line, at + 1);
    }
  }

  lemma NextTokenIs(line: seq<char>, at: nat, t: Token)
    requires at <= |line| && NextToken(line, at, t)
    ensures !Stops(line, SkipSpaces(line, at))
    ensures t == Token(SkipSpaces(line, at), SkipToken(line, SkipSpaces(line, at)) - SkipSpaces(line, at))
  {
    assert InToken(line[t.start]);
    FirstNonSpace(line, at, t.start);
    EndOfRun(line, t.start, End(t));
  }

  lemma NoMoreIs(line: seq<char>, at: nat)
    requires at <= |line| && NoMore(line, at)
    ensures Stops(line, SkipSpaces(line, at))
  {
    var e: nat :| Spaces(line, at, e) && Stops(line, e);
    FirstNonSpace(line, at, e);
  }

  lemma SkippedToToken(line: seq<char>, at: nat)
    requires at <= |line| && !Stops(line, SkipSpaces(line, at))
    ensures var i := SkipSpaces(line, at); NextToken(line, at, Token(i, SkipToken(line, i) - i))
  {
    var i := SkipSpaces(line, at);
    SpacesSkipped(line, at);
    NotSpaceAfter(line, at);
    RunSkipped(line, i);
  }

  /** The function yields a tokenization. */
  lemma {:induction false} TokensTokenize(line: seq<char>, at: nat, room: nat)
    requires at <= |line|
    ensures Tokenizes(line, at, Tokens(line, at, room), room)
    decreases room
  {
    if room == 0 {
    } else {
      var i := SkipSpaces(line, at);
      if Stops(line, i) {
        SpacesSkipped(line, at);
        assert NoMore(line, at);
      } else {
        SkippedToToken(line, at);
        TokensTokenize(line, SkipToken(line, i), room - 1);
      }
    }
  }

  /** There is only one. */
  lemma {:induction false} TokenizationUnique(line: seq<char>, at: nat, ts: seq<Token>, room: nat)
    requires at <= |line| && Tokenizes(line, at, ts, room)
    ensures ts == Tokens(line, at, room)
    decreases room
  {
    if ts == [] {
      if room > 0 { NoMoreIs(line, at); }
    } else {
      NextTokenIs(line, at, ts[0]);
      TokenizationUnique(line, End(ts[0]), ts[1..], room - 1);
    }
  }

  /** Tokens lie in the line, in order, with whitespace between them. */
  lemma {:induction false} TokensApart(line: seq<char>, at: nat, ts: seq<Token>, room: nat, j: nat)
    requires at <= |line| && Tokenizes(line, at, ts, room) && j < |ts|
    ensures NextToken(line, if j == 0 then at else End(ts[j - 1]), ts[j])
    ensures at <= ts[j].start < End(ts[j]) <= |line|
    ensures forall i :: 0 <= i < j ==> End(ts[i]) < ts[j].start
    decreases |ts|
  {
    if j == 0 {
    } else {
      TokensApart(line, End(ts[0]), ts[1..], room - 1, j - 1);
      assert forall i :: 1 <= i < j ==> ts[i] == ts[1..][i - 1];
      SpaceBetween(line, at, ts[0], ts[1]);
    }
  }

  lemma SpaceBetween(line: seq<char>, at: nat, t: Token, u: Token)
    requires NextToken(line, at, t) && NextToken(line, End(t), u)
    ensures End(t) < u.start
  {
    assert InToken(line[u.start]);
  }

  /** A list of tokens is what the tokenizer yields exactly when it is a tokenization. */
  lemma TokensIff(line: seq<char>, ts: seq<Token>)
    ensures ts == Tokens(line, 0, MAX_TOKENS) <==> Tokenizes(line, 0, ts, MAX_TOKENS)
  {
    TokensTokenize(line, 0, MAX_TOKENS);
    if Tokenizes(line, 0, ts, MAX_TOKENS) { TokenizationUnique(line, 0, ts, MAX_TOKENS); }
  }

  // ---- what does not matter -----------------------------------------------------------------

  /** The lines differ at most in which whitespace character stands where. */
  ghost predicate SameButSpaces(s: seq<char>, t: seq<char>) {
    |s| == |t| && forall i :: 0 <= i < |s| ==> s[i] == t[i] || (s[i] in " \t\r" && t[i] in " \t\r")
  }

  lemma {:induction false} SpacesAlike(s: seq<char>, t: seq<char>, at: nat)
    requires SameButSpaces(s, t) && at <= |s|
    ensures SkipSpaces(s, at) == SkipSpaces(t, at) && SkipToken(s, at) == SkipToken(t, at)
    decreases |s| - at
  {
    if at == |s| {
    } else {
      SpacesAlike(s, t, at + 1);
    }
  }

  /** Tabs and carriage returns separate tokens as spaces do. */
  lemma {:induction false} TabsAreSpaces(s: seq<char>, t: seq<char>, at: nat, room: nat)
    requires SameButSpaces(s, t) && at <= |s|
    ensures Tokens(s, at, room) == Tokens(t, at, room)
    decreases room
  {
    if room == 0 {
    } else {
      var i := SkipSpaces(s, at);
      SpacesAlike(s, t, at);
      NotSpaceAfter(s, at);
      if !Stops(s, i) {
        SpacesAlike(s, t, i);
        TabsAreSpaces(s, t, SkipToken(s, i), room - 1);
      }
    }
  }

  /** The lines agree up to position `e`, where both end or begin a comment. */
  ghost predicate SameUpTo(s: seq<char>, t: seq<char>, e: nat) {
    && e < |s| && e < |t| && s[..e + 1] == t[..e + 1]
    && (s[e] in "\n\0" || (s[e] in "#;" && (e == 0 || s[e - 1] in " \t\r")))
  }

  lemma {:induction false} StopsAlike(s: seq<char>, t: seq<char>, at: nat, e: nat)
    requires SameUpTo(s, t, e) && at <= e
    ensures SkipSpaces(s, at) == SkipSpaces(t, at) <= e
    ensures at < e || s[e] in "\n\0" ==> SkipToken(s, at) == SkipToken(t, at) <= e
    decreases e - at
  {
    assert s[at] == s[..e + 1][at] && t[at] == t[..e + 1][at];
    if at == e {
    } else {
      StopsAlike(s, t, at + 1, e);
    }
  }

  /** A newline, a NUL, or a `#` or `;` where a token could begin, hides the rest of the line. */
  lemma {:induction false} RestHidden(s: seq<char>, t: seq<char>, at: nat, e: nat, room: nat)
    requires SameUpTo(s, t, e) && at <= e
    ensures Tokens(s, at, room) == Tokens(t, at, room)
    decreases room
  {
    if room == 0 {
    } else {
      var i := SkipSpaces(s, at);
      StopsAlike(s, t, at, e);
      assert s[i] == s[..e + 1][i] && t[i] == t[..e + 1][i];
      if !Stops(s, i) {
        StopsAlike(s, t, i, e);
        RestHidden(s, t, SkipToken(s, i), e, room - 1);
      }
    }
  }

  // ---- the loops ---------------------------------------------------------------------------------

  /** The characters the parser may look at: the bounded line, or up to a NUL before its bound. */
  function Visible(buf: seq<char>, len: nat): seq<char> {
    if len <= |buf| then buf[..len] else buf
  }

  /** The bound may be trusted, or a NUL stops every loop before the end of the buffer. */
  predicate Bounded(buf: seq<char>, len: nat) {
    len <= |buf| || (|buf| > 0 && buf[|buf| - 1] == '\0')
  }

  method SkipSpacesLoop(buf: seq<char>, len: nat, at: nat) returns (i: nat)
    requires Bounded(buf, len) && at <= |Visible(buf, len)| && (at < |buf| || at == len)
    ensures i == SkipSpaces(Visible(buf, len), at) && (i < |buf| || i == len)
  {
    ghost var s := Visible(buf, len);
    i := at;
    while i < len && IsSpace(buf[i])
      invariant at <= i <= |s| && (i < |buf| || i == len)
      invariant SkipSpaces(s, at) == SkipSpaces(s, i)
    {
      i := i + 1;
    }
  }

  method SkipTokenLoop(buf: seq<char>, len: nat, at: nat) returns (i: nat)
    requires Bounded(buf, len) && at <= |Visible(buf, len)| && (at < |buf| || at == len)
    ensures i == SkipToken(Visible(buf, len), at) && (i < |buf| || i == len)
  {
    ghost var s := Visible(buf, len);
    i := at;
    while i < len && !IsSpace(buf[i]) && !IsEnd(buf[i])
      invariant at <= i <= |s| && (i < |buf| || i == len)
      invariant SkipToken(s, at) == SkipToken(s, i)
    {
      i := i + 1;
    }
  }

  lemma OneMore(s: seq<char>, at: nat, room: nat)
    requires at <= |s| && room > 0
    ensures var i := SkipSpaces(s, at);
            Tokens(s, at, room) ==
              if Stops(s, i) then [] else [Token(i, SkipToken(s, i) - i)] + Tokens(s, SkipToken(s, i), room - 1)
  {
  }

  /** kscript_parse_line. A bound past the end of the buffer is harmless when the buffer ends
      with a NUL. */
  method ParseLine(line: Pointer<seq<char>>, len: nat, out: array<Token>) returns (ok: bool, count: nat)
    requires out.Length == MAX_TOKENS && (line.To? ==> Bounded(line.target, len))
    modifies out
    ensures ok <==> count > 0
    ensures line.Null? ==> count == 0
    ensures line.To? ==> count <= MAX_TOKENS && out[..count] == Tokens(Visible(line.target, len), 0, MAX_TOKENS)
    ensures count <= out.Length && out[count..] == old(out[count..])
  {
    if line.Null? { return false, 0; }
    count := ParseBuffer(line.target, len, out);
    ok := count > 0;
  }

  /** The next token, if there is one. */
  method ParseOne(buf: seq<char>, len: nat, at: nat) returns (found: bool, t: Token, next: nat)
    requires Bounded(buf, len) && at <= |Visible(buf, len)| && (at < |buf| || at == len)
    ensures found ==> next <= |Visible(buf, len)| && (next < |buf| || next == len)
    ensures Finds(Visible(buf, len), at, found, t, next)
  {
    var i := SkipSpacesLoop(buf, len, at);
    t, next := Token(0, 0), i;
    if i >= len || IsEnd(buf[i]) { return false, t, next; }
    if IsComment(buf[i]) { return false, t, next; }
    next := SkipTokenLoop(buf, len, i);
    return true, Token(i, next - i), next;
  }

  /** What one iteration finds from `at` on. */
  ghost predicate Finds(s: seq<char>, at: nat, found: bool, t: Token, next: nat) {
    && at <= |s|
    && found == !Stops(s, SkipSpaces(s, at))
    && (found ==> t.start == SkipSpaces(s, at) && next == SkipToken(s, t.start) && t.length == next - t.start)
  }

  /** The tokens stored so far are the first of all, and the rest of the array is as before. */
  ghost predicate Parsed(s: seq<char>, before: seq<Token>, now: seq<Token>, at: nat, count: nat) {
    && at <= |s| && count <= |now| == |before|
    && now[..count] + Tokens(s, at, |now| - count) == Tokens(s, 0, |now|)
    && now[count..] == before[count..]
  }

  lemma ParsedMore(s: seq<char>, before: seq<Token>, now: seq<Token>, at: nat, count: nat, t: Token, next: nat)
    requires Parsed(s, before, now, at, count) && count < |now| && Finds(s, at, true, t, next)
    ensures Parsed(s, before, now[count := t], next, count + 1)
  {
    var rest := FoundFirst(s, at, |now| - count, t, next);
    Stored(before, now, count, t, rest);
  }

  /** What is left after the token found. */
  lemma FoundFirst(s: seq<char>, at: nat, room: nat, t: Token, next: nat) returns (rest: seq<Token>)
    requires room > 0 && Finds(s, at, true, t, next)
    ensures next <= |s| && rest == Tokens(s, next, room - 1) && Tokens(s, at, room) == [t] + rest
  {
    OneMore(s, at, room);
    rest := Tokens(s, next, room - 1);
  }

  lemma Stored(before: seq<Token>, now: seq<Token>, count: nat, t: Token, rest: seq<Token>)
    requires count < |now| == |before| && now[count..] == before[count..]
    ensures now[..count] + ([t] + rest) == now[count := t][..count + 1] + rest
    ensures now[count := t][count + 1..] == before[count + 1..]
  {
    assert now[count := t][count + 1..] == now[count..][1..];
  }

  lemma ParsedAll(s: seq<char>, before: seq<Token>, now: seq<Token>, at: nat, count: nat)
    requires Parsed(s, before, now, at, count)
    requires at == |s| || count == |now| || Stops(s, SkipSpaces(s, at))
    ensures now[..count] == Tokens(s, 0, |now|) && now[count..] == before[count..]
  {
    if at == |s| || count == |now| {
      NothingLeft(s, at, |now| - count);
    } else {
      OneMore(s, at, |now| - count);
    }
    assert now[..count] + [] == now[..count];
  }

  method ParseBuffer(buf: seq<char>, len: nat, out: array<Token>) returns (count: nat)
    requires out.Length == MAX_TOKENS && Bounded(buf, len)
    modifies out
    ensures count <= MAX_TOKENS && out[..count] == Tokens(Visible(buf, len), 0, MAX_TOKENS)
    ensures out[count..] == old(out[count..])
  {
    ghost var s, before, now := Visible(buf, len), out[..], out[..];
    var i: nat := 0;
    count := 0;
    while i < len && count < MAX_TOKENS
      invariant (i < |buf| || i == len) && count <= MAX_TOKENS && out[..] == now && Parsed(s, before, now, i, count)
      decreases MAX_TOKENS - count
    {
      var found, t, next := ParseOne(buf, len, i);
      if !found { break; }
      ParsedMore(s, before, now, i, count, t, next);
      out[count] := t;
      now := now[count := t];
      i, count := next, count + 1;
    }
    ParsedAll(s, before, now, i, count);
    assert out[..count] == now[..count] && out[count..] == now[count..] && old(out[count..]) == before[count..];
  }

  lemma NothingLeft(s: seq<char>, at: nat, room: nat)
    requires at <= |s| && (at == |s| || room == 0)
    ensures Tokens(s, at, room) == []
  {
  }

  /** kscript_token_equals. */
  method TokenEquals(text: seq<char>, literal: Pointer<CString>) returns (eq: bool)
    ensures eq <==> literal.To? && text == literal.target
  {
    if literal.Null? { return false; }
    var lit := literal.target;
    var i := 0;
    while i < |text| && At(lit, i) != '\0'
      invariant 0 <= i <= |text| && i <= |lit| && text[..i] == lit[..i]
    {
      if text[i] != At(lit, i) { return false; }
      i := i + 1;
    }
    eq := i == |text| && At(lit, i) == '\0';
    assert i < |lit| ==> lit[i] in lit;
    assert eq ==> text == text[..i] && lit == lit[..i];
  }

  // ---- parsing what was parsed ----------------------------------------------------------------

  /** Could stand as a token. */
  ghost predicate Word(w: seq<char>) {
    w != [] && !IsComment(w[0]) && forall i :: 0 <= i < |w| ==> InToken(w[i])
  }

  function Joined(words: seq<seq<char>>): seq<char> {
    if words == [] then [] else if |words| == 1 then words[0] else words[0] + [' '] + Joined(words[1..])
  }

  /** The texts of the tokens, in order. */
  ghost predicate Reads(line: seq<char>, ts: seq<Token>, words: seq<seq<char>>)
    decreases |ts|
  {
    if ts == [] || words == [] then ts == [] && words == []
    else End(ts[0]) <= |line| && Text(line, ts[0]) == words[0] && Reads(line, ts[1..], words[1..])
  }

  lemma {:induction false} ReadsAt(line: seq<char>, ts: seq<Token>, words: seq<seq<char>>, k: nat)
    requires Reads(line, ts, words) && k < |words|
    ensures |ts| == |words| && End(ts[k]) <= |line| && Text(line, ts[k]) == words[k]
    decreases |ts|
  {
    if k > 0 {
      ReadsAt(line, ts[1..], words[1..], k - 1);
    } else if |words| > 1 {
      ReadsAt(line, ts[1..], words[1..], 0);
    }
  }

  /** The words stand in the line from `at` to its end, with single spaces between them. */
  ghost predicate Stands(line: seq<char>, at: nat, words: seq<seq<char>>)
    requires at <= |line|
    decreases |words|
  {
    if words == [] then at == |line|
    else
      var e := at + |words[0]|;
      && e <= |line| && line[at..e] == words[0]
      && if |words| == 1 then e == |line| else e < |line| && line[e] == ' ' && Stands(line, e + 1, words[1..])
  }

  lemma JoinedSplits(s: seq<char>, words: seq<seq<char>>)
    requires |words| > 1 && s == Joined(words)
    ensures |words[0]| < |s| && s[..|words[0]|] == words[0] && s[|words[0]|] == ' '
    ensures s[|words[0]| + 1..] == Joined(words[1..])
  {
  }

  lemma DropSlices(line: seq<char>, at: nat, n: nat)
    requires at + n < |line|
    ensures line[at..][..n] == line[at..at + n] && line[at..][n] == line[at + n]
    ensures line[at..][n + 1..] == line[at + n + 1..]
  {
  }

  lemma {:induction false} JoinedStands(line: seq<char>, at: nat, words: seq<seq<char>>)
    requires at <= |line| && line[at..] == Joined(words)
    ensures Stands(line, at, words)
    decreases |words|
  {
    if |words| <= 1 {
    } else {
      var e := at + |words[0]|;
      FirstJoined(line, at, words);
      JoinedStands(line, e + 1, words[1..]);
    }
  }

  lemma FirstJoined(line: seq<char>, at: nat, words: seq<seq<char>>)
    requires at <= |line| && |words| > 1 && line[at..] == Joined(words)
    ensures var e := at + |words[0]|;
            e < |line| && line[at..e] == words[0] && line[e] == ' ' && line[e + 1..] == Joined(words[1..])
  {
    JoinedSplits(line[at..], words);
    DropSlices(line, at, |words[0]|);
  }

  /** Words joined by single spaces are read back, wherever they stand at the end of a line. */
  lemma JoinedReads(line: seq<char>, at: nat, words: seq<seq<char>>, room: nat)
    requires at <= |line| && line[at..] == Joined(words) && |words| <= room
    requires forall k :: 0 <= k < |words| ==> Word(words[k])
    ensures Reads(line, Tokens(line, at, room), words)
  {
    JoinedStands(line, at, words);
    StandingReads(line, at, words, room);
  }

  lemma {:induction false} StandingReads(line: seq<char>, at: nat, words: seq<seq<char>>, room: nat)
    requires at <= |line| && Stands(line, at, words) && |words| <= room
    requires forall k :: 0 <= k < |words| ==> Word(words[k])
    ensures Reads(line, Tokens(line, at, room), words)
    decreases |words|
  {
    if words == [] {
      NothingLeft(line, at, room);
    } else {
      var e := at + |words[0]|;
      var next := if |words| == 1 then e else e + 1;
      WordThenMore(line, at, e, next, room);
      StandingReads(line, next, words[1..], room - 1);
      ReadsCons(line, Token(at, e - at), Tokens(line, next, room - 1), words);
    }
  }

  lemma WordThenMore(line: seq<char>, at: nat, e: nat, next: nat, room: nat)
    requires at <= e <= |line| && Word(line[at..e]) && room > 0
    requires (next == e == |line|) || (next == e + 1 <= |line| && line[e] == ' ')
    ensures Tokens(line, at, room) == [Token(at, e - at)] + Tokens(line, next, room - 1)
  {
    FirstWord(line, at, e);
    FirstToken(line, at, e, room);
    if next != e { SkipOneSpace(line, e, room - 1); }
  }

  lemma FirstToken(line: seq<char>, at: nat, e: nat, room: nat)
    requires at <= e <= |line| && room > 0
    requires SkipSpaces(line, at) == at && !Stops(line, at) && SkipToken(line, at) == e
    ensures Tokens(line, at, room) == [Token(at, e - at)] + Tokens(line, e, room - 1)
  {
  }

  lemma SkipOneSpace(line: seq<char>, at: nat, room: nat)
    requires at < |line| && line[at] == ' '
    ensures Tokens(line, at, room) == Tokens(line, at + 1, room)
  {
    assert SkipSpaces(line, at) == SkipSpaces(line, at + 1);
  }

  lemma ReadsCons(line: seq<char>, t: Token, ts: seq<Token>, words: seq<seq<char>>)
    requires words != [] && End(t) <= |line| && Text(line, t) == words[0] && Reads(line, ts, words[1..])
    ensures Reads(line, [t] + ts, words)
  {
    assert ([t] + ts)[1..] == ts;
  }

  /** A word before a space or the end of the line is the next token. */
  lemma FirstWord(line: seq<char>, at: nat, e: nat)
    requires at <= e <= |line| && Word(line[at..e]) && (e == |line| || line[e] == ' ')
    ensures SkipSpaces(line, at) == at && !Stops(line, at) && SkipToken(line, at) == e
  {
    var w := line[at..e];
    assert forall i :: at <= i < e ==> line[i] == w[i - at];
    NextTokenIs(line, at, Token(at, e - at));
  }

  /** The texts of a tokenization are words. */
  lemma TextsAreWords(line: seq<char>, room: nat, k: nat)
    requires k < |Tokens(line, 0, room)|
    ensures End(Tokens(line, 0, room)[k]) <= |line| && Word(Text(line, Tokens(line, 0, room)[k]))
  {
    TokensTokenize(line, 0, room);
    var ts := Tokens(line, 0, room);
    TokensApart(line, 0, ts, room, k);
    var w := Text(line, ts[k]);
    assert forall i :: 0 <= i < |w| ==> w[i] == line[ts[k].start + i];
  }

  /** Parsing the tokens of a line, joined by single spaces, gives the same tokens. */
  lemma ReparseSame(line: seq<char>, words: seq<seq<char>>)
    requires Reads(line, Tokens(line, 0, MAX_TOKENS), words)
    ensures Reads(Joined(words), Tokens(Joined(words), 0, MAX_TOKENS), words)
  {
    forall k | 0 <= k < |words| ensures Word(words[k]) {
      ReadsAt(line, Tokens(line, 0, MAX_TOKENS), words, k);
      TextsAreWords(line, MAX_TOKENS, k);
    }
    var j := Joined(words);
    assert j[0..] == j;
    if words != [] { ReadsAt(line, Tokens(line, 0, MAX_TOKENS), words, 0); }
    JoinedReads(j, 0, words, MAX_TOKENS);
  }
}
