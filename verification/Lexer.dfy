/** The shell's lexer (user/sh.c): words are cut out of the command line in place, one token ahead. */
module Lexer {
  import opened Wrappers

  const NUL := '\0'

  predicate IsSpace(c: char) { c == ' ' || c == '\t' || c == '\r' || c == '\n' }

  predicate IsSymbol(c: char) {
    c == '<' || c == '|' || c == '>' || c == '&' || c == ';' || c == '(' || c == ')'
  }

  predicate InWord(c: char) { !IsSpace(c) && !IsSymbol(c) }

  datatype Token = Word(text: seq<char>) | Symbol(c: char)

  // ---- The pure lexer ----

  function SkipSpace(text: seq<char>, i: nat): (j: nat)
    requires i <= |text|
    ensures i <= j <= |text| && (forall k | i <= k < j :: IsSpace(text[k])) && (j < |text| ==> !IsSpace(text[j]))
    decreases |text| - i
  {
    if i < |text| && IsSpace(text[i]) then SkipSpace(text, i + 1) else i
  }

  function WordEnd(text: seq<char>, i: nat): (j: nat)
    requires i <= |text|
    ensures i <= j <= |text| && (forall k | i <= k < j :: InWord(text[k])) && (j < |text| ==> !InWord(text[j]))
    decreases |text| - i
  {
    if i < |text| && InWord(text[i]) then WordEnd(text, i + 1) else i
  }

  /** Where the token that starts at i ends. */
  function TokenEnd(text: seq<char>, i: nat): (j: nat)
    requires i < |text| && !IsSpace(text[i])
    ensures i < j <= |text|
  {
    if IsSymbol(text[i]) then i + 1 else WordEnd(text, i)
  }

  function TokenAt(text: seq<char>, i: nat): Token
    requires i < |text| && !IsSpace(text[i])
  {
    if IsSymbol(text[i]) then Symbol(text[i]) else Word(text[i..WordEnd(text, i)])
  }

  /** The tokens of text from position i on. */
  function Tokens(text: seq<char>, i: nat): seq<Token>
    requires i <= |text|
    decreases |text| - i
  {
    var j := SkipSpace(text, i);
    if j == |text| then [] else [TokenAt(text, j)] + Tokens(text, TokenEnd(text, j))
  }

  // ---- The pure lexer loses nothing and adds nothing ----

  function Spelling(t: Token): seq<char> {
    match t case Word(w) => w case Symbol(c) => [c]
  }

  function Spellings(ts: seq<Token>): seq<char> {
    if ts == [] then [] else Spelling(ts[0]) + Spellings(ts[1..])
  }

  /** The text from i on, without spaces. */
  function Strip(text: seq<char>, i: nat): seq<char>
    requires i <= |text|
    decreases |text| - i
  {
    if i == |text| then [] else (if IsSpace(text[i]) then [] else [text[i]]) + Strip(text, i + 1)
  }

  lemma {:induction false} StripSpaces(text: seq<char>, i: nat, j: nat)
    requires i <= j <= |text| && forall k | i <= k < j :: IsSpace(text[k])
    ensures Strip(text, i) == Strip(text, j)
    decreases j - i
  {
    if i < j { StripSpaces(text, i + 1, j); }
  }

  lemma {:induction false} StripToken(text: seq<char>, i: nat, j: nat)
    requires i <= j <= |text| && forall k | i <= k < j :: !IsSpace(text[k])
    ensures Strip(text, i) == text[i..j] + Strip(text, j)
    decreases j - i
  {
    hide IsSpace;
    if i < j {
      StripToken(text, i + 1, j);
      var rest := text[i + 1..j];
      assert text[i..j] == [text[i]] + rest;
      assert ([text[i]] + rest) + Strip(text, j) == [text[i]] + (rest + Strip(text, j));
    }
  }

  /** Every character that is not a space is in exactly one token, in order. */
  lemma {:induction false} NothingLost(text: seq<char>, i: nat)
    requires i <= |text|
    ensures Spellings(Tokens(text, i)) == Strip(text, i)
    decreases |text| - i
  {
    var j := SkipSpace(text, i);
    StripSpaces(text, i, j);
    if j < |text| {
      var k := TokenEnd(text, j);
      NothingLost(text, k);
      StripToken(text, j, k);
      assert Spelling(TokenAt(text, j)) == text[j..k];
      assert Tokens(text, i)[1..] == Tokens(text, k);
    }
  }

  /** A token that the lexer can produce. */
  predicate Proper(t: Token) {
    match t
    case Word(w) => w != [] && forall k | 0 <= k < |w| :: InWord(w[k])
    case Symbol(c) => IsSymbol(c)
  }

  /** The tokens with a space after each. */
  function Render(ts: seq<Token>): seq<char> {
    if ts == [] then [] else Spelling(ts[0]) + [' '] + Render(ts[1..])
  }

  lemma {:induction false} WordEndsAt(text: seq<char>, i: nat, j: nat)
    requires i <= j < |text| && (forall k | i <= k < j :: InWord(text[k])) && !InWord(text[j])
    ensures WordEnd(text, i) == j
    decreases j - i
  {
    if i < j { WordEndsAt(text, i + 1, j); }
  }

  lemma TokenOfSuffix(prefix: seq<char>, text: seq<char>, j: nat)
    requires j < |text| && !IsSpace(text[j])
    ensures (prefix + text)[|prefix| + j] == text[j]
    ensures TokenAt(prefix + text, |prefix| + j) == TokenAt(text, j)
    ensures TokenEnd(prefix + text, |prefix| + j) == |prefix| + TokenEnd(text, j)
  {
    hide IsSpace, IsSymbol, InWord;
    WordEndOfSuffix(prefix, text, j);
    assert (prefix + text)[|prefix| + j..|prefix| + WordEnd(text, j)] == text[j..WordEnd(text, j)];
  }

  lemma {:induction false} TokensOfSuffix(prefix: seq<char>, text: seq<char>, i: nat)
    requires i <= |text|
    ensures Tokens(prefix + text, |prefix| + i) == Tokens(text, i)
    decreases |text| - i
  {
    hide IsSpace, IsSymbol, InWord, TokenAt, TokenEnd, SkipSpace;
    SkipOfSuffix(prefix, text, i);
    var j := SkipSpace(text, i);
    if j < |text| {
      TokenOfSuffix(prefix, text, j);
      TokensOfSuffix(prefix, text, TokenEnd(text, j));
    }
  }

  lemma {:induction false} SkipOfSuffix(prefix: seq<char>, text: seq<char>, i: nat)
    requires i <= |text|
    ensures SkipSpace(prefix + text, |prefix| + i) == |prefix| + SkipSpace(text, i)
    decreases |text| - i
  {
    if i < |text| {
      assert (prefix + text)[|prefix| + i] == text[i];
      SkipOfSuffix(prefix, text, i + 1);
    }
  }

  lemma {:induction false} WordEndOfSuffix(prefix: seq<char>, text: seq<char>, i: nat)
    requires i <= |text|
    ensures WordEnd(prefix + text, |prefix| + i) == |prefix| + WordEnd(text, i)
    decreases |text| - i
  {
    if i < |text| {
      assert (prefix + text)[|prefix| + i] == text[i];
      WordEndOfSuffix(prefix, text, i + 1);
    }
  }

  lemma FirstToken(t: Token, text: seq<char>)
    requires Proper(t) && |Spelling(t)| < |text|
    requires var n := |Spelling(t)|; text[..n] == Spelling(t) && text[n] == ' '
    ensures !IsSpace(text[0]) && TokenAt(text, 0) == t && TokenEnd(text, 0) == |Spelling(t)|
  {
    var n := |Spelling(t)|;
    assert forall k | 0 <= k < n :: text[k] == Spelling(t)[k];
    if t.Word? { WordEndsAt(text, 0, n); }
  }

  /** Lexing what the tokens spell gives the tokens. */
  lemma {:induction false} LexRender(ts: seq<Token>)
    requires forall k | 0 <= k < |ts| :: Proper(ts[k])
    ensures Tokens(Render(ts), 0) == ts
  {
    hide TokenAt, TokenEnd, Proper, InWord, IsSymbol;
    if ts != [] {
      var head, rest := Spelling(ts[0]), Render(ts[1..]);
      var n, text := |head|, head + [' '] + rest;
      LexRender(ts[1..]);
      assert Proper(ts[0]);
      assert text[n] == ' ' && text[..n] == head;
      FirstToken(ts[0], text);
      TokensOfSuffix(head + [' '], rest, 0);
      assert Tokens(text, n) == Tokens(text, n + 1) by { assert SkipSpace(text, n) == SkipSpace(text, n + 1); }
      assert Tokens(text, 0) == [ts[0]] + Tokens(text, n);
    }
  }

  // ---- The lexer in place ----

  /** The NUL-terminated string at p is w. */
  predicate StringAt(buf: seq<char>, p: nat, w: seq<char>) {
    p + |w| < |buf| && buf[p..p + |w|] == w && buf[p + |w|] == NUL
  }

  /** The return value for a token. */
  function Code(t: Token): char {
    match t case Word(_) => 'w' case Symbol(c) => c
  }

  class Lexer {
    const buf: array<char>
    ghost const text: seq<char> // the line as it was at the start
    var c: char                 // statics of gettoken
    var nc: char
    var np1: Option<nat>
    var np2: Option<nat>
    ghost var ahead: seq<Token> // the token that nc, np1 and np2 describe, if any
    ghost var from: nat         // the line is still as it was from here on

    /** The tokens that have not been returned. */
    ghost function Pending(): seq<Token>
      reads this
      requires from <= |text|
    {
      ahead + Tokens(text, from)
    }

    /** The line is as it was at the start, from position s on. */
    ghost predicate Untouched(s: nat)
      reads buf
    {
      |text| < buf.Length && NUL !in text && buf[|text|] == NUL && forall k | s <= k < |text| :: buf[k] == text[k]
    }

    ghost predicate Valid()
      reads this, buf
      ensures Valid() ==> from <= |text|
    {
      && from <= |text| && Untouched(from)
      && (ahead == [] ==> from == |text| && nc == NUL && np1.None? && np2.None?)
      && (ahead != [] ==>
            && |ahead| == 1 && Proper(ahead[0]) && nc == Code(ahead[0])
            && np1.Some? && np2 == Some(from) && np1.value < from
            && (ahead[0].Word? ==>
                  buf[np1.value..from] == ahead[0].text && (from < |text| ==> !InWord(text[from]))))
    }

    /** _gettoken(s, &np1, &np2) for a pointer into the line. */
    method Scan(s: nat) returns (t: char, p1: Option<nat>, p2: Option<nat>)
      requires s <= |text| && Untouched(s)
      modifies buf
      ensures forall k | 0 <= k < buf.Length :: buf[k] == old(buf[k]) || (s <= k && buf[k] == NUL)
      ensures var i := SkipSpace(text, s);
        && (forall k | s <= k < i :: buf[k] == NUL)
        && if i == |text| then t == NUL && p1.None? && p2.None? && Untouched(i)
           else
             var j := TokenEnd(text, i);
             && t == Code(TokenAt(text, i)) && p1 == Some(i) && p2 == Some(j) && Untouched(j)
             && (TokenAt(text, i).Word? ==> buf[i..j] == text[i..j])
             && (TokenAt(text, i).Symbol? ==> buf[i] == NUL)
    {
      var i := s;
      p1, p2 := None, None;
      while IsSpace(buf[i])
        invariant s <= i <= |text| && Untouched(i) && SkipSpace(text, i) == SkipSpace(text, s)
        invariant forall k | s <= k < i :: buf[k] == NUL
        invariant forall k | 0 <= k < buf.Length && !(s <= k < i) :: buf[k] == old(buf[k])
        decreases |text| - i
      {
        buf[i] := NUL;
        i := i + 1;
      }
      assert i < |text| ==> text[i] in text;
      if buf[i] == NUL { return NUL, None, None; }
      p1 := Some(i);
      if IsSymbol(buf[i]) {
        t := buf[i];
        buf[i] := NUL;
        i := i + 1;
        return t, p1, Some(i);
      }
      ghost var start := i;
      while buf[i] != NUL && InWord(buf[i])
        invariant start <= i <= |text| && WordEnd(text, i) == WordEnd(text, start)
        decreases |text| - i
      {
        i := i + 1;
      }
      assert i < |text| ==> text[i] in text;
      p2 := Some(i);
      t := 'w';
    }

    /** gettoken(s, 0) for the line s. */
    constructor (line: array<char>, ghost n: nat)
      requires n < line.Length && line[n] == NUL && NUL !in line[..n]
      ensures buf == line && text == old(line[..n]) && Valid() && Pending() == Tokens(text, 0)
      modifies line
    {
      buf, text := line, line[..n];
      c, nc, np1, np2, ahead, from := NUL, NUL, None, None, [], 0;
      new;
      Look(0);
    }

    /** nc = _gettoken(s, &np1, &np2) */
    method Look(s: nat)
      requires s <= |text| && Untouched(s)
      modifies this`nc, this`np1, this`np2, this`ahead, this`from, buf
      ensures Valid() && s <= from && Pending() == Tokens(text, s)
      ensures forall k | 0 <= k < buf.Length :: buf[k] == old(buf[k]) || (s <= k && buf[k] == NUL)
      ensures s < |text| && !InWord(text[s]) ==> buf[s] == NUL
    {
      nc, np1, np2 := Scan(s);
      ghost var i := SkipSpace(text, s);
      if i == |text| {
        ahead, from := [], i;
      } else {
        ahead, from := [TokenAt(text, i)], TokenEnd(text, i);
        if i == s { assert IsSymbol(text[s]) || InWord(text[s]); }
      }
    }

    /** gettoken(0, &p1).  The next token is returned; a word is cut out of the line where p1 points,
        and what was returned before stays as it was.  At the end the answer is 0, again and again. */
    method GetToken() returns (t: char, p1: Option<nat>)
      requires Valid()
      modifies this, buf
      ensures Valid() && old(from) <= from && t == c
      ensures old(Pending()) == [] ==> t == NUL && p1.None? && Pending() == []
      ensures old(Pending()) != [] ==> t == Code(old(Pending())[0]) && Pending() == old(Pending())[1..]
      ensures old(Pending()) != [] && old(Pending())[0].Word? ==>
                p1.Some? && StringAt(buf[..], p1.value, old(Pending())[0].text) && p1.value + |old(Pending())[0].text| == old(from)
      ensures forall k | 0 <= k < buf.Length :: buf[k] == old(buf[k]) || (old(from) <= k && buf[k] == NUL)
    {
      c := nc;
      p1 := np1;
      if np2.None? {
        nc := NUL;
      } else {
        ghost var word := buf[np1.value..from];
        Look(np2.value);
        assert buf[p1.value..old(from)] == word;
        assert old(from) == |text| ==> buf[old(from)] == NUL;
      }
      t := c;
    }
  }

  /** Code and word of every token, as the pointers show them; all words end by position upTo. */
  ghost predicate Shows(buf: seq<char>, upTo: nat, codes: seq<char>, ptrs: seq<Option<nat>>, tokens: seq<Token>) {
    && |codes| == |ptrs| == |tokens|
    && forall i | 0 <= i < |tokens| ::
         codes[i] == Code(tokens[i]) && (tokens[i].Word? ==> ShowsWord(buf, upTo, ptrs[i], tokens[i].text))
  }

  ghost predicate ShowsWord(buf: seq<char>, upTo: nat, p: Option<nat>, w: seq<char>) {
    p.Some? && StringAt(buf, p.value, w) && p.value + |w| <= upTo
  }

  lemma StillShows(before: seq<char>, after: seq<char>, from: nat, upTo: nat, codes: seq<char>, ptrs: seq<Option<nat>>, tokens: seq<Token>)
    requires Shows(before, from, codes, ptrs, tokens) && |before| == |after| && from <= upTo
    requires forall k | 0 <= k < |before| :: after[k] == before[k] || (from <= k && after[k] == NUL)
    ensures Shows(after, upTo, codes, ptrs, tokens)
  {
    hide StringAt, Code;
    forall i | 0 <= i < |tokens| && tokens[i].Word? ensures ShowsWord(after, upTo, ptrs[i], tokens[i].text) {
      StringStays(before, after, from, ptrs[i].value, tokens[i].text);
    }
  }

  lemma ShowsNothing(buf: seq<char>, upTo: nat)
    ensures Shows(buf, upTo, [], [], [])
  {
  }

  lemma ShowsMore(buf: seq<char>, upTo: nat, codes: seq<char>, ptrs: seq<Option<nat>>, tokens: seq<Token>,
                  t: char, p: Option<nat>, token: Token)
    requires Shows(buf, upTo, codes, ptrs, tokens) && t == Code(token)
    requires token.Word? ==> p.Some? && StringAt(buf, p.value, token.text) && p.value + |token.text| <= upTo
    ensures Shows(buf, upTo, codes + [t], ptrs + [p], tokens + [token])
  {
  }

  /** Repeated gettoken gives the tokens of the original line, and all words are still in place at the end. */
  method LexLine(line: array<char>, ghost n: nat) returns (codes: seq<char>, ptrs: seq<Option<nat>>)
    requires n < line.Length && line[n] == NUL && NUL !in line[..n]
    modifies line
    ensures Shows(line[..], n, codes, ptrs, Tokens(old(line[..n]), 0))
  {
    hide StringAt, Tokens, Proper, Code, Shows, ShowsWord, Lexer.Valid, Lexer.Pending;
    var lexer := new Lexer(line, n);
    ghost var tokens := Tokens(lexer.text, 0);
    TokensAreProper(lexer.text, 0);
    codes, ptrs := [], [];
    var more := true;
    ShowsNothing(line[..], lexer.from);
    assert tokens[..0] == [];
    while more
      invariant fresh(lexer) && lexer.buf == line && lexer.Valid() && lexer.text == old(line[..n]) && |codes| <= |tokens|
      invariant lexer.Pending() == tokens[|codes|..] && (!more ==> |codes| == |tokens|)
      invariant Shows(line[..], lexer.from, codes, ptrs, tokens[..|codes|])
      decreases |tokens| - |codes|, more
    {
      ghost var k, before, from := |codes|, line[..], lexer.from;
      var t, p := lexer.GetToken();
      StillShows(before, line[..], from, lexer.from, codes, ptrs, tokens[..k]);
      if t == NUL {
        more := false;
      } else {
        assert tokens[k..][0] == tokens[k] && tokens[k..][1..] == tokens[k + 1..];
        assert tokens[..k + 1] == tokens[..k] + [tokens[k]];
        ShowsMore(line[..], lexer.from, codes, ptrs, tokens[..k], t, p, tokens[k]);
        codes, ptrs := codes + [t], ptrs + [p];
      }
    }
    assert tokens[..|codes|] == tokens;
    StillShows(line[..], line[..], lexer.from, n, codes, ptrs, tokens);
  }

  lemma {:induction false} TokensAreProper(text: seq<char>, i: nat)
    requires i <= |text| && NUL !in text
    ensures forall k | 0 <= k < |Tokens(text, i)| :: Proper(Tokens(text, i)[k]) && Code(Tokens(text, i)[k]) != NUL
    decreases |text| - i
  {
    var j := SkipSpace(text, i);
    if j < |text| { TokensAreProper(text, TokenEnd(text, j)); }
  }

  lemma StringStays(before: seq<char>, after: seq<char>, from: nat, p: nat, w: seq<char>)
    requires StringAt(before, p, w) && p + |w| <= from && |before| == |after|
    requires forall k | 0 <= k < |before| :: after[k] == before[k] || (from <= k && after[k] == NUL)
    ensures StringAt(after, p, w)
  {
    assert after[p..p + |w|] == before[p..p + |w|];
  }
}
