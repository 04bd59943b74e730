/** The shell-style lexer the class-mapping rules are read with: `shlex` in
    POSIX mode with `whitespace_split` set and no comment characters. In a
    rule that starts with `/`, `/` is an additional quote character inside
    which the escape character works, as in double quotes. */
module Lexer {
  import opened Errors

  /** The lexer state between two characters: between tokens (`' '`), inside
      a word (`'a'`), inside a quotation, or right after the escape character
      (remembering the state to return to). */
  datatype Mode = Blank | Word | Quoted(q: char) | Escaped(back: Mode)

  const Escape: char := '\\'

  predicate IsWhitespace(c: char) {
    c == ' ' || c == '\t' || c == '\r' || c == '\n'
  }

  /** `lexer.quotes`, with `/` added in regexp mode. */
  function Quotes(regexp: bool): set<char> {
    if regexp then {'\'', '"', '/'} else {'\'', '"'}
  }

  /** `lexer.escapedquotes`, with `/` added in regexp mode. */
  function EscapedQuotes(regexp: bool): set<char> {
    if regexp then {'"', '/'} else {'"'}
  }

  /** The token read and the input left after it; `None` is the end of input. */
  datatype Lexed = Lexed(token: Option<string>, rest: string)

  /** `read_token` from `mode`, with `tok` read so far and `quoted` recording
      whether a quotation was entered during this token. Fails with the
      `ValueError` the lexer raises at the end of input inside a quotation or
      after an escape character. */
  function ReadToken(regexp: bool, s: string, mode: Mode, tok: string, quoted: bool): (r: Result<Lexed>)
    ensures r.Ok? ==> |r.value.rest| <= |s|
    ensures r.Ok? && r.value.token.Some? && mode == Blank && tok == "" && !quoted ==> |r.value.rest| < |s|
    ensures r.Err? ==> r.error.ValueError?
    decreases |s|
  {
    if s == [] then
      match mode
      case Quoted(_) => Err(ValueError("No closing quotation"))
      case Escaped(_) => Err(ValueError("No escaped character"))
      case _ => Ok(Lexed(if !quoted && tok == "" then None else Some(tok), []))
    else
      var c, rest := s[0], s[1..];
      match mode
      case Blank =>
        if IsWhitespace(c) then
          if tok != "" || quoted then Ok(Lexed(Some(tok), rest))
          else ReadToken(regexp, rest, Blank, tok, quoted)
        else if c == Escape then ReadToken(regexp, rest, Escaped(Word), tok, quoted)
        else if c in Quotes(regexp) then ReadToken(regexp, rest, Quoted(c), tok, quoted)
        else ReadToken(regexp, rest, Word, [c], quoted)
      case Word =>
        if IsWhitespace(c) then
          if tok != "" || quoted then Ok(Lexed(Some(tok), rest))
          else ReadToken(regexp, rest, Blank, tok, quoted)
        else if c in Quotes(regexp) then ReadToken(regexp, rest, Quoted(c), tok, quoted)
        else if c == Escape then ReadToken(regexp, rest, Escaped(Word), tok, quoted)
        else ReadToken(regexp, rest, Word, tok + [c], quoted)
      case Quoted(q) =>
        if c == q then ReadToken(regexp, rest, Word, tok, true)
        else if c == Escape && q in EscapedQuotes(regexp) then ReadToken(regexp, rest, Escaped(Quoted(q)), tok, true)
        else ReadToken(regexp, rest, Quoted(q), tok + [c], true)
      case Escaped(back) =>
        // inside quotes only the quote itself and the escape character can be escaped
        var kept := if back.Quoted? && c != Escape && c != back.q then tok + [Escape] else tok;
        ReadToken(regexp, rest, back, kept + [c], quoted)
  }

  /** `get_token` on a fresh token. */
  function NextToken(regexp: bool, s: string): (r: Result<Lexed>)
    ensures r.Ok? ==> |r.value.rest| <= |s|
    ensures r.Ok? && r.value.token.Some? ==> |r.value.rest| < |s|
  {
    ReadToken(regexp, s, Blank, "", false)
  }

  /** `list(lexer)`: every remaining token, in order. */
  function AllTokens(regexp: bool, s: string): Result<seq<string>>
    decreases |s|
  {
    var r :- NextToken(regexp, s);
    match r.token
    case None => Ok([])
    case Some(t) =>
      var more :- AllTokens(regexp, r.rest);
      Ok([t] + more)
  }

  /** A word the lexer reads verbatim: no whitespace, quote or escape character. */
  predicate IsPlainWord(regexp: bool, w: string) {
    |w| > 0 && forall i :: 0 <= i < |w| ==> !IsWhitespace(w[i]) && w[i] !in Quotes(regexp) && w[i] != Escape
  }

  /** Inside a word, a plain run is appended to the token; the next space or
      the end of input ends it. */
  lemma {:induction false} ReadPlainRun(regexp: bool, w: string, rest: string, tok: string)
    requires |w| == 0 || IsPlainWord(regexp, w)
    requires tok != ""
    requires rest == [] || rest[0] == ' '
    ensures ReadToken(regexp, w + rest, Word, tok, false)
         == Ok(Lexed(Some(tok + w), if rest == [] then [] else rest[1..]))
    decreases |w|
  {
    if w == [] {
      assert w + rest == rest;
      assert tok + w == tok;
    } else {
      assert (w + rest)[0] == w[0];
      assert (w + rest)[1..] == w[1..] + rest;
      assert |w[1..]| == 0 || IsPlainWord(regexp, w[1..]) by {
        forall i | 0 <= i < |w[1..]| ensures w[1..][i] == w[i + 1] { }
      }
      ReadPlainRun(regexp, w[1..], rest, tok + [w[0]]);
      assert tok + [w[0]] + w[1..] == tok + w;
    }
  }

  /** A plain word followed by a space (or the end) is read as one token, the
      space included. */
  lemma ReadPlainWord(regexp: bool, w: string, rest: string)
    requires IsPlainWord(regexp, w)
    requires rest == [] || rest[0] == ' '
    ensures NextToken(regexp, w + rest) == Ok(Lexed(Some(w), if rest == [] then [] else rest[1..]))
  {
    assert (w + rest)[0] == w[0];
    assert (w + rest)[1..] == w[1..] + rest;
    assert |w[1..]| == 0 || IsPlainWord(regexp, w[1..]) by {
      forall i | 0 <= i < |w[1..]| ensures w[1..][i] == w[i + 1] { }
    }
    ReadPlainRun(regexp, w[1..], rest, [w[0]]);
    assert [w[0]] + w[1..] == w;
  }

  /** Space-separated plain words are lexed back into exactly those words. */
  lemma {:induction false} TokensOfJoinedWords(regexp: bool, ws: seq<string>)
    requires forall i :: 0 <= i < |ws| ==> IsPlainWord(regexp, ws[i])
    ensures AllTokens(regexp, SpaceJoined(ws)) == Ok(ws)
    decreases |ws|
  {
    if ws == [] {
      assert NextToken(regexp, "") == Ok(Lexed(None, ""));
    } else if |ws| == 1 {
      ReadPlainWord(regexp, ws[0], "");
      assert ws[0] + "" == ws[0];
      assert NextToken(regexp, "") == Ok(Lexed(None, ""));
      assert AllTokens(regexp, "") == Ok([]);
      assert NextToken(regexp, SpaceJoined(ws)) == Ok(Lexed(Some(ws[0]), ""));
      assert [ws[0]] + [] == ws;
    } else {
      var tail := SpaceJoined(ws[1..]);
      assert SpaceJoined(ws) == ws[0] + (" " + tail);
      ReadPlainWord(regexp, ws[0], " " + tail);
      assert (" " + tail)[1..] == tail;
      TokensOfJoinedWords(regexp, ws[1..]);
      assert ws == [ws[0]] + ws[1..];
    }
  }

  /** The words with one space between neighbours. */
  function SpaceJoined(ws: seq<string>): string {
    if ws == [] then ""
    else if |ws| == 1 then ws[0]
    else ws[0] + " " + SpaceJoined(ws[1..])
  }

  /** Inside an unterminated quotation the lexer fails whatever follows. */
  lemma {:induction false} UnterminatedQuote(regexp: bool, s: string, q: char, tok: string, quoted: bool)
    requires q !in s
    ensures ReadToken(regexp, s, Quoted(q), tok, quoted).Err?
    decreases |s|
  {
    if s != [] {
      if s[0] == Escape && q in EscapedQuotes(regexp) {
        assert q !in s[1..];
        if s[1..] != [] {
          assert s[1..][0] != q;
          assert q !in s[1..][1..];
          UnterminatedQuote(regexp, s[1..][1..], q, (if s[1..][0] != Escape && s[1..][0] != q then tok + [Escape] else tok) + [s[1..][0]], true);
        }
      } else {
        assert q !in s[1..];
        UnterminatedQuote(regexp, s[1..], q, tok + [s[0]], true);
      }
    }
  }

  /** Once a quotation has been entered, the token is present even if empty. */
  lemma {:induction false} QuotedYieldsToken(regexp: bool, s: string, mode: Mode, tok: string, quoted: bool)
    requires quoted || mode.Quoted?
    ensures var r := ReadToken(regexp, s, mode, tok, quoted);
      r.Ok? ==> r.value.token.Some?
    decreases |s|
  {
    if s != [] {
      var c, rest := s[0], s[1..];
      match mode
      case Blank =>
        if !IsWhitespace(c) {
          var next := if c == Escape then Escaped(Word) else if c in Quotes(regexp) then Quoted(c) else Word;
          QuotedYieldsToken(regexp, rest, next, if next == Word then [c] else tok, quoted);
        }
      case Word =>
        if !IsWhitespace(c) {
          if c in Quotes(regexp) {
            QuotedYieldsToken(regexp, rest, Quoted(c), tok, quoted);
          } else if c == Escape {
            QuotedYieldsToken(regexp, rest, Escaped(Word), tok, quoted);
          } else {
            QuotedYieldsToken(regexp, rest, Word, tok + [c], quoted);
          }
        }
      case Quoted(q) =>
        if c == q {
          QuotedYieldsToken(regexp, rest, Word, tok, true);
        } else if c == Escape && q in EscapedQuotes(regexp) {
          QuotedYieldsToken(regexp, rest, Escaped(Quoted(q)), tok, true);
        } else {
          QuotedYieldsToken(regexp, rest, Quoted(q), tok + [c], true);
        }
      case Escaped(back) =>
        var kept := if back.Quoted? && c != Escape && c != back.q then tok + [Escape] else tok;
        QuotedYieldsToken(regexp, rest, back, kept + [c], quoted);
    }
  }

  /** Text that a quotation by `q` (one in which the escape character works)
      passes through unchanged: no `q`, and every escape character followed by
      a character other than itself and `q`, which keeps both. */
  predicate Verbatim(r: string, q: char)
    decreases |r|
  {
    || r == []
    || (r[0] != q && r[0] != Escape && Verbatim(r[1..], q))
    || (|r| >= 2 && r[0] == Escape && r[1] != Escape && r[1] != q && Verbatim(r[2..], q))
  }

  /** Reading a verbatim run and its closing quote appends the run to the token
      and continues in the word state. */
  lemma {:induction false} ReadQuotedRun(regexp: bool, r: string, q: char, more: string, tok: string, quoted: bool)
    requires q in EscapedQuotes(regexp) && Verbatim(r, q)
    ensures ReadToken(regexp, r + [q] + more, Quoted(q), tok, quoted)
         == ReadToken(regexp, more, Word, tok + r, true)
    decreases |r|
  {
    var s := r + [q] + more;
    if r == [] {
      assert s == [q] + more;
      assert s[1..] == more;
      assert tok + r == tok;
    } else if r[0] != q && r[0] != Escape && Verbatim(r[1..], q) {
      assert s[0] == r[0];
      assert s[1..] == r[1..] + [q] + more;
      ReadQuotedRun(regexp, r[1..], q, more, tok + [r[0]], true);
      assert tok + [r[0]] + r[1..] == tok + r;
    } else {
      assert s[0] == Escape && s[1] == r[1];
      assert s[1..][1..] == r[2..] + [q] + more;
      ReadQuotedRun(regexp, r[2..], q, more, tok + [Escape] + [r[1]], true);
      assert tok + [Escape] + [r[1]] + r[2..] == tok + r by {
        assert r == [Escape] + [r[1]] + r[2..];
      }
    }
  }

  /** Outside quotations the escape character is dropped and the character
      after it kept. */
  lemma EscapeInWord(regexp: bool, c: char, more: string, tok: string, quoted: bool)
    ensures ReadToken(regexp, [Escape, c] + more, Word, tok, quoted)
         == ReadToken(regexp, more, Word, tok + [c], quoted)
  {
    var s := [Escape, c] + more;
    assert s[0] == Escape && s[1..] == [c] + more;
    assert s[1..][0] == c && s[1..][1..] == more;
  }

  /** Inside a word, a plain run is appended to the token whatever follows. */
  lemma {:induction false} ReadPlainPrefix(regexp: bool, w: string, more: string, tok: string, quoted: bool)
    requires |w| == 0 || IsPlainWord(regexp, w)
    ensures ReadToken(regexp, w + more, Word, tok, quoted) == ReadToken(regexp, more, Word, tok + w, quoted)
    decreases |w|
  {
    if w == [] {
      assert w + more == more;
      assert tok + w == tok;
    } else {
      assert (w + more)[0] == w[0];
      assert (w + more)[1..] == w[1..] + more;
      assert |w[1..]| == 0 || IsPlainWord(regexp, w[1..]) by {
        forall i | 0 <= i < |w[1..]| ensures w[1..][i] == w[i + 1] { }
      }
      ReadPlainPrefix(regexp, w[1..], more, tok + [w[0]], quoted);
      assert tok + [w[0]] + w[1..] == tok + w;
    }
  }

  /** An opening quotation mark at the start of the input enters the
      quotation with an empty token. */
  lemma OpenQuote(regexp: bool, q: char, more: string)
    requires q in Quotes(regexp)
    ensures NextToken(regexp, [q] + more) == ReadToken(regexp, more, Quoted(q), "", false)
  {
    var s := [q] + more;
    assert s[0] == q && s[1..] == more;
  }

  /** After a closed quotation, a space or the end of input ends the token,
      which is present even when empty. */
  lemma EndQuotedWord(regexp: bool, more: string, tok: string)
    requires more == [] || more[0] == ' '
    ensures ReadToken(regexp, more, Word, tok, true) == Ok(Lexed(Some(tok), if more == [] then [] else more[1..]))
  {
  }

  /** The end of input ends a word. */
  lemma EndOfWord(regexp: bool, tok: string)
    requires tok != ""
    ensures ReadToken(regexp, [], Word, tok, false) == Ok(Lexed(Some(tok), []))
  {
  }

  /** Nothing left: no further tokens. */
  lemma NoMoreTokens(regexp: bool)
    ensures AllTokens(regexp, []) == Ok([])
  {
    assert NextToken(regexp, []) == Ok(Lexed(None, []));
  }

  /** A lexed first token followed by lexed tokens gives all tokens. */
  lemma TokensCons(regexp: bool, s: string, t: string, rest: string, more: seq<string>)
    requires NextToken(regexp, s) == Ok(Lexed(Some(t), rest))
    requires AllTokens(regexp, rest) == Ok(more)
    ensures AllTokens(regexp, s) == Ok([t] + more)
  {
  }

  /** A plain character at the start of the input begins a word. */
  lemma StartWord(regexp: bool, c: char, more: string)
    requires IsPlainWord(regexp, [c])
    ensures NextToken(regexp, [c] + more) == ReadToken(regexp, more, Word, [c], false)
  {
    var s := [c] + more;
    assert s[0] == c && s[1..] == more;
    assert [c][0] == c;
  }

  /** Outside quotations the escape character is dropped and the character
      after it taken literally, itself included: a word `p\cq` is the token
      `pcq`. */
  lemma EscapeOutsideQuotes(regexp: bool, p: string, c: char, q: string)
    requires IsPlainWord(regexp, p)
    requires q == [] || IsPlainWord(regexp, q)
    ensures AllTokens(regexp, p + [Escape, c] + q) == Ok([p + [c] + q])
  {
    var s := p + [Escape, c] + q;
    var p1 := p[1..];
    assert s == [p[0]] + (p1 + ([Escape, c] + q));
    assert IsPlainWord(regexp, [p[0]]) by {
      assert [p[0]][0] == p[0];
    }
    StartWord(regexp, p[0], p1 + ([Escape, c] + q));
    assert |p1| == 0 || IsPlainWord(regexp, p1) by {
      forall i | 0 <= i < |p1| ensures p1[i] == p[i + 1] { }
    }
    ReadPlainPrefix(regexp, p1, [Escape, c] + q, [p[0]], false);
    assert [p[0]] + p1 == p;
    EscapeInWord(regexp, c, q, p, false);
    ReadPlainPrefix(regexp, q, [], p + [c], false);
    assert q + [] == q;
    EndOfWord(regexp, p + [c] + q);
    NoMoreTokens(regexp);
    TokensCons(regexp, s, p + [c] + q, [], []);
    assert [p + [c] + q] + [] == [p + [c] + q];
  }
}
