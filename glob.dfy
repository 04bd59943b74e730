/** `fnmatch.fnmatchcase(name, pattern)`: the pattern is translated to a
    regular expression (`*`, `?`, `[...]`, everything else literal) that must
    match the whole name, case-sensitively. */
module Glob {
  import opened Errors
  import Seqs

  /** One member of a bracket expression. */
  datatype SetItem = Single(c: char) | Span(lo: char, hi: char)

  /** One unit of a translated pattern. */
  datatype Token =
    | AnyString                                      // `*`
    | AnyChar                                        // `?`
    | CharSet(negated: bool, items: seq<SetItem>)    // `[...]`, `[!...]`
    | Literal(c: char)

  /** The first `]` at or after `j`, or `|pat|` when there is none. */
  function CloseBracket(pat: string, j: nat): (k: nat)
    requires j <= |pat|
    ensures j <= k <= |pat|
    ensures k < |pat| ==> pat[k] == ']'
    ensures forall m :: j <= m < k ==> pat[m] != ']'
    decreases |pat| - j
  {
    if j == |pat| || pat[j] == ']' then j else CloseBracket(pat, j + 1)
  }

  /** The members of a bracket body as the regular-expression compiler reads
      them: `a-z` is a range, a `-` first or last is literal; a range whose
      upper end is below its lower end is a compilation error (`None`). */
  function SetItems(body: string): Option<seq<SetItem>>
  {
    if body == [] then Some([])
    else if |body| >= 3 && body[1] == '-' then
      if body[2] < body[0] then None
      else match SetItems(body[3..])
        case None => None
        case Some(rest) => Some([Span(body[0], body[2])] + rest)
    else match SetItems(body[1..])
      case None => None
      case Some(rest) => Some([Single(body[0])] + rest)
  }

  function Prepend(t: Token, r: Option<seq<Token>>): Option<seq<Token>> {
    match r
    case None => None
    case Some(ts) => Some([t] + ts)
  }

  /** `fnmatch.translate`: `None` when the resulting expression does not compile. */
  function Translate(pat: string): Option<seq<Token>>
    decreases |pat|
  {
    if pat == [] then Some([])
    else if pat[0] == '*' then Prepend(AnyString, Translate(pat[1..]))
    else if pat[0] == '?' then Prepend(AnyChar, Translate(pat[1..]))
    else if pat[0] == '[' then
      var j1 := if 1 < |pat| && pat[1] == '!' then 2 else 1;
      var j2 := if j1 < |pat| && pat[j1] == ']' then j1 + 1 else j1;
      var j := CloseBracket(pat, j2);
      if j >= |pat| then Prepend(Literal('['), Translate(pat[1..]))
      else
        var stuff := pat[1..j];
        var negated := stuff[0] == '!';
        var body := if negated then stuff[1..] else stuff;
        match SetItems(body)
        case None => None
        case Some(items) => Prepend(CharSet(negated, items), Translate(pat[j + 1..]))
    else Prepend(Literal(pat[0]), Translate(pat[1..]))
  }

  predicate Covers(item: SetItem, c: char) {
    match item
    case Single(x) => c == x
    case Span(lo, hi) => lo <= c <= hi
  }

  predicate InSet(items: seq<SetItem>, c: char) {
    exists i :: 0 <= i < |items| && Covers(items[i], c)
  }

  /** The translated expression matches all of `s`. */
  predicate Matches(toks: seq<Token>, s: string)
    decreases |toks|, |s|
  {
    if toks == [] then s == []
    else match toks[0]
      case AnyString => Matches(toks[1..], s) || (s != [] && Matches(toks, s[1..]))
      case AnyChar => s != [] && Matches(toks[1..], s[1..])
      case Literal(c) => s != [] && s[0] == c && Matches(toks[1..], s[1..])
      case CharSet(negated, items) => s != [] && InSet(items, s[0]) != negated && Matches(toks[1..], s[1..])
  }

  /** `fnmatch.fnmatchcase(name, pat)`; `None` stands for the `re.error` an
      invalid bracket range raises. */
  function FnMatchCase(name: string, pat: string): Option<bool> {
    match Translate(pat)
    case None => None
    case Some(toks) => Some(Matches(toks, name))
  }

  /** A pattern without `*`, `?` or `[`. */
  predicate IsLiteral(pat: string) {
    forall i :: 0 <= i < |pat| ==> pat[i] != '*' && pat[i] != '?' && pat[i] != '['
  }

  function Literals(pat: string): (r: seq<Token>)
    ensures |r| == |pat|
  {
    if pat == [] then [] else [Literal(pat[0])] + Literals(pat[1..])
  }

  lemma {:induction false} TranslateLiteral(p: string, rest: string)
    requires IsLiteral(p)
    ensures Translate(p + rest) == Prepends(Literals(p), Translate(rest))
    decreases |p|
  {
    if p != [] {
      assert (p + rest)[0] == p[0];
      assert (p + rest)[1..] == p[1..] + rest;
      assert IsLiteral(p[1..]) by {
        forall i | 0 <= i < |p[1..]| ensures p[1..][i] == p[i + 1] { }
      }
      TranslateLiteral(p[1..], rest);
      assert Literals(p) == [Literal(p[0])] + Literals(p[1..]);
      match Translate(rest)
      case None =>
      case Some(us) =>
        assert [Literal(p[0])] + (Literals(p[1..]) + us) == Literals(p) + us;
    } else {
      assert p + rest == rest;
      match Translate(rest)
      case None =>
      case Some(us) => assert [] + us == us;
    }
  }

  function Prepends(ts: seq<Token>, r: Option<seq<Token>>): Option<seq<Token>> {
    match r
    case None => None
    case Some(us) => Some(ts + us)
  }

  lemma {:induction false} MatchLiterals(p: string, rest: seq<Token>, s: string)
    ensures Matches(Literals(p) + rest, s) <==> Seqs.IsPrefix(p, s) && Matches(rest, s[|p|..])
    decreases |p|
  {
    if p != [] {
      var toks := Literals(p) + rest;
      assert toks[0] == Literal(p[0]);
      assert toks[1..] == Literals(p[1..]) + rest;
      if s != [] {
        MatchLiterals(p[1..], rest, s[1..]);
        if |p| <= |s| {
          assert s[1..][|p| - 1..] == s[|p|..];
          assert s[..|p|] == [s[0]] + s[1..][..|p| - 1];
          assert p == [p[0]] + p[1..];
        }
      }
    } else {
      assert Literals(p) + rest == rest;
    }
  }

  /** `*` matches any string. */
  lemma {:induction false} StarMatchesAll(s: string)
    ensures Matches([AnyString], s)
    decreases |s|
  {
    if s != [] {
      StarMatchesAll(s[1..]);
    }
  }

  /** A pattern free of wildcards matches exactly the one name equal to it. */
  lemma LiteralPatternMatchesItself(name: string, pat: string)
    requires IsLiteral(pat)
    ensures FnMatchCase(name, pat) == Some(name == pat)
  {
    TranslateLiteral(pat, "");
    assert pat + "" == pat;
    assert Literals(pat) + [] == Literals(pat);
    MatchLiterals(pat, [], name);
  }

  /** A literal prefix followed by `*` matches exactly the names that start
      with that prefix. */
  lemma PrefixStarMatchesPrefixed(name: string, prefix: string)
    requires IsLiteral(prefix)
    ensures FnMatchCase(name, prefix + "*") == Some(Seqs.IsPrefix(prefix, name))
  {
    TranslateLiteral(prefix, "*");
    assert "*"[0] == '*' && "*"[1..] == "";
    assert Translate("") == Some([]);
    assert [AnyString] + [] == [AnyString];
    assert Translate("*") == Some([AnyString]);
    MatchLiterals(prefix, [AnyString], name);
    if |prefix| <= |name| {
      StarMatchesAll(name[|prefix|..]);
    }
  }

  /** `?` matches exactly the one-character names. */
  lemma QuestionMarkMatchesOneChar(name: string)
    ensures FnMatchCase(name, "?") == Some(|name| == 1)
  {
    assert "?"[0] == '?' && "?"[1..] == "";
    assert Translate("") == Some([]);
    assert [AnyChar] + [] == [AnyChar];
    assert Translate("?") == Some([AnyChar]);
    assert [AnyChar][1..] == [];
    if name != [] {
      assert Matches([AnyChar], name) == Matches([], name[1..]);
    }
  }

  /** Rule `web-*` matches node `web-01.example.org`; rule `db-*` does not. */
  lemma GlobExamples()
    ensures FnMatchCase("web-01.example.org", "web-*") == Some(true)
    ensures FnMatchCase("web-01.example.org", "db-*") == Some(false)
  {
    PrefixStarMatchesPrefixed("web-01.example.org", "web-");
    assert "web-" + "*" == "web-*";
    PrefixStarMatchesPrefixed("web-01.example.org", "db-");
    assert "db-" + "*" == "db-*";
    assert "web-01.example.org"[..3] != "db-";
  }
}
