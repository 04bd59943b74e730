/** Class mappings: splitting a mapping rule into its key and class names,
    matching the key against a node name (a regular expression between
    slashes or a shell glob), and collecting the offered classes, duplicates
    dropped, in first-seen order. */
module ClassMappings {
  import opened Errors
  import opened Entities
  import Seqs
  import Glob
  import Lexer

  /** The message of the `MappingFormatError` for rule `instr`. */
  function FormatErrorMessage(instr: string): (m: string)
    ensures |m| == |instr| + 53 && m[18..18 + |instr|] == instr
  {
    "Error in mapping \"" + instr + "\": missing closing quote (or slash)"
  }

  /** `_shlex_split`: the rule's key and the class tokens after it. A rule
      beginning with `/` also treats `/` as a quotation mark in which the
      escape character works, and its key is re-wrapped in slashes. Only a
      failure on the first token becomes a `MappingFormatError`; one on a
      later token escapes as the lexer's own `ValueError`. An empty rule is an
      `IndexError` (`instr[0]`). */
  function ShlexSplit(instr: string): Result<(Option<string>, seq<string>)>
  {
    if instr == "" then Err(IndexError(instr))
    else
      var regexp := instr[0] == '/';
      match Lexer.NextToken(regexp, instr)
      case Err(_) => Err(MappingFormatError(FormatErrorMessage(instr)))
      case Ok(first) =>
        var key :=
          if regexp then Some("/" + (if first.token.Some? then first.token.value else "None") + "/")
          else first.token;
        var klasses :- Lexer.AllTokens(regexp, first.rest);
        Ok((key, klasses))
  }

  /** Python's `key[1:-1]`. */
  function Inner(key: string): (r: string)
    ensures |key| >= 2 ==> key == key[..1] + r + key[|key| - 1..]
  {
    if |key| >= 2 then key[1..|key| - 1] else ""
  }

  /** The class names one rule offers the node, in the rule's order and
      before duplicates are dropped. A regular-expression rule offers each
      class name expanded against the match; a glob rule offers them as they
      are, when the whole node name matches. */
  function RuleClasses(regex: Regex, mapping: string, nodename: string): Result<seq<string>>
  {
    var split :- ShlexSplit(mapping);
    var (key, klasses) := split;
    match key
    case None => Err(TypeError(mapping))
    case Some(k) =>
      if k == "" then Err(IndexError(mapping))
      else if k[0] == '/' then
        var pattern := Inner(k);
        if !regex.compiles(pattern) then Err(PatternError(pattern))
        else if regex.search(pattern, nodename) then
          Ok(seq(|klasses|, i requires 0 <= i < |klasses| => regex.expand(pattern, nodename, klasses[i])))
        else Ok([])
      else
        match Glob.FnMatchCase(nodename, k)
        case None => Err(PatternError(k))
        case Some(m) => Ok(if m then klasses else [])
  }

  /** The loop of `_get_class_mappings_entity` from list `acc` on: every
      offered class name goes through `append_if_new`; the first failing rule
      aborts. */
  function MappedClasses(regex: Regex, rules: seq<string>, nodename: string, acc: seq<string>): Result<seq<string>>
    decreases |rules|
  {
    if rules == [] then Ok(acc)
    else
      var ks :- RuleClasses(regex, rules[0], nodename);
      MappedClasses(regex, rules[1..], nodename, Seqs.AppendAllNew(acc, ks))
  }

  /** Everything the rules offer, concatenated in rule order: the reference
      against which the collected list is characterised. */
  function Offered(regex: Regex, rules: seq<string>, nodename: string): Result<seq<string>>
    decreases |rules|
  {
    if rules == [] then Ok([])
    else
      var ks :- RuleClasses(regex, rules[0], nodename);
      var more :- Offered(regex, rules[1..], nodename);
      Ok(ks + more)
  }

  /** `_get_class_mappings_entity`. */
  function MappingsEntity(regex: Regex, rules: seq<string>, nodename: string): Result<Entity>
  {
    if rules == [] then Ok(Named("empty (class mappings)"))
    else
      var cls :- MappedClasses(regex, rules, nodename, []);
      Ok(Named("class mappings for node " + nodename).(classes := cls))
  }

  /** The fold fails exactly when some rule fails, with the first rule's
      error, and otherwise appends everything offered in one go. */
  lemma {:induction false} MappedIsAppendOfOffered(regex: Regex, rules: seq<string>, nodename: string, acc: seq<string>)
    ensures var r, o := MappedClasses(regex, rules, nodename, acc), Offered(regex, rules, nodename);
      && (r.Err? <==> o.Err?)
      && (r.Err? ==> r.error == o.error)
      && (o.Ok? ==> r == Ok(Seqs.AppendAllNew(acc, o.value)))
    decreases |rules|
  {
    if rules != [] {
      var k := RuleClasses(regex, rules[0], nodename);
      if k.Ok? {
        var acc' := Seqs.AppendAllNew(acc, k.value);
        MappedIsAppendOfOffered(regex, rules[1..], nodename, acc');
        var o := Offered(regex, rules[1..], nodename);
        if o.Ok? {
          Seqs.AppendAllNewConcat(acc, k.value, o.value);
        }
      }
    }
  }

  /** The classes the mappings give a node are the offered class names with
      duplicates dropped, each at its first offer: no name twice, every
      offered name present, and names ordered by first offer. */
  lemma MappedClassesFirstSeen(regex: Regex, rules: seq<string>, nodename: string)
    requires MappingsEntity(regex, rules, nodename).Ok?
    ensures Offered(regex, rules, nodename).Ok?
    ensures var cls, o := MappingsEntity(regex, rules, nodename).value.classes, Offered(regex, rules, nodename).value;
      && Seqs.NoDup(cls)
      && (forall c :: c in cls <==> c in o)
      && (forall i, j :: 0 <= i < j < |cls| ==> Seqs.FirstIndex(o, cls[i]) < Seqs.FirstIndex(o, cls[j]))
  {
    MappedIsAppendOfOffered(regex, rules, nodename, []);
    var o := Offered(regex, rules, nodename);
    if rules != [] {
      Seqs.AppendAllNewFirstSeen([], o.value);
      assert [] + o.value == o.value;
    }
  }

  /** Without rules the node gets no classes from mappings and no error. */
  lemma NoRulesNoClasses(regex: Regex, nodename: string)
    ensures MappingsEntity(regex, [], nodename) == Ok(Named("empty (class mappings)"))
  {
  }

  /** A rule beginning with a slash whose first token lexes yields as key that
      token between slashes, and the remaining tokens as its classes. */
  lemma RegexKeyWrapped(instr: string)
    requires instr != "" && instr[0] == '/'
    requires ShlexSplit(instr).Ok?
    ensures var first := Lexer.NextToken(true, instr);
      && first.Ok? && first.value.token.Some?
      && ShlexSplit(instr).value.0 == Some("/" + first.value.token.value + "/")
      && Inner(ShlexSplit(instr).value.0.value) == first.value.token.value
      && Lexer.AllTokens(true, first.value.rest) == Ok(ShlexSplit(instr).value.1)
  {
    assert instr[1..] == instr[1..];
    Lexer.QuotedYieldsToken(true, instr[1..], Lexer.Quoted('/'), "", false);
    var t := Lexer.NextToken(true, instr).value.token.value;
    var key := "/" + t + "/";
    assert key[1..|key| - 1] == t;
  }

  /** The rule text `/R/ c1 c2 ...`, with `R` passing through a slash
      quotation unchanged and plain class names, splits into key `/R/` and
      exactly those class names. */
  lemma RegexRuleSplit(r: string, ws: seq<string>)
    requires Lexer.Verbatim(r, '/')
    requires forall i :: 0 <= i < |ws| ==> Lexer.IsPlainWord(true, ws[i])
    ensures ShlexSplit("/" + r + "/" + (if ws == [] then "" else " " + Lexer.SpaceJoined(ws)))
         == Ok((Some("/" + r + "/"), ws))
  {
    var tail := if ws == [] then "" else " " + Lexer.SpaceJoined(ws);
    var instr := "/" + r + "/" + tail;
    assert instr == ['/'] + (r + ['/'] + tail);
    Lexer.OpenQuote(true, '/', r + ['/'] + tail);
    Lexer.ReadQuotedRun(true, r, '/', tail, "", false);
    assert "" + r == r;
    Lexer.EndQuotedWord(true, tail, r);
    var rest := if tail == [] then [] else tail[1..];
    assert rest == Lexer.SpaceJoined(ws);
    assert Lexer.NextToken(true, instr) == Ok(Lexer.Lexed(Some(r), rest));
    Lexer.TokensOfJoinedWords(true, ws);
  }

  /** A rule of plain words not beginning with a slash splits into its first
      word as key and the other words as classes. */
  lemma PlainRuleSplit(ws: seq<string>)
    requires |ws| >= 1
    requires forall i :: 0 <= i < |ws| ==> Lexer.IsPlainWord(false, ws[i])
    requires |ws[0]| > 0 && ws[0][0] != '/'
    ensures ShlexSplit(Lexer.SpaceJoined(ws)) == Ok((Some(ws[0]), ws[1..]))
  {
    var instr := Lexer.SpaceJoined(ws);
    if |ws| == 1 {
      Lexer.ReadPlainWord(false, ws[0], "");
      assert ws[0] + "" == ws[0];
      assert Lexer.AllTokens(false, "") == Ok([]) by {
        assert Lexer.NextToken(false, "") == Ok(Lexer.Lexed(None, ""));
      }
    } else {
      var tail := Lexer.SpaceJoined(ws[1..]);
      assert instr == ws[0] + (" " + tail);
      Lexer.ReadPlainWord(false, ws[0], " " + tail);
      assert (" " + tail)[1..] == tail;
      Lexer.TokensOfJoinedWords(false, ws[1..]);
    }
  }

  /** A glob rule offers its classes exactly when the whole node name
      matches the pattern, and an ill-formed pattern is an error. */
  lemma GlobRuleOffers(regex: Regex, pattern: string, klasses: seq<string>, nodename: string)
    requires Lexer.IsPlainWord(false, pattern) && pattern[0] != '/'
    requires forall i :: 0 <= i < |klasses| ==> Lexer.IsPlainWord(false, klasses[i])
    ensures RuleClasses(regex, Lexer.SpaceJoined([pattern] + klasses), nodename)
         == match Glob.FnMatchCase(nodename, pattern)
            case None => Err(PatternError(pattern))
            case Some(m) => Ok(if m then klasses else [])
  {
    var ws := [pattern] + klasses;
    assert ws[1..] == klasses;
    PlainRuleSplit(ws);
  }

  /** A regular-expression rule searches the node name with the text between
      the slashes (an error if that does not compile) and, on a hit, offers each class name expanded against the
      match. */
  lemma RegexRuleOffers(regex: Regex, r: string, klasses: seq<string>, nodename: string)
    requires Lexer.Verbatim(r, '/')
    requires forall i :: 0 <= i < |klasses| ==> Lexer.IsPlainWord(true, klasses[i])
    ensures var rule := "/" + r + "/" + (if klasses == [] then "" else " " + Lexer.SpaceJoined(klasses));
      RuleClasses(regex, rule, nodename)
      == if !regex.compiles(r) then Err(PatternError(r))
         else if regex.search(r, nodename) then
           Ok(seq(|klasses|, i requires 0 <= i < |klasses| => regex.expand(r, nodename, klasses[i])))
         else Ok([])
  {
    RegexRuleSplit(r, klasses);
    var key := "/" + r + "/";
    assert key[0] == '/' && key[1..|key| - 1] == r;
  }

  /** A rule whose first token opens a quotation (or, in a rule starting
      with `/`, a slash) that never closes is a `MappingFormatError` naming
      the rule, whether the quotation opens the rule or follows a plain start
      `w` of the first word. */
  lemma UnterminatedFirstToken(w: string, q: char, rest: string)
    requires w == [] || (Lexer.IsPlainWord(false, w) && w[0] != '/')
    requires q in Lexer.Quotes(w == [] && q == '/')
    requires q !in rest
    ensures ShlexSplit(w + [q] + rest) == Err(MappingFormatError(FormatErrorMessage(w + [q] + rest)))
  {
    var instr := w + [q] + rest;
    if w == [] {
      assert instr == [q] + rest;
      var regexp := q == '/';
      Lexer.OpenQuote(regexp, q, rest);
      Lexer.UnterminatedQuote(regexp, rest, q, "", false);
    } else {
      var c, w1 := w[0], w[1..];
      var tail := [q] + rest;
      assert instr == [c] + (w1 + tail);
      assert instr[0] == c;
      assert Lexer.IsPlainWord(false, [c]);
      Lexer.StartWord(false, c, w1 + tail);
      assert |w1| == 0 || Lexer.IsPlainWord(false, w1) by {
        forall i | 0 <= i < |w1| ensures w1[i] == w[i + 1] { }
      }
      Lexer.ReadPlainPrefix(false, w1, tail, [c], false);
      assert tail[0] == q && tail[1..] == rest;
      Lexer.UnterminatedQuote(false, rest, q, [c] + w1, false);
    }
  }

  /** A quotation left open after the key is not reported as a
      `MappingFormatError`: the lexer's `ValueError` escapes instead. */
  lemma UnterminatedLaterToken(w: string, rest: string)
    requires Lexer.IsPlainWord(false, w) && w[0] != '/'
    requires '\'' !in rest
    ensures ShlexSplit(w + " '" + rest).Err?
    ensures ShlexSplit(w + " '" + rest).error.ValueError?
  {
    var instr := w + " '" + rest;
    assert instr == w + (" '" + rest);
    assert instr[0] == w[0];
    Lexer.ReadPlainWord(false, w, " '" + rest);
    var after := " '" + rest;
    assert after[1..] == "'" + rest;
    assert ("'" + rest)[0] == '\'' && ("'" + rest)[1..] == rest;
    Lexer.UnterminatedQuote(false, rest, '\'', "", false);
  }
}
