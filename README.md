# reclass resolution core in Dafny

This project models the core of reclass, which turns node and class
definitions into one merged entity per node. It covers:

- **class mappings**: rules of the form `matcher class1 class2 ...`, read with a POSIX shell-style lexer. The matcher is a glob or a `/regex/`. The classes offered by the matching rules are appended to the node, each only once.
- **the class walk**: the recursive descent over each entity's classes. Each class is fetched once per node; a missing class can be skipped when it matches the ignore pattern. Every descent is merged into an accumulator in class-list order, and the entity itself is merged last.
- **node information**: the base entity is assembled from the class mappings, the input data and the automatic `_reclass_` parameters. It is walked first; the node is then walked on top of it with the same `seen` set, and the result is interpolated against the exports.
- **the inventory**: every enumerated node is resolved. The inventory runs a second pass when the exports after the first pass differ from the simple rendering of the stored exports. That can happen even when interpolation changed nothing, if the stored exports were not already in simple form. It builds reverse indexes from class and application names to node names.
- **export references** (`$[...]`): the key, the export path, and the values collected from every node whose export tree holds that path.

### How the pieces are modelled

- The Python `Classes` container becomes the class `Entities.Classes`, which is updated in place by `AppendIfNew`.
- The storage becomes `Core.Storage`, with a mutable `exports` field.
- The shared `seen` dictionary becomes `Core.Seen`. It carries ghost logs of the classes fetched and the classes skipped.
- The engine becomes the class `Core.Core`. Its loops (`_get_class_mappings_entity`, `_recurse_entity`, the node loops and the index loop of `inventory`) are `method`s with `while` loops. Each method is proved equal to a specification function:
  - `ClassMappings.MappingsEntity`;
  - `ClassWalk.ResolveEntity` and `ClassWalk.ResolveClasses`;
  - `Core.Core.NodeInfoSpec`;
  - `Core.Core.EntitiesFrom` and `Core.Core.InventoryPasses`.
- The properties of those functions are proved as lemmas.
- `ExpItem` is the class `ExpItems.ExpItem`. Its `_key` and `render` loops are methods proved equal to `ExpItems.Concat` and `ExpItems.Collect`.

### Collaborators outside this core

These are parameters of the model. The `Entities.Ops` record holds them as function values:

- the regular-expression engine (`compiles`, `search`, `match` at the start, `expand`);
- `Entity.merge` and `merge_parameters`;
- `interpolate`;
- `render_simple`.

The glob matcher (`fnmatch.fnmatchcase`) and the lexer (`shlex` in POSIX mode with `whitespace_split`) are modelled in full.

### Behaviour of the code worth knowing

The model follows the code on these points:

- **A backslash in a class name.** Rules are read by the POSIX lexer (reclass/core.py:52-53). Outside quotes, that lexer drops a backslash and keeps the character after it. So a rule such as `/^(\w+)-\d+\..*$/ role::\1` hands `expand` the class template `role::1`, not `role::\1`. `Lexer.EscapeOutsideQuotes` proves this for every plain word. A back-reference must be written `role::\\1`, or placed in double quotes.
- **Which parse errors become `MappingFormatError`.** Only a failure while reading the first token is turned into a `MappingFormatError` (reclass/core.py:60-64). An unterminated quote in a later token escapes as the lexer's own `ValueError` (reclass/core.py:67); see `ClassMappings.UnterminatedLaterToken`.
- **The node name in `ClassNotFound`.** A class missing during the base pass is reported with the base entity's name, not the node's (reclass/core.py:146-147 and 116). `Core.Core.NodeWalkErrors` states this.

## Model

| member | source | states |
|---|---|---|
| Seqs.AppendIfNew | reclass/core.py:84-85 | the result extends the list, holds exactly the old members plus the new one, keeps the list free of duplicates, and is unchanged when the name is already present |
| Seqs.AppendAllNewFirstSeen | reclass/core.py:73-85 | appending names one by one with append-if-new yields each offered name once, in first-offer order |
| Seqs.AppendAllNewConcat | reclass/core.py:73-85 | appending the classes of rule after rule is the same as appending all of their offers at once |
| Seqs.RepeatCount | reclass/core.py:201-210 | a run of `n` copies of a node holds that node exactly `n` times and nothing else |
| Entities.Named | reclass/core.py:71 | an entity created with only a name has no classes and no applications |
| Entities.Classes.constructor | reclass/core.py:72 | a new class list is empty |
| Entities.Classes.AppendIfNew | reclass/core.py:84-85 | `append_if_new` updates the list in place to the append-if-new of the old list and keeps it free of duplicates |
| Strings.Join | reclass/core.py:110-111 | definition (no contract): `join` of the ignore patterns with a vertical bar, the parts with the separator between neighbours |
| Strings.Split | reclass/core.py:134 | `split` at a one-character separator, never an empty list; definition otherwise |
| Strings.FirstPart | reclass/core.py:134 | the first field of `split('.')` is the name up to its first dot, with no dot in it |
| Strings.JoinSplit | reclass/values/expitem.py:43 | joining the fields of a split with the delimiter restores the key |
| Strings.SplitJoin | reclass/values/expitem.py:43 | splitting the delimiter-joined, delimiter-free fields gives the fields back |
| Strings.SplitPartsFree | reclass/values/expitem.py:43 | no field of a split contains the delimiter |
| Values.PathOf | reclass/values/expitem.py:43 | a path parsed from a key has at least one component |
| Values.ExistsIn | reclass/values/expitem.py:46 | definition (no contract): `exists_in`, every key of the path present in the mapping reached so far |
| Values.GetValue | reclass/values/expitem.py:26-30 | definition (no contract): `get_value`, the value the path leads to, or none where a key is missing |
| Values.ExistsInAgrees | reclass/values/expitem.py:46-47 | `exists_in` holds exactly when `get_value` finds a value, so the guarded lookup never raises `KeyError` |
| Glob.Translate | reclass/core.py:47-48 | definition (no contract): `fnmatch.translate` as a token list, or none for a reversed bracket range |
| Glob.Matches | reclass/core.py:47-48 | definition (no contract): the translated expression matches the whole name |
| Glob.FnMatchCase | reclass/core.py:47-48 | definition (no contract): `fnmatchcase(nodename, key)`, the match of the translation, or none when it does not compile |
| Glob.CloseBracket | reclass/core.py:47-48 | the bracket expression's end is the first `]` at or after the start, or the end of the pattern |
| Glob.Literals | reclass/core.py:47-48 | a literal pattern translates to one literal per character |
| Glob.TranslateLiteral | reclass/core.py:47-48 | characters other than `*`, `?` and `[` translate to themselves |
| Glob.MatchLiterals | reclass/core.py:47-48 | literals followed by more tokens match a name exactly when the name begins with those characters and the rest matches |
| Glob.StarMatchesAll | reclass/core.py:47-48 | `*` matches every node name |
| Glob.LiteralPatternMatchesItself | reclass/core.py:47-48 | a glob without wildcards matches exactly the name equal to it, case-sensitively and over the whole name |
| Glob.PrefixStarMatchesPrefixed | reclass/core.py:47-48 | `prefix*` matches exactly the names beginning with `prefix` |
| Glob.QuestionMarkMatchesOneChar | reclass/core.py:47-48 | `?` matches exactly the one-character names |
| Glob.GlobExamples | reclass/core.py:83 | `web-*` matches `web-01.example.org` and `db-*` does not |
| Lexer.ReadToken | reclass/core.py:60-64 | reading a token consumes input, and its only failure is a `ValueError` |
| Lexer.NextToken | reclass/core.py:61 | every token read consumes at least one character |
| Lexer.AllTokens | reclass/core.py:67 | definition (no contract): `list(lexer)`, every remaining token in order, or the lexer's `ValueError` |
| Lexer.ReadPlainRun | reclass/core.py:53 | inside a word, a run of plain characters is appended to the token, and a space or the end of input ends it |
| Lexer.ReadPlainWord | reclass/core.py:53 | a plain word followed by a space or the end of input is one token |
| Lexer.TokensOfJoinedWords | reclass/core.py:67 | the tokens of space-separated plain words are exactly those words, in order |
| Lexer.UnterminatedQuote | reclass/core.py:60-64 | input that never closes the open quotation fails |
| Lexer.QuotedYieldsToken | reclass/core.py:61 | once a quotation is entered, a successful read yields a token, even an empty one |
| Lexer.ReadQuotedRun | reclass/core.py:57-58 | inside a slash or double quotation, text that needs no escaping is kept verbatim up to the closing quote |
| Lexer.ReadPlainPrefix | reclass/core.py:53 | the plain start of a word is carried into the token unchanged |
| Lexer.EscapeOutsideQuotes | reclass/core.py:52-53 | a backslash between plain text is removed from the token and the character after it is kept |
| ClassMappings.ShlexSplit | reclass/core.py:51-67 | definition (no contract): the first token, slash-wrapped in regexp mode, and the remaining tokens; a failure on the first token is `MappingFormatError` |
| ClassMappings.RuleClasses | reclass/core.py:42-85 | definition (no contract): the classes one rule offers, expanded for a matching regexp and verbatim for a matching glob |
| ClassMappings.MappedClasses | reclass/core.py:73-85 | definition (no contract): the rules in order, each offered class appended unless present |
| ClassMappings.MappingsEntity | reclass/core.py:69-88 | definition (no contract): `empty (class mappings)` without rules, otherwise the entity of the mapped classes |
| ClassMappings.FormatErrorMessage | reclass/core.py:63-64 | the error message embeds the whole rule text at a fixed position |
| ClassMappings.Inner | reclass/core.py:77 | the regex is the key with its first and last character removed |
| ClassMappings.MappedIsAppendOfOffered | reclass/core.py:73-85 | the loop fails exactly when a rule fails, with the first failing rule's error; otherwise it appends every offered class |
| ClassMappings.MappedClassesFirstSeen | reclass/core.py:69-88 | the mapped classes have no duplicates, are exactly the offered names, and are ordered by first offer |
| ClassMappings.NoRulesNoClasses | reclass/core.py:70-71 | no rules give the entity `empty (class mappings)` |
| ClassMappings.RegexKeyWrapped | reclass/core.py:65-67 | a `/` rule's key is its first token between slashes, the inner text is that token, and the classes are the remaining tokens |
| ClassMappings.RegexRuleSplit | reclass/core.py:56-67 | `/R/ c1 c2 ...` splits into the key `/R/` and the class names |
| ClassMappings.PlainRuleSplit | reclass/core.py:60-67 | a glob rule of plain words splits into its first word and the rest |
| ClassMappings.GlobRuleOffers | reclass/core.py:82-85 | a glob rule offers its classes unchanged if the glob matches the node, none if it does not, and fails on an invalid pattern |
| ClassMappings.RegexRuleOffers | reclass/core.py:76-80 | a regex rule fails when the regex does not compile; on a search hit it offers every class expanded against the match; otherwise none |
| ClassMappings.UnterminatedFirstToken | reclass/core.py:60-64 | a first token that opens a quotation (or a slash) that never closes is a `MappingFormatError` naming the rule. This holds whether the quotation opens the rule or follows a plain start of the first word |
| ClassMappings.UnterminatedLaterToken | reclass/core.py:67 | an unclosed quotation after the first token surfaces as a `ValueError`, not as a `MappingFormatError` |
| ClassWalk.ResolveEntity | reclass/core.py:96-130 | definition (no contract): the entity's classes walked into the base, then the entity merged last |
| ClassWalk.ResolveClasses | reclass/core.py:104-124 | definition (no contract): the loop over the class list from a position: skip seen classes, fetch, skip or fail on a missing one, descend and merge |
| ClassWalk.DescentBase | reclass/core.py:100-101 | a fresh merge base has no classes and no applications |
| ClassWalk.ExtendsTrans | reclass/core.py:104-124 | the ways the walk state may grow compose |
| ClassWalk.EntityBookkeeping | reclass/core.py:96-130 | a walk fails only with `ClassNotFound` for a stored-nowhere, non-skippable class under the given node name, or with the ignore pattern's compile error; a successful walk only grows `seen` and the logs, and it only skips missing, skippable names |
| ClassWalk.ClassesBookkeeping | reclass/core.py:104-124 | the same, for the loop over one level's classes |
| ClassWalk.EntityFetchesOnce | reclass/core.py:104-124 | no class is fetched twice, and every class fetched ends in `seen` |
| ClassWalk.ClassesFetchOnce | reclass/core.py:104-124 | the same, for the loop over one level's classes |
| ClassWalk.FetchStep | reclass/core.py:119-124 | fetching a new class, walking it and marking it seen keeps the fetch-once invariant of the level |
| ClassWalk.ClassesFold | reclass/core.py:119-124 | the accumulator is the base with each merged descent folded in, in class-list order, each class once |
| ClassWalk.TraceStep | reclass/core.py:123-124 | merging one descent and marking it seen keeps the fold's invariant |
| ClassWalk.EntityFold | reclass/core.py:96-130 | an entity's walk merges its classes' descents in list order, each once, and the entity itself last, so its own values win |
| ClassWalk.ClassesAccounted | reclass/core.py:104-124 | after a successful walk of one level, every class listed from the current position on is in `seen`, or is missing from storage and matches the ignore pattern |
| ClassWalk.EntityAccounted | reclass/core.py:96-130 | a successful walk of an entity accounts for every class it lists: each is in `seen`, or is missing and matches the ignore pattern |
| ClassWalk.MissingClassFails | reclass/core.py:105-117 | a class that is reached unseen, is missing from storage and does not match the ignore pattern fails the walk. The error is `ClassNotFound` naming the class and the walk's node name, or the compile error of an invalid ignore pattern |
| ClassWalk.TraceAvoidsSeen | reclass/core.py:104-105 | a class already in `seen` is not merged again |
| Core.Storage.PutExports | reclass/core.py:167 | the stored exports become the given ones |
| Core.Seen.constructor | reclass/core.py:145 | `seen` starts empty |
| Core.ShortName | reclass/core.py:134 | the short name is the longest dot-free prefix of the node name, and it is shorter exactly when the name has a dot |
| Core.AsDict | reclass/core.py:153-161 | the node dictionary carries the node's name and the entity's name, uri, environment, classes, applications, parameters and exports |
| Core.AddToIndex | reclass/core.py:201-210 | every key's list gains the node once per occurrence of that key, and a new list is never empty |
| Core.IndexStep | reclass/core.py:199-210 | adding one node's keys extends an index of the nodes processed so far to one that includes that node |
| Core.BuildInventory | reclass/core.py:196-210 | one dictionary per node; each class and application index lists every node exactly as often as that node lists the key, and no other node |
| Core.Core.constructor | reclass/core.py:26-37 | a single ignore pattern becomes a one-element list and a list is kept; the defaults give no input data, do not ignore missing classes and use `['*']` |
| Core.Core.GetClassMappingsEntity | reclass/core.py:69-88 | the loop with `append_if_new` computes the mapping entity of the rules in order |
| Core.Core.InputDataEntity | reclass/core.py:90-94 | no input data gives `empty (input data)`; otherwise the entity `input data` carries the data as its parameters |
| Core.Core.AutomaticParameters | reclass/core.py:132-136 | with automatic parameters on, `_reclass_:name:full` is the node name and `_reclass_:name:short` is its short name; with them off, it is empty |
| Core.Core.RecurseEntity | reclass/core.py:96-130 | the in-place walk returns the walk's result or error and leaves `seen` in the walk's final state |
| Core.Core.BaseEntity | reclass/core.py:140-144 | definition (no contract): `base` merged with the class-mappings entity, the input-data entity and the automatic parameters |
| Core.Core.NodeWalk | reclass/core.py:139-149 | definition (no contract): the base walk from an empty `seen`, then the node walk on its result with the same `seen` |
| Core.Core.NodeInfoSpec | reclass/core.py:139-151 | definition (no contract): the node walk's result interpolated against the exports |
| Core.Core.NodeInfoEntity | reclass/core.py:139-151 | a missing node is `NodeNotFound`; otherwise the base and node walks share `seen` and the result is interpolated |
| Core.Core.NodeFetchesOnce | reclass/core.py:145-149 | across both walks of a node no class is fetched twice, every fetched class is stored and in `seen`, and only missing, skippable names are skipped |
| Core.Core.NodeWalkErrors | reclass/core.py:139-149 | a missing node is `NodeNotFound` and a failing class-mapping rule is that rule's error; an error of the base walk is the node's error and names the base entity; an error after a successful base walk names the node |
| Core.Core.NodeClassesAccounted | reclass/core.py:139-149 | after a successful node walk, every class of the base entity and of the node is stored and in `seen`, or is missing and matches the ignore pattern. A listed class that is missing and does not match makes the node fail |
| Core.Core.NodeMergeOrder | reclass/core.py:141-149 | the base entity is merged over its classes, the node's classes are merged over that, and the node itself last; no class is merged in both passes |
| Core.Core.NodeInfo | reclass/core.py:172-178 | returns the node's dictionary and stores the interpolated exports when they differ from the simple rendering of the stored ones |
| Core.Core.UpdateExports | reclass/core.py:163-170 | writes and reports a change exactly when old and new differ |
| Core.Core.EntitiesFrom | reclass/core.py:185-186 | definition (no contract): one pass over the enumerated nodes from a position, threading the exports |
| Core.Core.InventoryPasses | reclass/core.py:180-194 | definition (no contract): the first pass, and a second one exactly when `_update_exports` reports a change |
| Core.Core.StoredAfter | reclass/core.py:187 | definition (no contract): the stored exports after the first pass, replaced only on a change |
| Core.Core.ComputeEntities | reclass/core.py:185-186 | one pass over the enumerated nodes, threading the exports through |
| Core.Core.Inventory | reclass/core.py:180-216 | the nodes of the last pass with both reverse indexes; the stored exports are replaced only when the first pass changed them |
| Core.Core.EntitiesCoverNodes | reclass/core.py:185-186 | each pass gives an entity to every enumerated node and to nothing else |
| Core.Core.StableExportsOnePass | reclass/core.py:187-194 | when interpolation does not change the exports and they are already simple, there is no second pass and storage stays as it was |
| Core.Core.ExportsUnchanged | reclass/core.py:185-186 | when interpolation leaves the exports alone, so does a whole pass |
| ExpItems.Concat | reclass/values/expitem.py:32-38 | definition (no contract): the parts' contents one after the other |
| ExpItems.Collect | reclass/values/expitem.py:40-51 | definition (no contract): the tagged values of the nodes whose tree holds the path, in node order |
| ExpItems.ConcatAppend | reclass/values/expitem.py:35-38 | the key of joined parts is the joined keys |
| ExpItems.ConcatSingle | reclass/values/expitem.py:33-34 | one part's key is its contents |
| ExpItems.ExportPath | reclass/values/expitem.py:43-44 | the export path is the key's path without its first component |
| ExpItems.Tag | reclass/values/expitem.py:48-49 | with tagging on, a mapping gains `_node_` set to the node and keeps every other entry; any other value is unchanged |
| ExpItems.HitsExact | reclass/values/expitem.py:45-46 | the hit positions increase and are exactly the nodes whose export tree holds the path |
| ExpItems.CollectAtHits | reclass/values/expitem.py:45-50 | the rendered list has one element per hit, in node order: the value at the path, tagged |
| ExpItems.CollectUntagged | reclass/values/expitem.py:45-50 | without tagging, every rendered element is the value at the path in some node's tree |
| ExpItems.ExpItem.constructor | reclass/values/expitem.py:16-18 | stores the parts and the delimiter |
| ExpItems.ExpItem.Resolve | reclass/values/expitem.py:26-30 | the value at the path, or `UndefinedVariableError` carrying the key exactly when the path is absent |
| ExpItems.ExpItem.Key | reclass/values/expitem.py:32-38 | the single-part shortcut and the loop both give the concatenation of the parts |
| ExpItems.ExpItem.Render | reclass/values/expitem.py:40-51 | the method collects exactly the tagged values, in node order, never fails, and does not consult the context |

## Left out

- Regular expressions are not interpreted. `re.search`, `re.match`, `re.compile` and `match.expand` are function values in `Entities.Regex`. Compile failure is the predicate `compiles`.
  - Python's default ignore pattern `['*']` is in fact not a valid regular expression. That fact is visible here only through `compiles`.
  - Whether a regex search across the whole name matches is left to the engine.
- `Entity.merge`, `merge_parameters`, `interpolate` and `render_simple` are function values in `Entities.Ops`. Their internals (deep merge, reference resolution) are not part of this model, and neither is `reclass/datatypes`.
- The inventory clock (`_get_timestamp`) is left out. `Core.NodeDict` and `Core.InventoryDict` have no timestamp field.
- The comparison of YAML dumps in `_update_exports` is modelled as equality of parameter values.
- The stderr warning for a skipped class is not printed. The skipped class is recorded in the ghost `skipped` log of `Core.Seen`.
- Core.Core.RecurseEntity: requires a ranked (acyclic) class graph. On a cycle of classes that are not yet in `seen`, the source recurses until CPython's recursion limit and then raises `RuntimeError` (maximum recursion depth exceeded). The model excludes that case through the `Ranked` precondition rather than modelling the error.
- `copy.deepcopy` is left out, because Dafny values are immutable. As a consequence the aliasing between `exports` and the storage's copy is implicit.
- The storage back ends (`get_node`, `get_class`, `enumerate_nodes`, `get_exports`, `put_exports`) are not modelled. `Core.Storage` stands for them: two maps of definitions, an enumeration order and the stored exports.
- ExpItems.ExpItem.Render: the iteration order of the `exports` dictionary is given as the order of an association list.
- Core.BuildInventory: Python's dictionary iteration order is unspecified. The reverse indexes are stated up to order, by the number of times each node appears.
- `Core.Core.inputData` treats `None` and the empty mapping the same, as both are falsy in the source. They are the empty map here.
- Values.PathOf: `DictPath` escaping of the delimiter and list indices in paths are not modelled. A path is the key split at the delimiter and follows mappings only. `reclass/utils/dictpath.py` is not part of this model.
- `_match_regexp` and `_match_glob` have no members of their own. They are the `search` field and `Glob.FnMatchCase` as used by `ClassMappings.RuleClasses`.
- `reclass/cli.py` is not part of this model.
- `ExpItem.__repr__` is left out, because it only formats text for display.
- `matched.expand(klass)` raises on a bad group reference such as `\9` (reclass/core.py:80). The model's `expand` is a total function, so such a rule has no error here.
- `ExpItem._key` fails with a `TypeError` when a part's contents are not text (reclass/values/expitem.py:36-37). `ExpItems.Item` holds text only, so the model rules that case out.
- Python 2 strings are bytes, but the model's strings are sequences of Unicode characters. Names and rules outside ASCII can therefore differ from the source in `Glob.SetItems` ranges and in lexing.
