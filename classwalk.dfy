/** The class walk of `_recurse_entity`: the classes an entity lists are
    fetched from storage, walked recursively and merged in list order, each
    class at most once per node, before the entity itself is merged on top. */
module ClassWalk {
  import opened Errors
  import opened Entities
  import Seqs
  import Strings

  /** What the walk consults: the class definitions in storage, the merge,
      the missing-class policy and the regular-expression engine. */
  datatype WalkEnv = WalkEnv(
    classes: map<string, Entity>,
    merge: (Entity, Entity) -> Entity,
    ignoreNotFound: bool,
    ignoreRegexp: seq<string>,
    regex: Regex)

  /** The bookkeeping the walk threads through: `seen` is the shared
      dictionary of classes already merged; `fetched` and `skipped` log, in
      order, the storage lookups that succeeded and the missing classes that
      were skipped. */
  datatype WalkState = WalkState(seen: set<string>, fetched: seq<string>, skipped: seq<string>)

  /** A finished walk: the merged entity, the final bookkeeping and, for this
      level only, each merged class with the descent merged for it. */
  datatype Outcome = Outcome(result: Entity, state: WalkState, trace: seq<(string, Entity)>)

  /** The alternatives of the ignore list joined into one pattern. */
  function IgnorePattern(env: WalkEnv): string {
    Strings.Join(env.ignoreRegexp, "|")
  }

  /** A missing class is skipped when missing classes are ignored and the
      joined ignore pattern matches at the start of its name. */
  predicate Skippable(env: WalkEnv, k: string) {
    env.ignoreNotFound && env.regex.compiles(IgnorePattern(env)) && env.regex.matchStart(IgnorePattern(env), k)
  }

  /** The diagnostic name of the fresh base a descent merges into. */
  function DescentBase(nodename: string): (e: Entity)
    ensures e.classes == [] && e.applications == []
  {
    Named("empty (@" + nodename + ")")
  }

  /** `rank` orders the class graph: every class in storage has a rank below
      the number of classes, above the rank of every stored class it lists.
      Such a ranking exists exactly when no class reaches itself, which the
      walk needs to finish: `seen` is only updated after a descent returns. */
  ghost predicate Ranked(classes: map<string, Entity>, rank: map<string, nat>) {
    && (forall k :: k in classes ==> k in rank && rank[k] < |classes|)
    && (forall k, c :: k in classes && c in classes[k].classes && c in classes ==> rank[c] < rank[k])
  }

  /** Every stored class in `cls` ranks below `bound`. */
  ghost predicate BelowBound(env: WalkEnv, rank: map<string, nat>, cls: seq<string>, bound: nat) {
    forall c :: c in cls && c in env.classes ==> c in rank && rank[c] < bound
  }

  /** `_recurse_entity(entity, base, seen, nodename)`. */
  function ResolveEntity(env: WalkEnv, entity: Entity, base: Entity, st: WalkState, nodename: string,
                         rank: map<string, nat>, bound: nat): Result<Outcome>
    requires Ranked(env.classes, rank)
    requires BelowBound(env, rank, entity.classes, bound)
    decreases bound, 1, 0
  {
    var o :- ResolveClasses(env, entity.classes, 0, base, st, nodename, rank, bound, []);
    Ok(Outcome(env.merge(o.result, entity), o.state, o.trace))
  }

  /** The loop of `_recurse_entity` from position `i` of the class list on,
      with `acc` the merge base so far. */
  function ResolveClasses(env: WalkEnv, cls: seq<string>, i: nat, acc: Entity, st: WalkState, nodename: string,
                          rank: map<string, nat>, bound: nat, trace: seq<(string, Entity)>): Result<Outcome>
    requires Ranked(env.classes, rank)
    requires BelowBound(env, rank, cls, bound)
    requires i <= |cls|
    decreases bound, 0, |cls| - i
  {
    if i == |cls| then Ok(Outcome(acc, st, trace))
    else
      var k := cls[i];
      if k in st.seen then
        ResolveClasses(env, cls, i + 1, acc, st, nodename, rank, bound, trace)
      else if k !in env.classes then
        if env.ignoreNotFound && !env.regex.compiles(IgnorePattern(env)) then
          Err(PatternError(IgnorePattern(env)))
        else if Skippable(env, k) then
          ResolveClasses(env, cls, i + 1, acc, st.(skipped := st.skipped + [k]), nodename, rank, bound, trace)
        else
          Err(ClassNotFound(k, nodename))
      else
        var d :- ResolveEntity(env, env.classes[k], DescentBase(nodename), st.(fetched := st.fetched + [k]),
                               nodename, rank, rank[k]);
        ResolveClasses(env, cls, i + 1, env.merge(acc, d.result), d.state.(seen := d.state.seen + {k}),
                       nodename, rank, bound, trace + [(k, d.result)])
  }

  /** The class names of a trace. */
  function Names(t: seq<(string, Entity)>): (r: seq<string>)
    ensures |r| == |t| && forall j :: 0 <= j < |t| ==> r[j] == t[j].0
  {
    seq(|t|, j requires 0 <= j < |t| => t[j].0)
  }

  /** Merging the descents of a trace into `base`, first record first. */
  function FoldMerge(merge: (Entity, Entity) -> Entity, base: Entity, t: seq<(string, Entity)>): Entity
    decreases |t|
  {
    if t == [] then base else merge(FoldMerge(merge, base, t[..|t| - 1]), t[|t| - 1].1)
  }

  /** How the bookkeeping may change: `seen` only grows, the logs only grow,
      and every newly skipped name is missing from storage and skippable. */
  ghost predicate Extends(env: WalkEnv, st: WalkState, st': WalkState) {
    && st.seen <= st'.seen
    && Seqs.IsPrefix(st.fetched, st'.fetched)
    && Seqs.IsPrefix(st.skipped, st'.skipped)
    && (forall j :: |st.skipped| <= j < |st'.skipped| ==> st'.skipped[j] !in env.classes && Skippable(env, st'.skipped[j]))
  }

  /** The only ways the walk fails: a missing class that is not skipped,
      reported with the node name given to the walk, or an ignore pattern
      that does not compile. */
  ghost predicate WalkError(env: WalkEnv, e: Error, nodename: string) {
    || (e.ClassNotFound? && e.nodename == nodename && e.klass !in env.classes && !Skippable(env, e.klass))
    || (e == PatternError(IgnorePattern(env)) && env.ignoreNotFound && !env.regex.compiles(IgnorePattern(env)))
  }

  lemma ExtendsTrans(env: WalkEnv, a: WalkState, b: WalkState, c: WalkState)
    requires Extends(env, a, b) && Extends(env, b, c)
    ensures Extends(env, a, c)
  {
    assert c.fetched[..|a.fetched|] == b.fetched[..|a.fetched|];
    assert c.skipped[..|a.skipped|] == b.skipped[..|a.skipped|];
    forall j | |a.skipped| <= j < |c.skipped|
      ensures c.skipped[j] !in env.classes && Skippable(env, c.skipped[j])
    {
      if j < |b.skipped| {
        assert c.skipped[j] == b.skipped[j];
      }
    }
  }

  /** The walk of an entity fails only with a `WalkError`, and a successful
      one only extends the bookkeeping. */
  lemma {:induction false} EntityBookkeeping(env: WalkEnv, entity: Entity, base: Entity, st: WalkState, nodename: string,
                                             rank: map<string, nat>, bound: nat)
    requires Ranked(env.classes, rank)
    requires BelowBound(env, rank, entity.classes, bound)
    ensures var r := ResolveEntity(env, entity, base, st, nodename, rank, bound);
      && (r.Err? ==> WalkError(env, r.error, nodename))
      && (r.Ok? ==> Extends(env, st, r.value.state))
    decreases bound, 1, 0
  {
    ClassesBookkeeping(env, entity.classes, 0, base, st, nodename, rank, bound, []);
  }

  lemma {:induction false} ClassesBookkeeping(env: WalkEnv, cls: seq<string>, i: nat, acc: Entity, st: WalkState, nodename: string,
                                              rank: map<string, nat>, bound: nat, trace: seq<(string, Entity)>)
    requires Ranked(env.classes, rank)
    requires BelowBound(env, rank, cls, bound)
    requires i <= |cls|
    ensures var r := ResolveClasses(env, cls, i, acc, st, nodename, rank, bound, trace);
      && (r.Err? ==> WalkError(env, r.error, nodename))
      && (r.Ok? ==> Extends(env, st, r.value.state))
    decreases bound, 0, |cls| - i
  {
    if i < |cls| {
      var k := cls[i];
      if k in st.seen {
        ClassesBookkeeping(env, cls, i + 1, acc, st, nodename, rank, bound, trace);
      } else if k !in env.classes {
        if !(env.ignoreNotFound && !env.regex.compiles(IgnorePattern(env))) && Skippable(env, k) {
          var st1 := st.(skipped := st.skipped + [k]);
          ClassesBookkeeping(env, cls, i + 1, acc, st1, nodename, rank, bound, trace);
          var r := ResolveClasses(env, cls, i + 1, acc, st1, nodename, rank, bound, trace);
          if r.Ok? {
            assert Extends(env, st, st1) by {
              assert st1.skipped[..|st.skipped|] == st.skipped;
            }
            ExtendsTrans(env, st, st1, r.value.state);
          }
        }
      } else {
        var st1 := st.(fetched := st.fetched + [k]);
        EntityBookkeeping(env, env.classes[k], DescentBase(nodename), st1, nodename, rank, rank[k]);
        var d := ResolveEntity(env, env.classes[k], DescentBase(nodename), st1, nodename, rank, rank[k]);
        if d.Ok? {
          var st2 := d.value.state.(seen := d.value.state.seen + {k});
          var acc2 := env.merge(acc, d.value.result);
          ClassesBookkeeping(env, cls, i + 1, acc2, st2, nodename, rank, bound, trace + [(k, d.value.result)]);
          var r := ResolveClasses(env, cls, i + 1, acc2, st2, nodename, rank, bound, trace + [(k, d.value.result)]);
          if r.Ok? {
            assert Extends(env, st, st1) by {
              assert st1.fetched[..|st.fetched|] == st.fetched;
            }
            ExtendsTrans(env, st, st1, d.value.state);
            ExtendsTrans(env, st, d.value.state, st2);
            ExtendsTrans(env, st, st2, r.value.state);
          }
        }
      }
    }
  }

  /** The fetch-once invariant at a walk bounded by `bound`: no class has
      been fetched twice, everything fetched is a stored class that is either
      merged already (in `seen`) or an ancestor still being walked (ranked at
      or above the bound), and everything in `seen` was fetched. */
  ghost predicate FetchInv(env: WalkEnv, rank: map<string, nat>, st: WalkState, bound: nat) {
    && Seqs.NoDup(st.fetched)
    && (forall f :: f in st.fetched ==> f in env.classes && f in rank && (f in st.seen || rank[f] >= bound))
    && (forall k :: k in st.seen ==> k in st.fetched)
  }

  /** A walk keeps the fetch-once invariant, extends the fetch log and ends
      with everything it fetched in `seen`. */
  ghost predicate FetchGrows(env: WalkEnv, rank: map<string, nat>, st: WalkState, st': WalkState, bound: nat) {
    && FetchInv(env, rank, st', bound)
    && Seqs.IsPrefix(st.fetched, st'.fetched)
    && st.seen <= st'.seen
    && (forall j :: |st.fetched| <= j < |st'.fetched| ==> st'.fetched[j] in st'.seen)
  }

  lemma FetchGrowsTrans(env: WalkEnv, rank: map<string, nat>, a: WalkState, b: WalkState, c: WalkState, bound: nat)
    requires FetchGrows(env, rank, a, b, bound) && FetchGrows(env, rank, b, c, bound)
    ensures FetchGrows(env, rank, a, c, bound)
  {
    assert c.fetched[..|a.fetched|] == b.fetched[..|a.fetched|];
    forall j | |a.fetched| <= j < |c.fetched|
      ensures c.fetched[j] in c.seen
    {
      if j < |b.fetched| {
        assert c.fetched[j] == b.fetched[j];
      }
    }
  }

  /** Each class is fetched from storage at most once: the walk of an entity
      keeps the fetch-once invariant. */
  lemma {:induction false} EntityFetchesOnce(env: WalkEnv, entity: Entity, base: Entity, st: WalkState, nodename: string,
                                             rank: map<string, nat>, bound: nat)
    requires Ranked(env.classes, rank)
    requires BelowBound(env, rank, entity.classes, bound)
    requires FetchInv(env, rank, st, bound)
    ensures var r := ResolveEntity(env, entity, base, st, nodename, rank, bound);
      r.Ok? ==> FetchGrows(env, rank, st, r.value.state, bound)
    decreases bound, 1, 0
  {
    ClassesFetchOnce(env, entity.classes, 0, base, st, nodename, rank, bound, []);
  }

  lemma {:induction false} ClassesFetchOnce(env: WalkEnv, cls: seq<string>, i: nat, acc: Entity, st: WalkState, nodename: string,
                                            rank: map<string, nat>, bound: nat, trace: seq<(string, Entity)>)
    requires Ranked(env.classes, rank)
    requires BelowBound(env, rank, cls, bound)
    requires i <= |cls|
    requires FetchInv(env, rank, st, bound)
    ensures var r := ResolveClasses(env, cls, i, acc, st, nodename, rank, bound, trace);
      r.Ok? ==> FetchGrows(env, rank, st, r.value.state, bound)
    decreases bound, 0, |cls| - i
  {
    if i < |cls| {
      var k := cls[i];
      if k in st.seen {
        ClassesFetchOnce(env, cls, i + 1, acc, st, nodename, rank, bound, trace);
      } else if k !in env.classes {
        if !(env.ignoreNotFound && !env.regex.compiles(IgnorePattern(env))) && Skippable(env, k) {
          var st1 := st.(skipped := st.skipped + [k]);
          ClassesFetchOnce(env, cls, i + 1, acc, st1, nodename, rank, bound, trace);
        }
      } else {
        var st1 := st.(fetched := st.fetched + [k]);
        assert k !in st.fetched;
        assert FetchInv(env, rank, st1, rank[k]) by {
          forall a, b | 0 <= a < b < |st1.fetched| ensures st1.fetched[a] != st1.fetched[b] {
            if b == |st.fetched| {
              assert st1.fetched[a] == st.fetched[a];
            }
          }
        }
        EntityFetchesOnce(env, env.classes[k], DescentBase(nodename), st1, nodename, rank, rank[k]);
        var d := ResolveEntity(env, env.classes[k], DescentBase(nodename), st1, nodename, rank, rank[k]);
        if d.Ok? {
          var s := d.value.state;
          var st2 := s.(seen := s.seen + {k});
          FetchStep(env, rank, st, k, s, bound);
          var acc2 := env.merge(acc, d.value.result);
          ClassesFetchOnce(env, cls, i + 1, acc2, st2, nodename, rank, bound, trace + [(k, d.value.result)]);
          var r := ResolveClasses(env, cls, i + 1, acc2, st2, nodename, rank, bound, trace + [(k, d.value.result)]);
          if r.Ok? {
            FetchGrowsTrans(env, rank, st, st2, r.value.state, bound);
          }
        }
      }
    }
  }

  /** Fetching a new class `k` and walking it keeps the fetch-once
      invariant of the enclosing level once `k` is marked seen. */
  lemma FetchStep(env: WalkEnv, rank: map<string, nat>, st: WalkState, k: string, s: WalkState, bound: nat)
    requires FetchInv(env, rank, st, bound)
    requires k in env.classes && k in rank && k !in st.fetched
    requires FetchGrows(env, rank, st.(fetched := st.fetched + [k]), s, rank[k])
    ensures FetchGrows(env, rank, st, s.(seen := s.seen + {k}), bound)
  {
    var st1 := st.(fetched := st.fetched + [k]);
    var st2 := s.(seen := s.seen + {k});
    var n := |st.fetched|;
    assert s.fetched[..n + 1] == st1.fetched;
    assert s.fetched[..n] == st.fetched by {
      assert s.fetched[..n] == st1.fetched[..n];
    }
    assert s.fetched[n] == k;
    forall f | f in st2.fetched
      ensures f in env.classes && f in rank && (f in st2.seen || rank[f] >= bound)
    {
      var j :| 0 <= j < |s.fetched| && s.fetched[j] == f;
      if j < n {
        assert f == st.fetched[j];
        assert f in st.fetched;
      } else if j > n {
        assert f in s.seen;
      }
    }
    forall x | x in st2.seen
      ensures x in st2.fetched
    {
      if x == k {
        assert s.fetched[n] == k;
      }
    }
    forall j | n <= j < |st2.fetched|
      ensures st2.fetched[j] in st2.seen
    {
      if j > n {
        assert s.fetched[j] in s.seen;
      }
    }
  }

  /** The merge order of one level: the result is the base with the descent
      of every merged class folded in, in class-list order, each class once
      and each one stored and in `seen`. */
  lemma {:induction false} ClassesFold(env: WalkEnv, cls: seq<string>, i: nat, acc: Entity, st: WalkState, nodename: string,
                                       rank: map<string, nat>, bound: nat, trace: seq<(string, Entity)>, base: Entity)
    requires Ranked(env.classes, rank)
    requires BelowBound(env, rank, cls, bound)
    requires i <= |cls|
    requires acc == FoldMerge(env.merge, base, trace)
    requires Seqs.IsSubseq(Names(trace), cls[..i]) && Seqs.NoDup(Names(trace))
    requires forall j :: 0 <= j < |trace| ==> trace[j].0 in st.seen && trace[j].0 in env.classes
    ensures var r := ResolveClasses(env, cls, i, acc, st, nodename, rank, bound, trace);
      r.Ok? ==>
        && r.value.result == FoldMerge(env.merge, base, r.value.trace)
        && Seqs.IsPrefix(trace, r.value.trace)
        && Seqs.IsSubseq(Names(r.value.trace), cls) && Seqs.NoDup(Names(r.value.trace))
        && (forall j :: 0 <= j < |r.value.trace| ==> r.value.trace[j].0 in r.value.state.seen && r.value.trace[j].0 in env.classes)
    decreases |cls| - i
  {
    if i == |cls| {
      assert cls[..i] == cls;
    } else {
      var k := cls[i];
      assert cls[..i + 1] == cls[..i] + [k];
      if k in st.seen {
        Seqs.IsSubseqExtend(Names(trace), cls[..i], k);
        ClassesFold(env, cls, i + 1, acc, st, nodename, rank, bound, trace, base);
        PrefixTrans(trace, trace, ResolveClasses(env, cls, i, acc, st, nodename, rank, bound, trace));
      } else if k !in env.classes {
        if !(env.ignoreNotFound && !env.regex.compiles(IgnorePattern(env))) && Skippable(env, k) {
          var st1 := st.(skipped := st.skipped + [k]);
          Seqs.IsSubseqExtend(Names(trace), cls[..i], k);
          ClassesFold(env, cls, i + 1, acc, st1, nodename, rank, bound, trace, base);
          PrefixTrans(trace, trace, ResolveClasses(env, cls, i, acc, st, nodename, rank, bound, trace));
        }
      } else {
        var st1 := st.(fetched := st.fetched + [k]);
        EntityBookkeeping(env, env.classes[k], DescentBase(nodename), st1, nodename, rank, rank[k]);
        var d := ResolveEntity(env, env.classes[k], DescentBase(nodename), st1, nodename, rank, rank[k]);
        if d.Ok? {
          var st2 := d.value.state.(seen := d.value.state.seen + {k});
          var acc2 := env.merge(acc, d.value.result);
          var trace2 := trace + [(k, d.value.result)];
          TraceStep(env, cls, i, acc, st.seen, st2.seen, trace, d.value.result, base);
          ClassesFold(env, cls, i + 1, acc2, st2, nodename, rank, bound, trace2, base);
          PrefixTrans(trace, trace2, ResolveClasses(env, cls, i + 1, acc2, st2, nodename, rank, bound, trace2));
        }
      }
    }
  }

  /** One merged class in `ClassesFold`: the next trace meets the fold's
      requirements again. */
  lemma TraceStep(env: WalkEnv, cls: seq<string>, i: nat, acc: Entity, seen: set<string>, seen2: set<string>,
                  trace: seq<(string, Entity)>, descent: Entity, base: Entity)
    requires i < |cls| && cls[i] !in seen && cls[i] in env.classes
    requires seen <= seen2 && cls[i] in seen2
    requires acc == FoldMerge(env.merge, base, trace)
    requires Seqs.IsSubseq(Names(trace), cls[..i]) && Seqs.NoDup(Names(trace))
    requires forall j :: 0 <= j < |trace| ==> trace[j].0 in seen && trace[j].0 in env.classes
    ensures var trace2 := trace + [(cls[i], descent)];
      && env.merge(acc, descent) == FoldMerge(env.merge, base, trace2)
      && Seqs.IsSubseq(Names(trace2), cls[..i + 1]) && Seqs.NoDup(Names(trace2))
      && (forall j :: 0 <= j < |trace2| ==> trace2[j].0 in seen2 && trace2[j].0 in env.classes)
      && Seqs.IsPrefix(trace, trace2)
  {
    var k := cls[i];
    var trace2 := trace + [(k, descent)];
    assert Names(trace2) == Names(trace) + [k];
    assert trace2[..|trace2| - 1] == trace;
    assert k !in Names(trace);
    assert Names(trace2)[..|Names(trace2)| - 1] == Names(trace);
    assert (cls[..i + 1])[..i] == cls[..i];
  }

  lemma PrefixTrans(a: seq<(string, Entity)>, b: seq<(string, Entity)>, r: Result<Outcome>)
    requires Seqs.IsPrefix(a, b)
    requires r.Ok? ==> Seqs.IsPrefix(b, r.value.trace)
    ensures r.Ok? ==> Seqs.IsPrefix(a, r.value.trace)
  {
    if r.Ok? {
      assert r.value.trace[..|a|] == b[..|a|];
    }
  }

  /** The walk of one entity: the descents of its classes merged into the
      base in class-list order, each class once, and the entity itself merged
      last, so that its own values win over its classes'. */
  lemma EntityFold(env: WalkEnv, entity: Entity, base: Entity, st: WalkState, nodename: string,
                   rank: map<string, nat>, bound: nat)
    requires Ranked(env.classes, rank)
    requires BelowBound(env, rank, entity.classes, bound)
    ensures var r := ResolveEntity(env, entity, base, st, nodename, rank, bound);
      r.Ok? ==>
        && r.value.result == env.merge(FoldMerge(env.merge, base, r.value.trace), entity)
        && Seqs.IsSubseq(Names(r.value.trace), entity.classes) && Seqs.NoDup(Names(r.value.trace))
        && (forall j :: 0 <= j < |r.value.trace| ==> r.value.trace[j].0 in r.value.state.seen && r.value.trace[j].0 in env.classes)
  {
    assert Names([]) == [];
    ClassesFold(env, entity.classes, 0, base, st, nodename, rank, bound, [], base);
  }

  /** No class already in `seen` when a level starts is merged at that
      level. */
  lemma {:induction false} TraceAvoidsSeen(env: WalkEnv, cls: seq<string>, i: nat, acc: Entity, st: WalkState, nodename: string,
                                           rank: map<string, nat>, bound: nat, trace: seq<(string, Entity)>)
    requires Ranked(env.classes, rank)
    requires BelowBound(env, rank, cls, bound)
    requires i <= |cls|
    ensures var r := ResolveClasses(env, cls, i, acc, st, nodename, rank, bound, trace);
      r.Ok? ==> Seqs.IsPrefix(trace, r.value.trace) && forall j :: |trace| <= j < |r.value.trace| ==> r.value.trace[j].0 !in st.seen
    decreases |cls| - i
  {
    if i < |cls| {
      var k := cls[i];
      if k in st.seen {
        TraceAvoidsSeen(env, cls, i + 1, acc, st, nodename, rank, bound, trace);
      } else if k !in env.classes {
        if !(env.ignoreNotFound && !env.regex.compiles(IgnorePattern(env))) && Skippable(env, k) {
          TraceAvoidsSeen(env, cls, i + 1, acc, st.(skipped := st.skipped + [k]), nodename, rank, bound, trace);
        }
      } else {
        var st1 := st.(fetched := st.fetched + [k]);
        EntityBookkeeping(env, env.classes[k], DescentBase(nodename), st1, nodename, rank, rank[k]);
        var d := ResolveEntity(env, env.classes[k], DescentBase(nodename), st1, nodename, rank, rank[k]);
        if d.Ok? {
          var st2 := d.value.state.(seen := d.value.state.seen + {k});
          var trace2 := trace + [(k, d.value.result)];
          TraceAvoidsSeen(env, cls, i + 1, env.merge(acc, d.value.result), st2, nodename, rank, bound, trace2);
          var r := ResolveClasses(env, cls, i + 1, env.merge(acc, d.value.result), st2, nodename, rank, bound, trace2);
          if r.Ok? {
            var t := r.value.trace;
            assert t[..|trace|] == trace2[..|trace|] == trace;
            assert t[|trace|] == trace2[|trace|];
          }
        }
      }
    }
  }

  /** Every class listed from position `i` on is accounted for by a
      successful walk: it ends in `seen` (it was merged, now or earlier), or
      it is missing from storage and matches the ignore pattern. */
  lemma {:induction false} ClassesAccounted(env: WalkEnv, cls: seq<string>, i: nat, acc: Entity, st: WalkState, nodename: string,
                                            rank: map<string, nat>, bound: nat, trace: seq<(string, Entity)>)
    requires Ranked(env.classes, rank)
    requires BelowBound(env, rank, cls, bound)
    requires i <= |cls|
    ensures var r := ResolveClasses(env, cls, i, acc, st, nodename, rank, bound, trace);
      r.Ok? ==> forall j :: i <= j < |cls| ==>
        cls[j] in r.value.state.seen || (cls[j] !in env.classes && Skippable(env, cls[j]))
    decreases |cls| - i
  {
    if i < |cls| {
      var k := cls[i];
      if k in st.seen {
        ClassesAccounted(env, cls, i + 1, acc, st, nodename, rank, bound, trace);
        ClassesBookkeeping(env, cls, i + 1, acc, st, nodename, rank, bound, trace);
      } else if k !in env.classes {
        if !(env.ignoreNotFound && !env.regex.compiles(IgnorePattern(env))) && Skippable(env, k) {
          ClassesAccounted(env, cls, i + 1, acc, st.(skipped := st.skipped + [k]), nodename, rank, bound, trace);
        }
      } else {
        var d := ResolveEntity(env, env.classes[k], DescentBase(nodename), st.(fetched := st.fetched + [k]), nodename, rank, rank[k]);
        if d.Ok? {
          var st2 := d.value.state.(seen := d.value.state.seen + {k});
          var acc2 := env.merge(acc, d.value.result);
          var trace2 := trace + [(k, d.value.result)];
          ClassesAccounted(env, cls, i + 1, acc2, st2, nodename, rank, bound, trace2);
          ClassesBookkeeping(env, cls, i + 1, acc2, st2, nodename, rank, bound, trace2);
        }
      }
    }
  }

  /** A successful walk of an entity accounts for every class it lists. */
  lemma EntityAccounted(env: WalkEnv, entity: Entity, base: Entity, st: WalkState, nodename: string,
                        rank: map<string, nat>, bound: nat)
    requires Ranked(env.classes, rank)
    requires BelowBound(env, rank, entity.classes, bound)
    ensures var r := ResolveEntity(env, entity, base, st, nodename, rank, bound);
      r.Ok? ==> forall c :: c in entity.classes ==>
        c in r.value.state.seen || (c !in env.classes && Skippable(env, c))
  {
    ClassesAccounted(env, entity.classes, 0, base, st, nodename, rank, bound, []);
  }

  /** A class reached unseen that is missing from storage and does not
      match the ignore pattern fails the walk: with `ClassNotFound` naming it
      and the walk's node name, or with the ignore pattern's compile error
      when missing classes are ignored and the pattern does not compile. */
  lemma MissingClassFails(env: WalkEnv, cls: seq<string>, i: nat, acc: Entity, st: WalkState, nodename: string,
                          rank: map<string, nat>, bound: nat, trace: seq<(string, Entity)>)
    requires Ranked(env.classes, rank)
    requires BelowBound(env, rank, cls, bound)
    requires i < |cls| && cls[i] !in st.seen && cls[i] !in env.classes && !Skippable(env, cls[i])
    ensures ResolveClasses(env, cls, i, acc, st, nodename, rank, bound, trace)
         == if env.ignoreNotFound && !env.regex.compiles(IgnorePattern(env)) then Err(PatternError(IgnorePattern(env)))
            else Err(ClassNotFound(cls[i], nodename))
  {
  }
}
