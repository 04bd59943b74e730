/** The resolution engine: a node's entity assembled from its class
    mappings, input data, automatic parameters and class walk, and the
    inventory of all nodes with its reverse indexes from class and
    application names to node names. */
module Core {
  import opened Errors
  import opened Values
  import opened Entities
  import Seqs
  import Strings
  import ClassMappings
  import opened ClassWalk

  /** The storage back end: node and class definitions, the order in which
      it enumerates nodes, and the export tree it keeps. */
  class Storage {
    const nodes: map<string, Entity>
    const classes: map<string, Entity>
    const nodeOrder: seq<string>
    var exports: Value

    constructor (nodes: map<string, Entity>, classes: map<string, Entity>, nodeOrder: seq<string>, exports: Value)
      ensures this.nodes == nodes && this.classes == classes && this.nodeOrder == nodeOrder
      ensures this.exports == exports
    {
      this.nodes := nodes;
      this.classes := classes;
      this.nodeOrder := nodeOrder;
      this.exports := exports;
    }

    /** `put_exports`. */
    method PutExports(v: Value)
      modifies this
      ensures exports == v
    {
      exports := v;
    }
  }

  /** The dictionary `seen` shared by the walks of one node, with ghost logs
      of the storage lookups that succeeded and of the classes skipped. */
  class Seen {
    var names: set<string>
    ghost var fetched: seq<string>
    ghost var skipped: seq<string>

    constructor ()
      ensures names == {} && fetched == [] && skipped == []
    {
      names := {};
      fetched := [];
      skipped := [];
    }

    ghost function State(): WalkState
      reads this
    {
      WalkState(names, fetched, skipped)
    }
  }

  /** `ignore_class_regexp` as passed: one pattern or a list of them. */
  datatype PatternArg = One(pattern: string) | Many(patterns: seq<string>)

  /** The first part of the node name up to its first dot. */
  function ShortName(nodename: string): (s: string)
    ensures |s| <= |nodename| && nodename[..|s|] == s
    ensures '.' !in s
    ensures '.' in nodename <==> |s| < |nodename|
    ensures |s| < |nodename| ==> nodename[|s|] == '.'
  {
    Strings.FirstPart(nodename, '.');
    Strings.Split(nodename, '.')[0]
  }

  /** `_nodeinfo_as_dict` without the timestamp. */
  datatype NodeDict = NodeDict(
    node: string,
    name: string,
    uri: string,
    environment: Option<string>,
    classes: seq<string>,
    applications: seq<string>,
    parameters: Value,
    exports: Value)

  function AsDict(nodename: string, e: Entity): (d: NodeDict)
    ensures d.name == nodename && d.node == e.name
    ensures d.uri == e.uri && d.environment == e.environment
    ensures d.classes == e.classes && d.applications == e.applications
    ensures d.parameters == e.parameters && d.exports == e.exports
  {
    NodeDict(e.name, nodename, e.uri, e.environment, e.classes, e.applications, e.parameters, e.exports)
  }

  /** What `inventory` returns, without the timestamp. */
  datatype InventoryDict = InventoryDict(
    nodes: map<string, NodeDict>,
    classes: map<string, seq<string>>,
    applications: map<string, seq<string>>)

  /** The reverse index `idx` lists node `f` once per occurrence of `k` in
      the list `keyed(f)` of every processed node `f`, and only those. */
  ghost predicate Indexes(idx: map<string, seq<string>>, done: set<string>, keyed: string -> seq<string>) {
    && (forall k, f :: multiset(Seqs.Lookup(idx, k))[f] == if f in done then multiset(keyed(f))[k] else 0)
    && (forall k :: k in idx ==> |idx[k]| > 0)
  }

  /** Appends `f` to the index list of each of `keys`, creating lists as
      needed. */
  method AddToIndex(idx: map<string, seq<string>>, keys: seq<string>, f: string) returns (r: map<string, seq<string>>)
    ensures forall k :: Seqs.Lookup(r, k) == Seqs.Lookup(idx, k) + Seqs.Repeat(f, multiset(keys)[k])
    ensures forall k :: k in r <==> k in idx || k in keys
    ensures forall k :: k in r && k !in idx ==> |r[k]| > 0
  {
    r := idx;
    var j := 0;
    while j < |keys|
      invariant 0 <= j <= |keys|
      invariant forall k :: Seqs.Lookup(r, k) == Seqs.Lookup(idx, k) + Seqs.Repeat(f, multiset(keys[..j])[k])
      invariant forall k :: k in r <==> k in idx || k in keys[..j]
      invariant forall k :: k in r && k !in idx ==> |r[k]| > 0
    {
      AddStepCounts(idx, r, keys, j, f);
      AddStepKeys(idx, r, keys, j, f);
      r := r[keys[j] := Seqs.Lookup(r, keys[j]) + [f]];
      j := j + 1;
    }
    assert keys[..j] == keys;
  }

  /** One step of `AddToIndex`: the counts. */
  lemma AddStepCounts(idx: map<string, seq<string>>, r: map<string, seq<string>>, keys: seq<string>, j: nat, f: string)
    requires j < |keys|
    requires forall k :: Seqs.Lookup(r, k) == Seqs.Lookup(idx, k) + Seqs.Repeat(f, multiset(keys[..j])[k])
    ensures var r' := r[keys[j] := Seqs.Lookup(r, keys[j]) + [f]];
      forall k :: Seqs.Lookup(r', k) == Seqs.Lookup(idx, k) + Seqs.Repeat(f, multiset(keys[..j + 1])[k])
  {
    var pre, a := keys[..j], keys[j];
    IndexAppendStep(idx, r, multiset(pre), a, f);
    assert keys[..j + 1] == pre + [a];
    assert multiset(keys[..j + 1]) == multiset(pre) + multiset{a};
  }

  /** One step of `AddToIndex`: the keys. */
  lemma AddStepKeys(idx: map<string, seq<string>>, r: map<string, seq<string>>, keys: seq<string>, j: nat, f: string)
    requires j < |keys|
    requires forall k :: k in r <==> k in idx || k in keys[..j]
    requires forall k :: k in r && k !in idx ==> |r[k]| > 0
    ensures var r' := r[keys[j] := Seqs.Lookup(r, keys[j]) + [f]];
      && (forall k :: k in r' <==> k in idx || k in keys[..j + 1])
      && (forall k :: k in r' && k !in idx ==> |r'[k]| > 0)
  {
    assert keys[..j + 1] == keys[..j] + [keys[j]];
  }

  /** Appending `f` to the list of `a` adds one to the count of `a`. */
  lemma IndexAppendStep(idx: map<string, seq<string>>, r: map<string, seq<string>>, cnt: multiset<string>, a: string, f: string)
    requires forall k :: Seqs.Lookup(r, k) == Seqs.Lookup(idx, k) + Seqs.Repeat(f, cnt[k])
    ensures var r' := r[a := Seqs.Lookup(r, a) + [f]];
      forall k :: Seqs.Lookup(r', k) == Seqs.Lookup(idx, k) + Seqs.Repeat(f, (cnt + multiset{a})[k])
  {
    var r' := r[a := Seqs.Lookup(r, a) + [f]];
    forall k
      ensures Seqs.Lookup(r', k) == Seqs.Lookup(idx, k) + Seqs.Repeat(f, (cnt + multiset{a})[k])
    {
      var n := cnt[k];
      if k == a {
        assert (cnt + multiset{a})[k] == n + 1;
        assert Seqs.Lookup(idx, k) + Seqs.Repeat(f, n) + [f] == Seqs.Lookup(idx, k) + (Seqs.Repeat(f, n) + [f]);
      } else {
        assert (cnt + multiset{a})[k] == n;
      }
    }
  }

  /** Adding the keys of node `f` to an index of the nodes in `done`. */
  lemma IndexStep(idx: map<string, seq<string>>, r: map<string, seq<string>>, done: set<string>,
                  keyed: string -> seq<string>, f: string)
    requires Indexes(idx, done, keyed) && f !in done
    requires forall k :: Seqs.Lookup(r, k) == Seqs.Lookup(idx, k) + Seqs.Repeat(f, multiset(keyed(f))[k])
    requires forall k :: k in r && k !in idx ==> |r[k]| > 0
    requires forall k :: k in r <==> k in idx || k in keyed(f)
    ensures Indexes(r, done + {f}, keyed)
  {
    forall k, g
      ensures multiset(Seqs.Lookup(r, k))[g] == if g in done + {f} then multiset(keyed(g))[k] else 0
    {
      Seqs.RepeatCount(f, multiset(keyed(f))[k], g);
      assert multiset(Seqs.Lookup(r, k)) == multiset(Seqs.Lookup(idx, k)) + multiset(Seqs.Repeat(f, multiset(keyed(f))[k]));
    }
    forall k | k in r
      ensures |r[k]| > 0
    {
      if k in idx {
        assert Seqs.Lookup(r, k) == r[k] && Seqs.Lookup(idx, k) == idx[k];
      }
    }
  }

  /** The loop of `inventory` over the entities: each node's dictionary
      under its name, and every node appended to the index list of each
      class and each application it lists. The entities are visited in an
      unspecified order. */
  method BuildInventory(ents: map<string, Entity>) returns (r: InventoryDict)
    ensures r.nodes.Keys == ents.Keys
    ensures forall f :: f in ents ==> r.nodes[f] == AsDict(f, ents[f])
    ensures Indexes(r.classes, ents.Keys, f => if f in ents then ents[f].classes else [])
    ensures Indexes(r.applications, ents.Keys, f => if f in ents then ents[f].applications else [])
  {
    ghost var byClass: string -> seq<string> := f => if f in ents then ents[f].classes else [];
    ghost var byApp: string -> seq<string> := f => if f in ents then ents[f].applications else [];
    var nodes: map<string, NodeDict> := map[];
    var applications: map<string, seq<string>> := map[];
    var classes: map<string, seq<string>> := map[];
    var remaining := ents.Keys;
    while remaining != {}
      invariant remaining <= ents.Keys
      invariant nodes.Keys == ents.Keys - remaining
      invariant forall f :: f in nodes ==> nodes[f] == AsDict(f, ents[f])
      invariant Indexes(classes, ents.Keys - remaining, byClass)
      invariant Indexes(applications, ents.Keys - remaining, byApp)
      decreases remaining
    {
      var f :| f in remaining;
      var d := AsDict(f, ents[f]);
      nodes := nodes[f := d];
      var apps := AddToIndex(applications, d.applications, f);
      IndexStep(applications, apps, ents.Keys - remaining, byApp, f);
      applications := apps;
      var cls := AddToIndex(classes, d.classes, f);
      IndexStep(classes, cls, ents.Keys - remaining, byClass, f);
      classes := cls;
      assert ents.Keys - (remaining - {f}) == (ents.Keys - remaining) + {f};
      remaining := remaining - {f};
    }
    assert ents.Keys - remaining == ents.Keys;
    r := InventoryDict(nodes, classes, applications);
  }

  /** The engine: configuration fixed at construction and a storage whose
      exports it may rewrite. */
  class Core {
    const storage: Storage
    const classMappings: seq<string>
    /** The input data; the empty mapping also stands for none given. */
    const inputData: map<string, Value>
    const ignoreClassNotFound: bool
    const ignoreClassRegexp: seq<string>
    const ops: Ops
    /** `AUTOMATIC_RECLASS_PARAMETERS`. */
    const automaticReclassParameters: bool
    /** A ranking witnessing that no class reaches itself. */
    ghost const rank: map<string, nat>

    constructor (storage: Storage, classMappings: seq<string>, ops: Ops,
                 automaticReclassParameters: bool, ghost rank: map<string, nat>,
                 inputData: map<string, Value> := map[], ignoreClassNotFound: bool := false, ignoreClassRegexp: PatternArg := Many(["*"]))
      requires Ranked(storage.classes, rank)
      ensures this.storage == storage && this.classMappings == classMappings && this.inputData == inputData
      ensures this.ops == ops && this.automaticReclassParameters == automaticReclassParameters
      ensures this.rank == rank && this.ignoreClassNotFound == ignoreClassNotFound
      ensures this.ignoreClassRegexp == match ignoreClassRegexp case One(p) => [p] case Many(ps) => ps
      ensures Valid()
    {
      this.storage := storage;
      this.classMappings := classMappings;
      this.inputData := inputData;
      this.ignoreClassNotFound := ignoreClassNotFound;
      this.ignoreClassRegexp := match ignoreClassRegexp case One(p) => [p] case Many(ps) => ps;
      this.ops := ops;
      this.automaticReclassParameters := automaticReclassParameters;
      this.rank := rank;
    }

    /** The class graph in storage is ranked. */
    ghost predicate Valid() {
      Ranked(storage.classes, rank)
    }

    /** What the class walk consults. */
    function Env(): WalkEnv {
      WalkEnv(storage.classes, ops.merge, ignoreClassNotFound, ignoreClassRegexp, ops.regex)
    }

    /** The bound of a walk started from a node or the base entity. */
    function Top(): nat {
      |storage.classes|
    }

    /** Under a ranking every stored class ranks below `Top()`. */
    lemma BelowTop(cls: seq<string>)
      requires Valid()
      ensures BelowBound(Env(), rank, cls, Top())
    {
    }

    /** `_get_class_mappings_entity`: the rules applied in order, each
        offered class appended unless already present. */
    method GetClassMappingsEntity(nodename: string) returns (r: Result<Entity>)
      ensures r == ClassMappings.MappingsEntity(ops.regex, classMappings, nodename)
    {
      if classMappings == [] {
        return Ok(Named("empty (class mappings)"));
      }
      var c := new Classes();
      var i := 0;
      while i < |classMappings|
        invariant 0 <= i <= |classMappings|
        invariant c.Valid()
        invariant ClassMappings.MappedClasses(ops.regex, classMappings[i..], nodename, c.items)
               == ClassMappings.MappedClasses(ops.regex, classMappings, nodename, [])
      {
        var offered := ClassMappings.RuleClasses(ops.regex, classMappings[i], nodename);
        if offered.Err? {
          return Err(offered.error);
        }
        var ks := offered.value;
        ghost var start := c.items;
        var j := 0;
        while j < |ks|
          invariant 0 <= j <= |ks|
          invariant c.Valid()
          invariant c.items == Seqs.AppendAllNew(start, ks[..j])
        {
          assert ks[..j + 1][..j] == ks[..j];
          c.AppendIfNew(ks[j]);
          j := j + 1;
        }
        assert ks[..j] == ks;
        assert classMappings[i..][1..] == classMappings[i + 1..];
        i := i + 1;
      }
      r := Ok(Named("class mappings for node " + nodename).(classes := c.items));
    }

    /** `_get_input_data_entity`. */
    function InputDataEntity(): (e: Entity)
      ensures inputData == map[] ==> e == Named("empty (input data)")
      ensures inputData != map[] ==> e.name == "input data" && e.parameters == Dict(inputData) && e.classes == []
    {
      if inputData == map[] then Named("empty (input data)")
      else Named("input data").(parameters := Dict(inputData))
    }

    /** `_get_automatic_parameters`: the full and short node name under
        `_reclass_`, or nothing when automatic parameters are off. */
    function AutomaticParameters(nodename: string): (v: Value)
      ensures !automaticReclassParameters ==> v == EmptyDict
      ensures automaticReclassParameters ==>
        && GetValue(["_reclass_", "name", "full"], v) == Some(Leaf(Str(nodename)))
        && GetValue(["_reclass_", "name", "short"], v) == Some(Leaf(Str(ShortName(nodename))))
    {
      if automaticReclassParameters then
        Dict(map["_reclass_" := Dict(map["name" := Dict(map["full" := Leaf(Str(nodename)), "short" := Leaf(Str(ShortName(nodename)))])])])
      else EmptyDict
    }

    /** `_recurse_entity`: walks the classes of `entity` not yet in `seen`,
        merging each descent into the base in list order, and finally the
        entity itself. */
    method RecurseEntity(entity: Entity, mergeBase: Option<Entity>, seen: Seen, nodename: string, ghost bound: nat)
      returns (r: Result<Entity>)
      requires Valid() && BelowBound(Env(), rank, entity.classes, bound)
      modifies seen
      ensures var base := if mergeBase.Some? then mergeBase.value else DescentBase(nodename);
        var spec := ResolveEntity(Env(), entity, base, old(seen.State()), nodename, rank, bound);
        && (r.Ok? <==> spec.Ok?)
        && (r.Ok? ==> r.value == spec.value.result && seen.State() == spec.value.state)
        && (r.Err? ==> r.error == spec.error)
      decreases bound
    {
      var acc := if mergeBase.Some? then mergeBase.value else DescentBase(nodename);
      ghost var base := acc;
      ghost var st0 := seen.State();
      ghost var trace: seq<(string, Entity)> := [];
      var cls := entity.classes;
      var i := 0;
      while i < |cls|
        invariant 0 <= i <= |cls|
        invariant ResolveClasses(Env(), cls, i, acc, seen.State(), nodename, rank, bound, trace)
               == ResolveClasses(Env(), cls, 0, base, st0, nodename, rank, bound, [])
      {
        var k := cls[i];
        if k !in seen.names {
          if k !in storage.classes {
            if ignoreClassNotFound {
              var pattern := Strings.Join(ignoreClassRegexp, "|");
              if !ops.regex.compiles(pattern) {
                return Err(PatternError(pattern));
              }
              if ops.regex.matchStart(pattern, k) {
                seen.skipped := seen.skipped + [k];
                i := i + 1;
                continue;
              }
            }
            return Err(ClassNotFound(k, nodename));
          }
          var classEntity := storage.classes[k];
          seen.fetched := seen.fetched + [k];
          var descent := RecurseEntity(classEntity, None, seen, nodename, rank[k]);
          if descent.Err? {
            return Err(descent.error);
          }
          acc := ops.merge(acc, descent.value);
          seen.names := seen.names + {k};
          trace := trace + [(k, descent.value)];
        }
        i := i + 1;
      }
      r := Ok(ops.merge(acc, entity));
    }

    /** The entity the base pass walks: the class mappings, the input data
        and the automatic parameters merged into an entity named `base`. */
    function BaseEntity(node: Entity, nodename: string): Result<Entity> {
      var m :- ClassMappings.MappingsEntity(ops.regex, classMappings, node.name);
      Ok(ops.mergeParameters(ops.merge(ops.merge(Named("base"), m), InputDataEntity()), AutomaticParameters(nodename)))
    }

    /** The two walks of `_nodeinfo`: the base entity first, then the node
        on top of its result, sharing one `seen`. */
    ghost function NodeWalk(nodename: string): Result<(Outcome, Outcome)>
      requires Valid()
    {
      if nodename !in storage.nodes then Err(NodeNotFound(nodename))
      else
        var node := storage.nodes[nodename];
        var b :- BaseEntity(node, nodename);
        BelowTop(b.classes);
        BelowTop(node.classes);
        var p :- ResolveEntity(Env(), b, DescentBase(b.name), WalkState({}, [], []), b.name, rank, Top());
        var q :- ResolveEntity(Env(), node, p.result, p.state, node.name, rank, Top());
        Ok((p, q))
    }

    /** `_nodeinfo`: the walked node interpolated against the exports,
        with the exports as interpolation leaves them. */
    ghost function NodeInfoSpec(nodename: string, exports: Value): Result<(Entity, Value)>
      requires Valid()
    {
      var w :- NodeWalk(nodename);
      ops.interpolate(w.1.result, nodename, exports)
    }

    /** `_nodeinfo`. */
    method NodeInfoEntity(nodename: string, exports: Value) returns (r: Result<(Entity, Value)>)
      requires Valid()
      ensures r == NodeInfoSpec(nodename, exports)
    {
      if nodename !in storage.nodes {
        return Err(NodeNotFound(nodename));
      }
      var node := storage.nodes[nodename];
      var baseEntity := Named("base");
      var m := GetClassMappingsEntity(node.name);
      if m.Err? {
        return Err(m.error);
      }
      baseEntity := ops.merge(baseEntity, m.value);
      baseEntity := ops.merge(baseEntity, InputDataEntity());
      baseEntity := ops.mergeParameters(baseEntity, AutomaticParameters(nodename));
      var seen := new Seen();
      BelowTop(baseEntity.classes);
      BelowTop(node.classes);
      var mergeBase := RecurseEntity(baseEntity, None, seen, baseEntity.name, Top());
      if mergeBase.Err? {
        return Err(mergeBase.error);
      }
      var ret := RecurseEntity(node, Some(mergeBase.value), seen, node.name, Top());
      if ret.Err? {
        return Err(ret.error);
      }
      r := ops.interpolate(ret.value, nodename, exports);
    }

    /** Within one node, no class is fetched from storage twice, across both
        walks, and every fetched class ends up in `seen`; every skipped name
        is missing from storage and matches the ignore pattern. */
    lemma NodeFetchesOnce(nodename: string)
      requires Valid()
      requires NodeWalk(nodename).Ok?
      ensures var q := NodeWalk(nodename).value.1.state;
        && Seqs.NoDup(q.fetched)
        && (forall f :: f in q.fetched ==> f in q.seen && f in storage.classes)
        && (forall s :: s in q.skipped ==> s !in storage.classes && Skippable(Env(), s))
    {
      var node := storage.nodes[nodename];
      var b := BaseEntity(node, nodename).value;
      BelowTop(b.classes);
      BelowTop(node.classes);
      var st0 := WalkState({}, [], []);
      EntityFetchesOnce(Env(), b, DescentBase(b.name), st0, b.name, rank, Top());
      EntityBookkeeping(Env(), b, DescentBase(b.name), st0, b.name, rank, Top());
      var p := ResolveEntity(Env(), b, DescentBase(b.name), st0, b.name, rank, Top()).value;
      EntityFetchesOnce(Env(), node, p.result, p.state, node.name, rank, Top());
      EntityBookkeeping(Env(), node, p.result, p.state, node.name, rank, Top());
      var q := ResolveEntity(Env(), node, p.result, p.state, node.name, rank, Top()).value;
      ExtendsTrans(Env(), st0, p.state, q.state);
      forall f | f in q.state.fetched
        ensures f in q.state.seen
      {
        var j :| 0 <= j < |q.state.fetched| && q.state.fetched[j] == f;
      }
      forall s | s in q.state.skipped
        ensures s !in storage.classes && Skippable(Env(), s)
      {
        var j :| 0 <= j < |q.state.skipped| && q.state.skipped[j] == s;
      }
    }

    /** Both passes account for every class they list: a successful walk
        leaves each class of the base entity and of the node stored and in
        `seen`, or missing and matching the ignore pattern. So a listed class
        that is missing and does not match fails the node. */
    lemma NodeClassesAccounted(nodename: string)
      requires Valid()
      ensures NodeWalk(nodename).Ok? ==>
        var node := storage.nodes[nodename];
        var b := BaseEntity(node, nodename).value;
        var q := NodeWalk(nodename).value.1.state;
        forall c :: c in b.classes || c in node.classes ==>
          (c in storage.classes && c in q.seen) || (c !in storage.classes && Skippable(Env(), c))
      ensures (nodename in storage.nodes && BaseEntity(storage.nodes[nodename], nodename).Ok? &&
               exists c :: (c in BaseEntity(storage.nodes[nodename], nodename).value.classes || c in storage.nodes[nodename].classes) &&
                           c !in storage.classes && !Skippable(Env(), c))
              ==> NodeWalk(nodename).Err?
    {
      if NodeWalk(nodename).Ok? {
        var node := storage.nodes[nodename];
        var b := BaseEntity(node, nodename).value;
        BelowTop(b.classes);
        BelowTop(node.classes);
        var st0 := WalkState({}, [], []);
        EntityAccounted(Env(), b, DescentBase(b.name), st0, b.name, rank, Top());
        EntityFetchesOnce(Env(), b, DescentBase(b.name), st0, b.name, rank, Top());
        var p := ResolveEntity(Env(), b, DescentBase(b.name), st0, b.name, rank, Top()).value;
        EntityAccounted(Env(), node, p.result, p.state, node.name, rank, Top());
        EntityFetchesOnce(Env(), node, p.result, p.state, node.name, rank, Top());
        EntityBookkeeping(Env(), node, p.result, p.state, node.name, rank, Top());
        var q := ResolveEntity(Env(), node, p.result, p.state, node.name, rank, Top()).value;
        assert NodeWalk(nodename).value.1.state == q.state;
        forall c | c in b.classes || c in node.classes
          ensures (c in storage.classes && c in q.state.seen) || (c !in storage.classes && Skippable(Env(), c))
        {
          if c in q.state.seen {
            assert c in q.state.fetched;
          }
        }
      }
    }

    /** How `_nodeinfo` fails: a missing node, a failing class-mapping
        rule, or a walk error of the pass it happened in. An error of the
        base pass ends the node and names the base entity; an error of the
        node pass names the node. */
    lemma NodeWalkErrors(nodename: string)
      requires Valid()
      ensures nodename !in storage.nodes ==> NodeWalk(nodename) == Err(NodeNotFound(nodename))
      ensures nodename in storage.nodes ==>
        var node := storage.nodes[nodename];
        var bb := BaseEntity(node, nodename);
        && (bb.Err? ==> NodeWalk(nodename) == Err(bb.error))
        && (bb.Ok? ==>
              var p := ResolveEntity(Env(), bb.value, DescentBase(bb.value.name), WalkState({}, [], []),
                                     bb.value.name, rank, Top());
              && (p.Err? ==> NodeWalk(nodename) == Err(p.error) && WalkError(Env(), p.error, bb.value.name))
              && (p.Ok? && NodeWalk(nodename).Err? ==> WalkError(Env(), NodeWalk(nodename).error, node.name)))
    {
      if nodename in storage.nodes {
        var node := storage.nodes[nodename];
        var bb := BaseEntity(node, nodename);
        if bb.Ok? {
          var b := bb.value;
          BelowTop(b.classes);
          BelowTop(node.classes);
          var st0 := WalkState({}, [], []);
          EntityBookkeeping(Env(), b, DescentBase(b.name), st0, b.name, rank, Top());
          var p := ResolveEntity(Env(), b, DescentBase(b.name), st0, b.name, rank, Top());
          if p.Ok? {
            EntityBookkeeping(Env(), node, p.value.result, p.value.state, node.name, rank, Top());
          }
        }
      }
    }

    /** The merge order of a node: the base pass's descents folded into a
        fresh base and the base entity on top; then the node's descents
        folded into that, and the node's own definitions last. */
    lemma NodeMergeOrder(nodename: string)
      requires Valid()
      requires NodeWalk(nodename).Ok?
      ensures var node := storage.nodes[nodename];
        var b := BaseEntity(node, nodename).value;
        var (p, q) := NodeWalk(nodename).value;
        && p.result == ops.merge(FoldMerge(ops.merge, DescentBase(b.name), p.trace), b)
        && q.result == ops.merge(FoldMerge(ops.merge, p.result, q.trace), node)
        && Seqs.IsSubseq(Names(p.trace), b.classes)
        && Seqs.IsSubseq(Names(q.trace), node.classes)
        && (forall j, l :: 0 <= j < |p.trace| && 0 <= l < |q.trace| ==> p.trace[j].0 != q.trace[l].0)
    {
      var node := storage.nodes[nodename];
      var b := BaseEntity(node, nodename).value;
      BelowTop(b.classes);
      BelowTop(node.classes);
      var st0 := WalkState({}, [], []);
      EntityFold(Env(), b, DescentBase(b.name), st0, b.name, rank, Top());
      var p := ResolveEntity(Env(), b, DescentBase(b.name), st0, b.name, rank, Top()).value;
      EntityFold(Env(), node, p.result, p.state, node.name, rank, Top());
      TraceAvoidsSeen(Env(), node.classes, 0, p.result, p.state, node.name, rank, Top(), []);
    }

    /** `nodeinfo`: one node's dictionary; the exports are rewritten when
        interpolation changed them from their simple rendering. */
    method NodeInfo(nodename: string) returns (r: Result<NodeDict>)
      requires Valid()
      modifies storage
      ensures var spec := NodeInfoSpec(nodename, old(storage.exports));
        && (r.Ok? <==> spec.Ok?)
        && (r.Ok? ==> r.value == AsDict(nodename, spec.value.0))
        && (r.Err? ==> r.error == spec.error)
        && storage.exports == if spec.Ok? && spec.value.1 != ops.renderSimple(old(storage.exports))
                              then spec.value.1 else old(storage.exports)
    {
      var original := storage.exports;
      var rendered := ops.renderSimple(original);
      var info := NodeInfoEntity(nodename, original);
      if info.Err? {
        return Err(info.error);
      }
      var changed := UpdateExports(rendered, info.value.1);
      r := Ok(AsDict(nodename, info.value.0));
    }

    /** `_update_exports`: writes the new exports when they differ from the
        old ones and tells whether they did. */
    method UpdateExports(old_: Value, new_: Value) returns (changed: bool)
      modifies storage
      ensures changed <==> old_ != new_
      ensures storage.exports == if changed then new_ else old(storage.exports)
    {
      if old_ != new_ {
        storage.PutExports(new_);
        return true;
      }
      return false;
    }

    /** The loop of `inventory` over the enumerated nodes from position `i`
        on: each node's entity under its name, the exports threaded from one
        node to the next. */
    ghost function EntitiesFrom(i: nat, ents: map<string, Entity>, exports: Value): Result<(map<string, Entity>, Value)>
      requires Valid() && i <= |storage.nodeOrder|
      decreases |storage.nodeOrder| - i
    {
      if i == |storage.nodeOrder| then Ok((ents, exports))
      else
        var n := storage.nodeOrder[i];
        var e :- NodeInfoSpec(n, exports);
        EntitiesFrom(i + 1, ents[n := e.0], e.1)
    }

    /** One pass of `inventory` over all nodes. */
    method ComputeEntities(exports: Value) returns (r: Result<(map<string, Entity>, Value)>)
      requires Valid()
      ensures r == EntitiesFrom(0, map[], exports)
    {
      var ents: map<string, Entity> := map[];
      var ex := exports;
      var i := 0;
      while i < |storage.nodeOrder|
        invariant 0 <= i <= |storage.nodeOrder|
        invariant EntitiesFrom(i, ents, ex) == EntitiesFrom(0, map[], exports)
      {
        var n := storage.nodeOrder[i];
        var e := NodeInfoEntity(n, ex);
        if e.Err? {
          return Err(e.error);
        }
        ents := ents[n := e.value.0];
        ex := e.value.1;
        i := i + 1;
      }
      r := Ok((ents, ex));
    }

    /** The passes of `inventory`: one, and a second from the exports the
        first left when they differ from the simple rendering of the stored
        ones. The result holds the entities of the last pass, its exports
        and whether a second pass ran. */
    ghost function InventoryPasses(stored: Value): Result<(map<string, Entity>, Value, bool)>
      requires Valid()
    {
      var first :- EntitiesFrom(0, map[], stored);
      if first.1 != ops.renderSimple(stored) then
        var second :- EntitiesFrom(0, map[], first.1);
        Ok((second.0, second.1, true))
      else Ok((first.0, first.1, false))
    }

    /** The exports in storage after `inventory`. */
    ghost function StoredAfter(stored: Value): Value
      requires Valid()
    {
      var first := EntitiesFrom(0, map[], stored);
      if first.Ok? && first.value.1 != ops.renderSimple(stored) then first.value.1 else stored
    }

    /** `inventory`: the entities of every node and the reverse indexes from
        class and application names to the nodes listing them. */
    method Inventory() returns (r: Result<InventoryDict>)
      requires Valid()
      modifies storage
      ensures var spec := InventoryPasses(old(storage.exports));
        && (r.Ok? <==> spec.Ok?)
        && (r.Err? ==> r.error == spec.error)
        && (r.Ok? ==>
             var ents := spec.value.0;
             && r.value.nodes.Keys == ents.Keys
             && (forall f :: f in ents ==> r.value.nodes[f] == AsDict(f, ents[f]))
             && Indexes(r.value.classes, ents.Keys, f => if f in ents then ents[f].classes else [])
             && Indexes(r.value.applications, ents.Keys, f => if f in ents then ents[f].applications else []))
      ensures storage.exports == StoredAfter(old(storage.exports))
    {
      var original := storage.exports;
      var rendered := ops.renderSimple(original);
      var first := ComputeEntities(original);
      if first.Err? {
        return Err(first.error);
      }
      var changed := UpdateExports(rendered, first.value.1);
      var ents := first.value.0;
      if changed {
        var second := ComputeEntities(first.value.1);
        if second.Err? {
          return Err(second.error);
        }
        ents := second.value.0;
      }
      var inv := BuildInventory(ents);
      r := Ok(inv);
    }

    /** Every enumerated node gets an entity, and nothing else does. */
    lemma EntitiesCoverNodes(i: nat, ents: map<string, Entity>, exports: Value)
      requires Valid() && i <= |storage.nodeOrder|
      requires EntitiesFrom(i, ents, exports).Ok?
      ensures forall n :: n in EntitiesFrom(i, ents, exports).value.0 <==> n in ents || n in storage.nodeOrder[i..]
      decreases |storage.nodeOrder| - i
    {
      if i < |storage.nodeOrder| {
        var n := storage.nodeOrder[i];
        var e := NodeInfoSpec(n, exports).value;
        EntitiesCoverNodes(i + 1, ents[n := e.0], e.1);
        assert storage.nodeOrder[i..] == [n] + storage.nodeOrder[i + 1..];
      }
    }

    /** When interpolation never changes the exports and they are already in
        their simple rendering, `inventory` makes one pass and leaves the
        stored exports alone. */
    lemma StableExportsOnePass(stored: Value)
      requires Valid()
      requires ops.renderSimple(stored) == stored
      requires forall e: Entity, n: string, x: Value :: ops.interpolate(e, n, x).Ok? ==> ops.interpolate(e, n, x).value.1 == x
      requires InventoryPasses(stored).Ok?
      ensures !InventoryPasses(stored).value.2
      ensures StoredAfter(stored) == stored
    {
      ExportsUnchanged(0, map[], stored);
    }

    lemma {:induction false} ExportsUnchanged(i: nat, ents: map<string, Entity>, exports: Value)
      requires Valid() && i <= |storage.nodeOrder|
      requires forall e: Entity, n: string, x: Value :: ops.interpolate(e, n, x).Ok? ==> ops.interpolate(e, n, x).value.1 == x
      ensures EntitiesFrom(i, ents, exports).Ok? ==> EntitiesFrom(i, ents, exports).value.1 == exports
      decreases |storage.nodeOrder| - i
    {
      if i < |storage.nodeOrder| {
        var n := storage.nodeOrder[i];
        var e := NodeInfoSpec(n, exports);
        if e.Ok? {
          var w := NodeWalk(n).value;
          assert ops.interpolate(w.1.result, n, exports) == e;
          ExportsUnchanged(i + 1, ents[n := e.value.0], e.value.1);
        }
      }
    }
  }
}
