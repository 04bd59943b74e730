/** Entities, the ordered class list, and the collaborators whose internals
    are not part of this model (merge, interpolation, regular expressions). */
module Entities {
  import opened Errors
  import opened Values
  import Seqs

  /** A node or class definition, merged or not. */
  datatype Entity = Entity(
    name: string,
    uri: string,
    environment: Option<string>,
    classes: seq<string>,
    applications: seq<string>,
    parameters: Value,
    exports: Value)

  /** `Entity(name=...)`: an entity with nothing but a diagnostic name. */
  function Named(name: string): (e: Entity)
    ensures e.name == name && e.classes == [] && e.applications == []
  {
    Entity(name, "", None, [], [], EmptyDict, EmptyDict)
  }

  /** `Classes`: an ordered collection of class names in which a duplicate
      insertion changes nothing. */
  class Classes {
    var items: seq<string>

    ghost predicate Valid()
      reads this
    {
      Seqs.NoDup(items)
    }

    constructor ()
      ensures Valid() && items == []
    {
      items := [];
    }

    /** `append_if_new`. */
    method AppendIfNew(c: string)
      requires Valid()
      modifies this
      ensures Valid()
      ensures items == Seqs.AppendIfNew(old(items), c)
    {
      if c !in items {
        items := items + [c];
      }
    }
  }

  /** The regular-expression engine, left uninterpreted:
      `compiles(pattern)` says whether `re.compile(pattern)` succeeds,
      `search(pattern, s)` is `re.search(pattern, s)` being truthy,
      `expand(pattern, s, template)` is `m.expand(template)` for that match,
      `matchStart(pattern, s)` is `re.compile(pattern).match(s)` being truthy. */
  datatype Regex = Regex(
    compiles: string -> bool,
    search: (string, string) -> bool,
    expand: (string, string, string) -> string,
    matchStart: (string, string) -> bool)

  /** The operations the core sequences but whose internals are not modelled:
      `merge(base, other)` is the new value of `base` after `base.merge(other)`,
      `mergeParameters(e, p)` that of `e` after `e.merge_parameters(p)`,
      `interpolate(e, nodename, exports)` the new entity and export tree after
      `e.interpolate(nodename, exports)`, `renderSimple(t)` the tree after
      `t.render_simple()`. */
  datatype Ops = Ops(
    regex: Regex,
    merge: (Entity, Entity) -> Entity,
    mergeParameters: (Entity, Value) -> Entity,
    interpolate: (Entity, string, Value) -> Result<(Entity, Value)>,
    renderSimple: Value -> Value)
}
