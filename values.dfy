/** Parameter trees and the `DictPath` lookups the export items use. */
module Values {
  import opened Errors
  import Strings

  /** A scalar leaf of a parameter tree. */
  datatype Scalar = Str(s: string) | Int(i: int) | Bool(b: bool) | Null

  /** A parameter tree: scalars, string-keyed mappings and sequences. */
  datatype Value =
    | Leaf(scalar: Scalar)
    | Dict(entries: map<string, Value>)
    | List(items: seq<Value>)

  const EmptyDict: Value := Dict(map[])

  /** The parts of a `DictPath`: the keys to follow from the root. */
  type Path = seq<string>

  /** `DictPath(delimiter, contents)`: the contents split at the delimiter. */
  function PathOf(delimiter: char, contents: string): (p: Path)
    ensures |p| >= 1
  {
    Strings.Split(contents, delimiter)
  }

  /** `DictPath.exists_in`: every key of the path is present, each one in
      the mapping reached by the keys before it. */
  predicate ExistsIn(p: Path, container: Value)
    decreases |p|
  {
    p == [] ||
    (container.Dict? && p[0] in container.entries && ExistsIn(p[1..], container.entries[p[0]]))
  }

  /** `DictPath.get_value`: the value the path leads to; `None` stands for the
      `KeyError` raised when a key is missing. */
  function GetValue(p: Path, container: Value): Option<Value>
    decreases |p|
  {
    if p == [] then Some(container)
    else if container.Dict? && p[0] in container.entries then GetValue(p[1..], container.entries[p[0]])
    else None
  }

  /** `exists_in` and `get_value` agree: a lookup fails exactly when the path
      does not exist. */
  lemma {:induction false} ExistsInAgrees(p: Path, container: Value)
    ensures ExistsIn(p, container) <==> GetValue(p, container).Some?
    decreases |p|
  {
    if p != [] && container.Dict? && p[0] in container.entries {
      ExistsInAgrees(p[1..], container.entries[p[0]]);
    }
  }
}
