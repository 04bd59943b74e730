/** Export references (`$[...]`): the key assembled from the reference's
    parts, the export path it names, and the values collected from every
    node whose export tree holds that path. */
module ExpItems {
  import opened Errors
  import opened Values

  /** A part of a reference; its contents are text. */
  datatype Item = Item(contents: string)

  /** The contents of the parts, in order, one after the other. */
  function Concat(items: seq<Item>): string
    decreases |items|
  {
    if items == [] then "" else Concat(items[..|items| - 1]) + items[|items| - 1].contents
  }

  /** Concatenation distributes over joining the part lists. */
  lemma {:induction false} ConcatAppend(a: seq<Item>, b: seq<Item>)
    ensures Concat(a + b) == Concat(a) + Concat(b)
    decreases |b|
  {
    if b == [] {
      assert a + b == a;
    } else {
      var b0 := b[..|b| - 1];
      assert (a + b)[..|a + b| - 1] == a + b0;
      assert (a + b)[|a + b| - 1] == b[|b| - 1];
      ConcatAppend(a, b0);
    }
  }

  /** One part contributes exactly its contents. */
  lemma ConcatSingle(x: Item)
    ensures Concat([x]) == x.contents
  {
    assert [x][..0] == [];
  }

  /** The export path of a key: the key split at the delimiter, with the
      first component (the export namespace) dropped. */
  function ExportPath(delimiter: char, key: string): (p: Path)
    ensures [PathOf(delimiter, key)[0]] + p == PathOf(delimiter, key)
  {
    PathOf(delimiter, key)[1..]
  }

  /** The collected copy of a value: a mapping gets `_node_` set to the
      contributing node when tagging is on; anything else is unchanged. */
  function Tag(v: Value, node: string, tagNodes: bool): (r: Value)
    ensures !(tagNodes && v.Dict?) ==> r == v
    ensures tagNodes && v.Dict? ==>
      && r.Dict? && r.entries.Keys == v.entries.Keys + {"_node_"}
      && r.entries["_node_"] == Leaf(Str(node))
      && (forall k :: k in v.entries && k != "_node_" ==> r.entries[k] == v.entries[k])
  {
    if tagNodes && v.Dict? then Dict(v.entries["_node_" := Leaf(Str(node))]) else v
  }

  /** What `render` collects from the first nodes of `exports`, in their
      iteration order. */
  function Collect(path: Path, exports: seq<(string, Value)>, tagNodes: bool): seq<Value>
    decreases |exports|
  {
    if exports == [] then []
    else
      var rest := Collect(path, exports[..|exports| - 1], tagNodes);
      var (node, tree) := exports[|exports| - 1];
      if ExistsIn(path, tree) then
        ExistsInAgrees(path, tree);
        rest + [Tag(GetValue(path, tree).value, node, tagNodes)]
      else rest
  }

  /** The positions of the nodes whose tree holds the path, in order. */
  function Hits(path: Path, exports: seq<(string, Value)>): seq<nat>
    decreases |exports|
  {
    if exports == [] then []
    else
      var rest := Hits(path, exports[..|exports| - 1]);
      if ExistsIn(path, exports[|exports| - 1].1) then rest + [|exports| - 1] else rest
  }

  /** The hit positions are increasing, within range, and are exactly the
      nodes whose tree holds the path. */
  lemma {:induction false} HitsExact(path: Path, exports: seq<(string, Value)>)
    ensures var h := Hits(path, exports);
      && (forall a, b :: 0 <= a < b < |h| ==> h[a] < h[b])
      && (forall a :: 0 <= a < |h| ==> h[a] < |exports|)
      && (forall j :: 0 <= j < |exports| ==> (j in h <==> ExistsIn(path, exports[j].1)))
    decreases |exports|
  {
    if exports != [] {
      var pre := exports[..|exports| - 1];
      HitsExact(path, pre);
      var h0 := Hits(path, pre);
      var h := Hits(path, exports);
      forall j | 0 <= j < |exports|
        ensures j in h <==> ExistsIn(path, exports[j].1)
      {
        if j < |exports| - 1 {
          assert exports[j] == pre[j];
          assert j in h <==> j in h0;
        }
      }
    }
  }

  /** `render` yields one element per hit, in iteration order: the value
      at the path in that node's tree, tagged with the node. */
  lemma {:induction false} CollectAtHits(path: Path, exports: seq<(string, Value)>, tagNodes: bool)
    ensures var r := Collect(path, exports, tagNodes);
      var h := Hits(path, exports);
      && |r| == |h| <= |exports|
      && (forall a :: 0 <= a < |h| ==>
            && h[a] < |exports|
            && GetValue(path, exports[h[a]].1).Some?
            && r[a] == Tag(GetValue(path, exports[h[a]].1).value, exports[h[a]].0, tagNodes))
    decreases |exports|
  {
    if exports != [] {
      var pre := exports[..|exports| - 1];
      CollectAtHits(path, pre, tagNodes);
      var r0 := Collect(path, pre, tagNodes);
      var h0 := Hits(path, pre);
      var r := Collect(path, exports, tagNodes);
      var h := Hits(path, exports);
      var last := exports[|exports| - 1];
      if ExistsIn(path, last.1) {
        ExistsInAgrees(path, last.1);
        assert r == r0 + [Tag(GetValue(path, last.1).value, last.0, tagNodes)];
        assert h == h0 + [|exports| - 1];
      }
      forall a | 0 <= a < |h0|
        ensures exports[h0[a]] == pre[h0[a]]
      {
      }
    }
  }

  /** Without tagging every rendered element is exactly the value at the
      path in a node whose tree holds it. */
  lemma CollectUntagged(path: Path, exports: seq<(string, Value)>)
    ensures forall v :: v in Collect(path, exports, false) ==>
      exists j :: 0 <= j < |exports| && GetValue(path, exports[j].1) == Some(v)
  {
    CollectAtHits(path, exports, false);
    var r := Collect(path, exports, false);
    var h := Hits(path, exports);
    forall v | v in r
      ensures exists j :: 0 <= j < |exports| && GetValue(path, exports[j].1) == Some(v)
    {
      var a :| 0 <= a < |r| && r[a] == v;
      assert GetValue(path, exports[h[a]].1) == Some(v);
    }
  }

  /** An export reference `$[...]`. */
  class ExpItem {
    const delimiter: char
    const items: seq<Item>

    constructor (items: seq<Item>, delimiter: char)
      ensures this.items == items && this.delimiter == delimiter
    {
      this.items := items;
      this.delimiter := delimiter;
    }

    /** `contents`: the parts. */
    function Contents(): (r: seq<Item>)
      ensures r == items
    {
      items
    }

    /** `has_exports`: an export reference always depends on the exports. */
    predicate HasExports()
      ensures HasExports()
    {
      true
    }

    /** `_resolve`: the value at the path, or `UndefinedVariableError`
        carrying the key when the path is absent. */
    function Resolve(path: Path, key: string, dictionary: Value): (r: Result<Value>)
      ensures r.Ok? <==> ExistsIn(path, dictionary)
      ensures r.Err? ==> r.error == UndefinedVariableError(key)
      ensures r.Ok? ==> GetValue(path, dictionary) == Some(r.value)
    {
      ExistsInAgrees(path, dictionary);
      match GetValue(path, dictionary)
      case Some(v) => Ok(v)
      case None => Err(UndefinedVariableError(key))
    }

    /** `_key`: the single part's contents, or all parts concatenated. */
    method Key() returns (s: string)
      ensures s == Concat(items)
    {
      if |items| == 1 {
        ConcatSingle(items[0]);
        assert items == [items[0]];
        return items[0].contents;
      }
      s := "";
      var i := 0;
      while i < |items|
        invariant 0 <= i <= |items|
        invariant s == Concat(items[..i])
      {
        assert items[..i + 1][..i] == items[..i];
        s := s + items[i].contents;
        i := i + 1;
      }
      assert items[..i] == items;
    }

    /** `render`: the collected values of every node, in iteration order,
        whose export tree holds the path; the context is not consulted and
        no lookup fails. */
    method Render(context: Value, exports: seq<(string, Value)>, tagNodes: bool) returns (r: seq<Value>)
      ensures r == Collect(ExportPath(delimiter, Concat(items)), exports, tagNodes)
    {
      var result: seq<Value> := [];
      var key := Key();
      var path := ExportPath(delimiter, key);
      var i := 0;
      while i < |exports|
        invariant 0 <= i <= |exports|
        invariant result == Collect(path, exports[..i], tagNodes)
      {
        var (node, tree) := exports[i];
        assert exports[..i + 1][..i] == exports[..i];
        if ExistsIn(path, tree) {
          var value := Resolve(path, key, tree);
          result := result + [Tag(value.value, node, tagNodes)];
        }
        i := i + 1;
      }
      assert exports[..i] == exports;
      r := result;
    }
  }
}
