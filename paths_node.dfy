/**
 * PathsNode as the mutable object of PathsGenerator: fromDefinition allocates
 * nodes and fills their maps, merge allocates a fresh node and mergeInto fills
 * that target in place. Each method is proved against the value model in PathsTree.
 */
module PathsNodes {
  import opened Wrappers
  import opened JavaStrings
  import opened Swagger
  import PathsTree

  class PathsNode {
    var partialPath: string
    /** The parameter class of a ParameterizedPathsNode; `None` for a plain PathsNode. */
    var theClass: Option<PathsTree.ParamClass>
    var nodes: map<string, PathsNode>
    var methods: map<string, Operation>

    /** The tree this node stands for, and the objects it is built from. */
    ghost var Value: PathsTree.Tree
    ghost var Repr: set<object>

    ghost predicate Valid()
      reads this, Repr
      ensures Valid() ==> this in Repr
      decreases Repr
    {
      && this in Repr
      && Value.partialPath == partialPath
      && Value.theClass == theClass
      && Value.methods == methods
      && (forall c :: c in nodes.Values ==>
            && c in Repr
            && c.Repr <= Repr
            && this !in c.Repr
            && c.Valid())
      && Value.nodes == map k | k in nodes :: nodes[k].Value
    }

    /** `new PathsNode()`: no children, no methods (the partial path is set by every creator before use). */
    constructor Init()
      ensures partialPath == "" && theClass == None && nodes == map[] && methods == map[]
      ensures Repr == {this} && Value == PathsTree.Tree("", None, map[], map[])
      ensures Valid()
    {
      partialPath, theClass, nodes, methods := "", None, map[], map[];
      Repr := {this};
      Value := PathsTree.Tree("", None, map[], map[]);
    }

    /** Sets the partial path and the parameter class, as the creators of a node do. */
    method SetPartialPath(p: string, cls: Option<PathsTree.ParamClass>)
      requires Valid()
      modifies this
      ensures Valid() && Repr == old(Repr)
      ensures partialPath == p && theClass == cls && nodes == old(nodes) && methods == old(methods)
      ensures Value == old(Value).(partialPath := p, theClass := cls)
    {
      partialPath, theClass := p, cls;
      Value := Value.(partialPath := p, theClass := cls);
    }

    /** nodes.put(key, node). */
    method PutChild(key: string, node: PathsNode)
      requires Valid() && node.Valid() && this !in node.Repr
      modifies this
      ensures Valid() && Repr == old(Repr) + node.Repr
      ensures nodes == old(nodes)[key := node]
      ensures partialPath == old(partialPath) && theClass == old(theClass) && methods == old(methods)
      ensures Value == old(Value).(nodes := old(Value).nodes[key := node.Value])
    {
      nodes := nodes[key := node];
      Repr := Repr + node.Repr;
      Value := Value.(nodes := Value.nodes[key := node.Value]);
    }

    /** nodes.putAll(other.nodes) on a node that has no children yet. */
    method PutAllChildren(other: PathsNode)
      requires Valid() && other.Valid() && this !in other.Repr
      requires nodes == map[]
      modifies this
      ensures Valid() && Repr == old(Repr) + other.Repr
      ensures nodes == other.nodes
      ensures partialPath == old(partialPath) && theClass == old(theClass) && methods == old(methods)
      ensures Value == old(Value).(nodes := other.Value.nodes)
    {
      ghost var added := other.nodes.Values;
      assert forall c :: c in added ==> this !in c.Repr && c.Valid();
      nodes := other.nodes;
      Repr := Repr + other.Repr;
      Value := Value.(nodes := other.Value.nodes);
      assert forall c :: c in added ==> c.Valid();
    }

    /** methods.putAll(ms). */
    method PutAllMethods(ms: map<string, Operation>)
      requires Valid()
      modifies this
      ensures Valid() && Repr == old(Repr)
      ensures methods == old(methods) + ms
      ensures partialPath == old(partialPath) && theClass == old(theClass) && nodes == old(nodes)
      ensures Value == old(Value).(methods := old(Value).methods + ms)
    {
      methods := methods + ms;
      Value := Value.(methods := Value.methods + ms);
    }

    /** Builds the chain of nodes for a list of segments; fails as the value model says. */
    static method FromDefinition(path: seq<string>, definition: PathItem) returns (r: Result<PathsNode, PathsTree.PathsError>)
      ensures var spec := PathsTree.FromDefinition(path, definition);
        && (spec.Err? ==> r == Err(spec.error))
        && (spec.Ok? ==> r.Ok? && r.value.Valid() && fresh(r.value.Repr) && r.value.Value == spec.value)
      decreases |path|
    {
      if |path| == 0 {
        return Err(PathsTree.IndexOutOfBounds);
      }
      var result := new PathsNode.Init();
      if PathsTree.IsPathParameter(path[0]) {
        result.SetPartialPath(PathsTree.StripBraces(path[0]), None);
        if |path| > 1 {
          var c := FromDefinition(path[1..], definition);
          if c.Err? {
            return Err(c.error);
          }
          result.PutChild(path[1], c.value);
        }
      } else if |path| > 1 && PathsTree.IsPathParameter(path[1]) {
        var slot := PathsTree.GenerateParameterized(path, definition);
        if slot.Err? {
          return Err(slot.error);
        }
        result.SetPartialPath(slot.value.partialPath, slot.value.theClass);
        var c := FromDefinition(path[1..], definition);
        if c.Err? {
          return Err(c.error);
        }
        result.PutChild(PathsTree.StripBraces(path[1]), c.value);
      } else {
        result.SetPartialPath(path[0], None);
        if |path| > 1 {
          var c := FromDefinition(path[1..], definition);
          if c.Err? {
            return Err(c.error);
          }
          result.PutChild(path[1], c.value);
        }
      }
      if |path| == 1 {
        result.PutAllMethods(ToMap(definition));
      }
      r := Ok(result);
    }

    /** PathsNode.merge: a fresh node holding the merge of `a` and `b`; neither input changes. */
    static method Merge(a: PathsNode, b: PathsNode) returns (r: PathsNode)
      requires a.Valid() && b.Valid()
      ensures r.Valid() && r.Value == PathsTree.Merge(a.Value, b.Value)
      ensures fresh(r) && fresh(r.Repr - a.Repr - b.Repr)
      ensures unchanged(a.Repr) && unchanged(b.Repr)
      decreases PathsTree.Height(a.Value) + PathsTree.Height(b.Value), 4
    {
      r := new PathsNode.Init();
      MergeInto(a, b, r);
    }

    /**
     * PathsNode.mergeInto: copies `a`'s children into the empty `target`, then
     * puts each child of `b`, merged as merge(bChild, targetChild) when the key
     * is already there, and finally `a`'s methods overwritten by `b`'s.
     */
    static method MergeInto(a: PathsNode, b: PathsNode, target: PathsNode)
      requires a.Valid() && b.Valid() && target.Valid()
      requires target !in a.Repr && target !in b.Repr
      requires target.Repr == {target}
      requires target.theClass == None && target.nodes == map[] && target.methods == map[]
      modifies target
      ensures target.Valid() && target.Value == PathsTree.Merge(a.Value, b.Value)
      ensures fresh(target.Repr - {target} - a.Repr - b.Repr)
      decreases PathsTree.Height(a.Value) + PathsTree.Height(b.Value), 3
    {
      target.SetPartialPath(a.partialPath, None);
      target.PutAllChildren(a);
      PutMergedChildren(a, b, target);
      ghost var emptied := target.Value.methods;
      target.PutAllMethods(a.methods);
      UnionWithEmpty(emptied, a.methods);
      target.PutAllMethods(b.methods);
      PathsTree.MergeCharacterized(a.Value, b.Value, target.Value);
    }

    /** The loop of mergeInto over `b`'s children, on a target that holds `a`'s children. */
    static method PutMergedChildren(a: PathsNode, b: PathsNode, target: PathsNode)
      requires a.Valid() && b.Valid() && target.Valid()
      requires target !in a.Repr && target !in b.Repr
      requires target.Value.nodes == a.Value.nodes
      modifies target
      ensures target.Valid()
      ensures fresh(target.Repr - old(target.Repr) - b.Repr)
      ensures target.Value == old(target.Value).(nodes := PathsTree.MergedChildren(a.Value, b.Value))
      decreases PathsTree.Height(a.Value) + PathsTree.Height(b.Value), 2
    {
      ghost var v0, r0 := target.Value, target.Repr;
      var pending := b.nodes.Keys;
      assert pending == b.Value.nodes.Keys;
      PartlyMergedNone(a.Value, b.Value);
      while pending != {}
        invariant pending <= b.Value.nodes.Keys
        invariant target.Valid()
        invariant fresh(target.Repr - r0 - b.Repr)
        invariant target.Value == v0.(nodes := PartlyMerged(a.Value, b.Value, pending))
        decreases pending
      {
        var k :| k in pending;
        PutMergedChild(a, b, target, k, pending);
        pending := pending - {k};
      }
      PartlyMergedAll(a.Value, b.Value);
    }

    /** One step of mergeInto's loop over `b`'s children: put `b`'s child under `k`, merged with the one already there. */
    static method PutMergedChild(a: PathsNode, b: PathsNode, target: PathsNode, k: string, ghost pending: set<string>)
      requires b.Valid() && target.Valid()
      requires target != a && target !in b.Repr
      requires k in pending && pending <= b.Value.nodes.Keys
      requires target.Value.nodes == PartlyMerged(a.Value, b.Value, pending)
      modifies target
      ensures target.Valid()
      ensures fresh(target.Repr - old(target.Repr) - b.Repr)
      ensures target.Value == old(target.Value).(nodes := PartlyMerged(a.Value, b.Value, pending - {k}))
      decreases PathsTree.Height(a.Value) + PathsTree.Height(b.Value), 1
    {
      PartlyMergedStep(a.Value, b.Value, pending, k);
      var n := MergedChild(a, b, target, k, pending);
      target.PutChild(k, n);
    }

    /** The node mergeInto puts under `k`: `b`'s child, merged with the one `target` already holds there. */
    static method MergedChild(a: PathsNode, b: PathsNode, target: PathsNode, k: string, ghost pending: set<string>) returns (n: PathsNode)
      requires b.Valid() && target.Valid()
      requires target !in b.Repr
      requires k in pending && pending <= b.Value.nodes.Keys
      requires target.Value.nodes == PartlyMerged(a.Value, b.Value, pending)
      ensures n.Valid() && target !in n.Repr
      ensures fresh(n.Repr - target.Repr - b.Repr)
      ensures n.Value == PathsTree.MergedChildren(a.Value, b.Value)[k]
      decreases PathsTree.Height(a.Value) + PathsTree.Height(b.Value), 0
    {
      PartlyMergedStep(a.Value, b.Value, pending, k);
      assert k in b.nodes;
      n := b.nodes[k];
      assert n in b.nodes.Values && n.Value == b.Value.nodes[k];
      if k in target.nodes {
        var t := target.nodes[k];
        assert t in target.nodes.Values && t.Value == a.Value.nodes[k];
        assert PathsTree.Height(n.Value) < PathsTree.Height(b.Value);
        assert PathsTree.Height(t.Value) < PathsTree.Height(a.Value);
        n := Merge(n, t);
      }
    }
  }

  /** The children of `target` while mergeInto's loop runs: `a`'s children, with the keys of `b` not `pending` already merged. */
  ghost function PartlyMerged(a: PathsTree.Tree, b: PathsTree.Tree, pending: set<string>): map<string, PathsTree.Tree>
  {
    map k | k in a.nodes.Keys + (b.nodes.Keys - pending) ::
      if k in b.nodes && k !in pending then PathsTree.MergedChildren(a, b)[k] else a.nodes[k]
  }

  lemma PartlyMergedNone(a: PathsTree.Tree, b: PathsTree.Tree)
    ensures PartlyMerged(a, b, b.nodes.Keys) == a.nodes
  {
  }

  lemma PartlyMergedStep(a: PathsTree.Tree, b: PathsTree.Tree, pending: set<string>, k: string)
    requires k in b.nodes && k in pending
    ensures PartlyMerged(a, b, pending)[k := PathsTree.MergedChildren(a, b)[k]] == PartlyMerged(a, b, pending - {k})
    ensures k in PartlyMerged(a, b, pending) <==> k in a.nodes
    ensures k in a.nodes ==> PartlyMerged(a, b, pending)[k] == a.nodes[k]
  {
  }

  lemma PartlyMergedAll(a: PathsTree.Tree, b: PathsTree.Tree)
    ensures PartlyMerged(a, b, {}) == PathsTree.MergedChildren(a, b)
  {
  }

  /** putAll into an empty map yields the other map (a helper that keeps MergeInto's proof small). */
  lemma UnionWithEmpty(e: map<string, Operation>, m: map<string, Operation>)
    requires e == map[]
    ensures e + m == m
  {
  }
}
