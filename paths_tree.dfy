/**
 * The path tree of PathsGenerator as values: what a PathsNode holds, how
 * fromDefinition builds a chain of nodes for one path, how generateParameterized
 * types a parameter slot, and how merge combines two trees.
 */
module PathsTree {
  import opened Wrappers
  import opened JavaStrings
  import opened Swagger

  /** The Java class a ParameterizedPathsNode records for its parameter. */
  datatype ParamClass = IntegerClass | LongClass

  /**
   * A PathsNode: its partial path, the parameter class when it is a
   * ParameterizedPathsNode (`None` for a plain PathsNode), the children keyed by
   * segment and the operations keyed by HTTP method.
   */
  datatype Tree = Tree(
    partialPath: string,
    theClass: Option<ParamClass>,
    nodes: map<string, Tree>,
    methods: map<string, Operation>)

  /** The exceptions that building the tree can raise. */
  datatype PathsError =
    | IndexOutOfBounds            // path.get(0) on an empty segment list
    | NoSuchElement               // definition.keys().next() on an empty path item
    | MissingKey(key: string)     // JSONObject.getString / getJSONArray on an absent key
    | UnsupportedIntegerFormat    // RuntimeException("nop")
    | UnresolvedParameter         // RuntimeException("nop2")

  // ---------------------------------------------------------------------------
  // Segments
  // ---------------------------------------------------------------------------

  /** A segment matching the pattern `\{[^\}]+}`: braces around at least one character, no `}` inside. */
  predicate IsPathParameter(s: string)
  {
    && |s| >= 3
    && s[0] == '{'
    && s[|s| - 1] == '}'
    && forall i :: 0 < i < |s| - 1 ==> s[i] != '}'
  }

  /** replaceAll("(\\{|\\})", ""): every brace removed. */
  function StripBraces(s: string): (r: string)
    ensures |r| <= |s|
    ensures '{' !in r && '}' !in r
    ensures forall i :: 0 <= i < |s| && s[i] != '{' && s[i] != '}' ==> s[i] in r
  {
    if |s| == 0 then ""
    else (if s[0] == '{' || s[0] == '}' then "" else [s[0]]) + StripBraces(s[1..])
  }

  /** Removal works piece by piece: a concatenation strips to its stripped parts, in order. */
  lemma {:induction false} StripBracesAppend(x: string, y: string)
    ensures StripBraces(x + y) == StripBraces(x) + StripBraces(y)
    decreases |x|
  {
    if |x| > 0 {
      var s, t := x + y, x[1..];
      var h := if x[0] == '{' || x[0] == '}' then "" else [x[0]];
      assert s[0] == x[0] && s[1..] == t + y;
      assert StripBraces(s) == h + StripBraces(t + y);
      StripBracesAppend(t, y);
      assert h + (StripBraces(t) + StripBraces(y)) == (h + StripBraces(t)) + StripBraces(y);
    } else {
      assert x + y == y;
    }
  }

  /** A string without braces is left as it is. */
  lemma {:induction false} StripBracesUnchanged(s: string)
    requires '{' !in s && '}' !in s
    ensures StripBraces(s) == s
    decreases |s|
  {
    if |s| > 0 {
      StripBracesUnchanged(s[1..]);
      assert s == [s[0]] + s[1..];
    }
  }

  /** The segment `{p}`, for a name `p` without braces, strips to exactly `p`. */
  lemma StripBracesOfParameter(p: string)
    requires '{' !in p && '}' !in p
    ensures StripBraces(['{'] + p + ['}']) == p
  {
    var segment := ['{'] + p + ['}'];
    assert segment[1..] == p + ['}'];
    StripBracesAppend(p, ['}']);
    StripBracesUnchanged(p);
    assert StripBraces(['}']) == "";
    assert StripBraces(segment) == StripBraces(segment[1..]);
  }

  // ---------------------------------------------------------------------------
  // generateParameterized
  // ---------------------------------------------------------------------------

  /** The first parameter whose `name` is present and equals `name`. */
  function FindParameter(ps: seq<Parameter>, name: string): (r: Option<Parameter>)
    ensures r.None? <==> forall i :: 0 <= i < |ps| ==> ps[i].name != Some(name)
    ensures r.Some? ==> exists i :: (0 <= i < |ps| && ps[i] == r.value
      && ps[i].name == Some(name)
      && forall j :: 0 <= j < i ==> ps[j].name != Some(name))
  {
    if |ps| == 0 then None
    else if ps[0].name == Some(name) then Some(ps[0])
    else
      var r := FindParameter(ps[1..], name);
      assert r.Some? ==> exists i :: (1 <= i < |ps| && ps[i] == r.value && ps[i].name == Some(name)
        && forall j :: 0 <= j < i ==> ps[j].name != Some(name)) by {
        if r.Some? {
          var i :| 0 <= i < |ps[1..]| && ps[1..][i] == r.value && ps[1..][i].name == Some(name)
            && forall j :: 0 <= j < i ==> ps[1..][j].name != Some(name);
          assert ps[i + 1] == r.value;
          forall j | 0 <= j < i + 1 ensures ps[j].name != Some(name) {
            if j > 0 { assert ps[j] == ps[1..][j - 1]; }
          }
        }
      }
      r
  }

  /**
   * The node for a literal segment followed by `{p}`: a ParameterizedPathsNode
   * labelled `p`, typed from the first parameter named `p` of the path item's
   * first operation.
   */
  function GenerateParameterized(path: seq<string>, definition: PathItem): (r: Result<Tree, PathsError>)
    requires |path| >= 2
    ensures r.Ok? ==> (r.value.partialPath == StripBraces(path[1])
      && r.value.theClass.Some? && r.value.nodes == map[] && r.value.methods == map[])
  {
    var parameterName := StripBraces(path[1]);
    if |definition| == 0 then Err(NoSuchElement)
    else
      match definition[0].1.parameters
      case None => Err(MissingKey("parameters"))
      case Some(parameters) =>
        match FindParameter(parameters, parameterName)
        case None => Err(UnresolvedParameter)
        case Some(obj) =>
          match obj.schemaType
          case None => Err(MissingKey("type"))
          case Some(t) =>
            if t != "integer" then Err(UnresolvedParameter)
            else
              match obj.format
              case None => Err(MissingKey("format"))
              case Some(f) =>
                if f == "int32" then Ok(Tree(parameterName, Some(IntegerClass), map[], map[]))
                else if f == "int64" then Ok(Tree(parameterName, Some(LongClass), map[], map[]))
                else Err(UnsupportedIntegerFormat)
  }

  /**
   * `p` is the parameter generateParameterized reads for the slot `name`: the
   * first one so named among the parameters of the path item's first operation.
   */
  ghost predicate ReadsParameter(definition: PathItem, name: string, p: Parameter)
  {
    && |definition| > 0
    && definition[0].1.parameters.Some?
    && var ps := definition[0].1.parameters.value;
       exists i :: 0 <= i < |ps| && ps[i] == p && ps[i].name == Some(name)
         && forall j :: 0 <= j < i ==> ps[j].name != Some(name)
  }

  /** The slot `name` is declared with type `t` and format `f`. */
  ghost predicate DeclaredAs(definition: PathItem, name: string, t: string, f: string)
  {
    exists p :: ReadsParameter(definition, name, p) && p.schemaType == Some(t) && p.format == Some(f)
  }

  /** The filtered stream's findFirst reads exactly the parameter ReadsParameter describes. */
  lemma FindParameterReads(definition: PathItem, name: string, p: Parameter)
    requires |definition| > 0 && definition[0].1.parameters.Some?
    ensures ReadsParameter(definition, name, p) <==> FindParameter(definition[0].1.parameters.value, name) == Some(p)
  {
    var ps := definition[0].1.parameters.value;
    var found := FindParameter(ps, name);
    if ReadsParameter(definition, name, p) {
      var i :| 0 <= i < |ps| && ps[i] == p && ps[i].name == Some(name)
        && forall j :: 0 <= j < i ==> ps[j].name != Some(name);
      assert found.Some?;
      var k :| 0 <= k < |ps| && ps[k] == found.value && ps[k].name == Some(name)
        && forall j :: 0 <= j < k ==> ps[j].name != Some(name);
      assert k == i;
    }
    if found == Some(p) {
      var k :| 0 <= k < |ps| && ps[k] == found.value && ps[k].name == Some(name)
        && forall j :: 0 <= j < k ==> ps[j].name != Some(name);
      assert ReadsParameter(definition, name, p);
    }
  }

  /**
   * A slot gets class Integer exactly when that parameter is declared integer/int32,
   * Long exactly when it is integer/int64.
   */
  lemma GenerateParameterizedClass(path: seq<string>, definition: PathItem)
    requires |path| >= 2
    ensures var r := GenerateParameterized(path, definition);
      && (r.Ok? && r.value.theClass == Some(IntegerClass) <==> DeclaredAs(definition, StripBraces(path[1]), "integer", "int32"))
      && (r.Ok? && r.value.theClass == Some(LongClass) <==> DeclaredAs(definition, StripBraces(path[1]), "integer", "int64"))
  {
    var name := StripBraces(path[1]);
    if |definition| > 0 && definition[0].1.parameters.Some? {
      var found := FindParameter(definition[0].1.parameters.value, name);
      forall p | ReadsParameter(definition, name, p) ensures found == Some(p) {
        FindParameterReads(definition, name, p);
      }
      if found.Some? {
        FindParameterReads(definition, name, found.value);
      }
    }
  }

  /**
   * How generateParameterized fails: an empty path item (keys().next()), a first
   * operation without "parameters", a slot parameter without "type", an integer one
   * without "format" (each a JSONException), an integer format other than int32 and
   * int64 ("nop"), and no parameter of that name or one of another type ("nop2").
   */
  lemma GenerateParameterizedErrors(path: seq<string>, definition: PathItem)
    requires |path| >= 2
    ensures var r, name := GenerateParameterized(path, definition), StripBraces(path[1]);
      && (r == Err(NoSuchElement) <==> |definition| == 0)
      && (r == Err(MissingKey("parameters")) <==> |definition| > 0 && definition[0].1.parameters.None?)
      && (r == Err(MissingKey("type")) <==> exists p :: ReadsParameter(definition, name, p) && p.schemaType.None?)
      && (r == Err(MissingKey("format")) <==>
            exists p :: ReadsParameter(definition, name, p) && p.schemaType == Some("integer") && p.format.None?)
      && (r == Err(UnsupportedIntegerFormat) <==>
            exists p :: ReadsParameter(definition, name, p) && p.schemaType == Some("integer")
              && p.format.Some? && p.format.value != "int32" && p.format.value != "int64")
      && (r == Err(UnresolvedParameter) <==>
            (|definition| > 0 && definition[0].1.parameters.Some? && forall p :: !ReadsParameter(definition, name, p))
            || exists p :: ReadsParameter(definition, name, p) && p.schemaType.Some? && p.schemaType.value != "integer")
      && (r.Err? ==> r.error in {NoSuchElement, MissingKey("parameters"), MissingKey("type"), MissingKey("format"),
                                 UnsupportedIntegerFormat, UnresolvedParameter})
  {
    var name := StripBraces(path[1]);
    if |definition| > 0 && definition[0].1.parameters.Some? {
      var found := FindParameter(definition[0].1.parameters.value, name);
      forall p | ReadsParameter(definition, name, p) ensures found == Some(p) {
        FindParameterReads(definition, name, p);
      }
      if found.Some? {
        FindParameterReads(definition, name, found.value);
      }
    }
  }

  // ---------------------------------------------------------------------------
  // fromDefinition
  // ---------------------------------------------------------------------------

  /** Whether segment `i` is a literal followed by a `{p}` segment, the case handled by generateParameterized. */
  predicate LiteralBeforeParameter(path: seq<string>, i: nat)
  {
    i + 1 < |path| && !IsPathParameter(path[i]) && IsPathParameter(path[i + 1])
  }

  /**
   * The chain of nodes for one path: one node per segment, each non-terminal
   * node with exactly one child, the path item's operations at the terminal node.
   */
  function FromDefinition(path: seq<string>, definition: PathItem): (r: Result<Tree, PathsError>)
    ensures path == [] ==> r == Err(IndexOutOfBounds)
    decreases |path|
  {
    if |path| == 0 then Err(IndexOutOfBounds)
    else
      var methods := if |path| == 1 then ToMap(definition) else map[];
      if IsPathParameter(path[0]) then
        if |path| == 1 then Ok(Tree(StripBraces(path[0]), None, map[], methods))
        else
          match FromDefinition(path[1..], definition)
          case Err(e) => Err(e)
          case Ok(child) => Ok(Tree(StripBraces(path[0]), None, map[path[1] := child], methods))
      else if |path| > 1 && IsPathParameter(path[1]) then
        match GenerateParameterized(path, definition)
        case Err(e) => Err(e)
        case Ok(node) =>
          match FromDefinition(path[1..], definition)
          case Err(e) => Err(e)
          case Ok(child) => Ok(node.(nodes := map[StripBraces(path[1]) := child]))
      else if |path| == 1 then Ok(Tree(path[0], None, map[], methods))
      else
        match FromDefinition(path[1..], definition)
        case Err(e) => Err(e)
        case Ok(child) => Ok(Tree(path[0], None, map[path[1] := child], methods))
  }

  /** The nodes along a tree in which every node has at most one child, root first. */
  ghost function Spine(t: Tree): (s: seq<Tree>)
    ensures |s| >= 1 && s[0] == t
    decreases t
  {
    if |t.nodes| == 0 then [t]
    else
      var k :| k in t.nodes;
      [t] + Spine(t.nodes[k])
  }

  /** The key under which the node of segment `i` holds the node of segment `i + 1`. */
  function ChildKey(path: seq<string>, i: nat): string
    requires i + 1 < |path|
  {
    if LiteralBeforeParameter(path, i) then StripBraces(path[i + 1]) else path[i + 1]
  }

  /** The partial path of the node of segment `i`. */
  function NodeLabel(path: seq<string>, i: nat): string
    requires i < |path|
  {
    if LiteralBeforeParameter(path, i) then StripBraces(path[i + 1])
    else if IsPathParameter(path[i]) then StripBraces(path[i])
    else path[i]
  }

  /** What fromDefinition promises about node `i` of its chain. */
  ghost predicate ChainNode(path: seq<string>, definition: PathItem, spine: seq<Tree>, i: nat)
    requires i < |path| == |spine|
  {
    && spine[i].partialPath == NodeLabel(path, i)
    && (spine[i].theClass.Some? <==> LiteralBeforeParameter(path, i))
    && (LiteralBeforeParameter(path, i) ==>
          GenerateParameterized(path[i..], definition).Ok?
          && spine[i].theClass == GenerateParameterized(path[i..], definition).value.theClass)
    && (i + 1 < |path| ==> spine[i].nodes == map[ChildKey(path, i) := spine[i + 1]] && spine[i].methods == map[])
    && (i + 1 == |path| ==> spine[i].nodes == map[] && spine[i].methods == ToMap(definition))
  }

  /**
   * A successful fromDefinition yields one node per segment, each non-terminal
   * node holding exactly the next one, and only the terminal node holding
   * operations, keyed by the path item's HTTP methods. The node of a literal
   * followed by `{p}` carries the class generateParameterized gives that slot.
   */
  lemma {:induction false} FromDefinitionChain(path: seq<string>, definition: PathItem)
    requires FromDefinition(path, definition).Ok?
    ensures var spine := Spine(FromDefinition(path, definition).value);
      && |spine| == |path|
      && forall i :: 0 <= i < |path| ==> ChainNode(path, definition, spine, i)
    decreases |path|
  {
    var t := FromDefinition(path, definition).value;
    if |path| > 1 {
      FromDefinitionChain(path[1..], definition);
      var child := FromDefinition(path[1..], definition).value;
      var key := ChildKey(path, 0);
      assert t.nodes == map[key := child];
      assert Spine(t) == [t] + Spine(child);
      var spine := Spine(t);
      assert path[0..] == path;
      forall i | 0 <= i < |path| ensures ChainNode(path, definition, spine, i) {
        if i > 0 {
          assert path[i..] == path[1..][i - 1..];
          assert ChainNode(path[1..], definition, Spine(child), i - 1);
          assert spine[i] == Spine(child)[i - 1];
          if i + 1 < |path| {
            assert ChildKey(path, i) == ChildKey(path[1..], i - 1);
          }
          assert NodeLabel(path, i) == NodeLabel(path[1..], i - 1);
          assert LiteralBeforeParameter(path, i) == LiteralBeforeParameter(path[1..], i - 1);
        }
      }
    }
  }

  /** Segment `i` is a literal followed by `{p}` for which generateParameterized fails. */
  ghost predicate FailsAt(path: seq<string>, definition: PathItem, i: int)
  {
    0 <= i < |path| && LiteralBeforeParameter(path, i) && GenerateParameterized(path[i..], definition).Err?
  }

  lemma FailsAtTail(path: seq<string>, definition: PathItem, i: int)
    requires 1 <= i < |path|
    ensures FailsAt(path, definition, i) <==> FailsAt(path[1..], definition, i - 1)
  {
    assert path[i..] == path[1..][i - 1..];
  }

  /** One step of fromDefinition: it fails when its first segment fails, or when the rest of the path does. */
  lemma FromDefinitionFailsStep(path: seq<string>, definition: PathItem)
    requires |path| > 1
    ensures FromDefinition(path, definition).Err? <==>
      (FailsAt(path, definition, 0) || FromDefinition(path[1..], definition).Err?)
  {
    assert path[0..] == path;
  }

  /**
   * fromDefinition fails exactly on an empty segment list or when some literal
   * segment followed by `{p}` cannot be typed by generateParameterized.
   */
  lemma {:induction false} FromDefinitionFails(path: seq<string>, definition: PathItem)
    ensures FromDefinition(path, definition).Err? <==>
      (|path| == 0 || exists i :: FailsAt(path, definition, i))
    decreases |path|
  {
    if |path| > 1 {
      FromDefinitionFails(path[1..], definition);
      FromDefinitionFailsStep(path, definition);
      if i :| FailsAt(path, definition, i) {
        if i > 0 {
          FailsAtTail(path, definition, i);
        }
      }
      if i :| FailsAt(path[1..], definition, i) {
        FailsAtTail(path, definition, i + 1);
      }
    } else if |path| == 1 {
      assert forall i :: !FailsAt(path, definition, i);
    }
  }

  // ---------------------------------------------------------------------------
  // merge
  // ---------------------------------------------------------------------------

  ghost function MaxOf(s: set<nat>): (m: nat)
    ensures forall x :: x in s ==> x <= m
  {
    if s == {} then 0
    else
      var y :| y in s;
      var rest := MaxOf(s - {y});
      assert forall x :: x in s ==> x == y || x in s - {y};
      if y < rest then rest else y
  }

  /** The number of levels of a tree. */
  ghost function Height(t: Tree): (h: nat)
    ensures forall k :: k in t.nodes ==> Height(t.nodes[k]) < h
    decreases t
  {
    var heights := set k | k in t.nodes :: Height(t.nodes[k]);
    assert forall k :: k in t.nodes ==> Height(t.nodes[k]) in heights;
    1 + MaxOf(heights)
  }

  /**
   * PathsNode.merge(a, b): a fresh plain node with `a`'s partial path, the union
   * of the children (a key present in both merged as merge(bChild, aChild)) and
   * `a`'s operations overwritten by `b`'s.
   */
  function Merge(a: Tree, b: Tree): (r: Tree)
    ensures r.partialPath == a.partialPath && r.theClass == None
    ensures r.nodes.Keys == a.nodes.Keys + b.nodes.Keys
    decreases Height(a) + Height(b), 2
  {
    Tree(a.partialPath, None, MergedChildren(a, b), a.methods + b.methods)
  }

  /** The child of a merge under one key (a helper that unfolds Merge once for the proofs below). */
  lemma MergeChild(a: Tree, b: Tree, k: string)
    requires k in a.nodes || k in b.nodes
    ensures Merge(a, b).nodes[k] ==
      if k in a.nodes && k in b.nodes then Merge(b.nodes[k], a.nodes[k])
      else if k in b.nodes then b.nodes[k]
      else a.nodes[k]
  {
  }

  /** A helper for PathsNode.MergeInto: a tree built field by field as mergeInto does is the merge. */
  lemma MergeCharacterized(a: Tree, b: Tree, t: Tree)
    requires t.partialPath == a.partialPath && t.theClass == None
    requires t.methods == a.methods + b.methods
    requires t.nodes == MergedChildren(a, b)
    ensures t == Merge(a, b)
  {
    var m := Merge(a, b);
    assert m.nodes == MergedChildren(a, b);
    assert m.methods == a.methods + b.methods;
  }

  /** The children of merge(a, b). */
  function MergedChildren(a: Tree, b: Tree): map<string, Tree>
    decreases Height(a) + Height(b), 1
  {
    map k | k in a.nodes.Keys + b.nodes.Keys ::
      if k in a.nodes && k in b.nodes then Merge(b.nodes[k], a.nodes[k])
      else if k in b.nodes then b.nodes[k]
      else a.nodes[k]
  }

  /**
   * Merging is associative. It is commutative only for compatible trees (see
   * MergeCommutes): the label comes from the left and, on a shared HTTP method,
   * the right operand's operation wins.
   */
  lemma {:induction false} MergeAssociative(a: Tree, b: Tree, c: Tree)
    ensures Merge(Merge(a, b), c) == Merge(a, Merge(b, c))
    decreases Height(a) + Height(b) + Height(c)
  {
    forall k | k in a.nodes && k in b.nodes && k in c.nodes
      ensures Merge(Merge(c.nodes[k], b.nodes[k]), a.nodes[k]) == Merge(c.nodes[k], Merge(b.nodes[k], a.nodes[k]))
    {
      MergeAssociative(c.nodes[k], b.nodes[k], a.nodes[k]);
    }
    MergeAssociativeNodes(a, b, c);
    MergeAssociativeStep(a, b, c);
  }

  /** Associativity at one node, given that both groupings have the same children. */
  lemma MergeAssociativeStep(a: Tree, b: Tree, c: Tree)
    requires Merge(Merge(a, b), c).nodes == Merge(a, Merge(b, c)).nodes
    ensures Merge(Merge(a, b), c) == Merge(a, Merge(b, c))
  {
    var lhs, rhs := Merge(Merge(a, b), c), Merge(a, Merge(b, c));
    MergeMethodsAssociative(a.methods, b.methods, c.methods);
    assert lhs.methods == rhs.methods;
  }

  lemma MergeAssociativeNodes(a: Tree, b: Tree, c: Tree)
    requires forall k :: k in a.nodes && k in b.nodes && k in c.nodes ==>
      Merge(Merge(c.nodes[k], b.nodes[k]), a.nodes[k]) == Merge(c.nodes[k], Merge(b.nodes[k], a.nodes[k]))
    ensures Merge(Merge(a, b), c).nodes == Merge(a, Merge(b, c)).nodes
  {
    var lhs, rhs := Merge(Merge(a, b), c), Merge(a, Merge(b, c));
    forall k | k in lhs.nodes ensures k in rhs.nodes && lhs.nodes[k] == rhs.nodes[k] {
      MergeAssociativeChild(a, b, c, k);
    }
  }

  /** Map union, where the right operand wins a collision, is associative (a helper for MergeAssociativeStep). */
  lemma MergeMethodsAssociative(x: map<string, Operation>, y: map<string, Operation>, z: map<string, Operation>)
    ensures (x + y) + z == x + (y + z)
  {
  }

  /** One child of the two groupings, given associativity for the children under that key. */
  lemma MergeAssociativeChild(a: Tree, b: Tree, c: Tree, k: string)
    requires k in a.nodes || k in b.nodes || k in c.nodes
    requires k in a.nodes && k in b.nodes && k in c.nodes ==>
      Merge(Merge(c.nodes[k], b.nodes[k]), a.nodes[k]) == Merge(c.nodes[k], Merge(b.nodes[k], a.nodes[k]))
    ensures Merge(Merge(a, b), c).nodes[k] == Merge(a, Merge(b, c)).nodes[k]
  {
    var ab, bc := Merge(a, b), Merge(b, c);
    MergeChild(ab, c, k);
    MergeChild(a, bc, k);
    if k in a.nodes || k in b.nodes { MergeChild(a, b, k); }
    if k in b.nodes || k in c.nodes { MergeChild(b, c, k); }
  }

  /**
   * Two trees merge the same way in either order: equal partial paths, no HTTP
   * method in both, and the same again for the children under every shared key.
   */
  ghost predicate Compatible(a: Tree, b: Tree)
    decreases a
  {
    && a.partialPath == b.partialPath
    && a.methods.Keys !! b.methods.Keys
    && forall k :: k in a.nodes && k in b.nodes ==> Compatible(a.nodes[k], b.nodes[k])
  }

  /** Compatible trees merge to the same tree in either order, so a fold over them may take them in any order. */
  lemma {:induction false} MergeCommutes(a: Tree, b: Tree)
    requires Compatible(a, b)
    ensures Merge(a, b) == Merge(b, a)
    decreases a
  {
    forall k | k in a.nodes && k in b.nodes
      ensures Merge(b.nodes[k], a.nodes[k]) == Merge(a.nodes[k], b.nodes[k])
    {
      MergeCommutes(a.nodes[k], b.nodes[k]);
    }
    assert MergedChildren(a, b) == MergedChildren(b, a);
    assert a.methods + b.methods == b.methods + a.methods;
  }

  /** Without equal labels the order matters: `{id}` merged with `{uid}` keeps whichever comes first. */
  lemma MergeOrderMatters()
    ensures var a, b := Tree("id", None, map[], map[]), Tree("uid", None, map[], map[]);
      Merge(a, b).partialPath == "id" && Merge(b, a).partialPath == "uid" && Merge(a, b) != Merge(b, a)
  {
  }

  /** The tree with every ParameterizedPathsNode turned into a plain node. */
  function Erased(t: Tree): (r: Tree)
    ensures r.partialPath == t.partialPath && r.theClass == None && r.methods == t.methods
    ensures r.nodes.Keys == t.nodes.Keys
    decreases t
  {
    Tree(t.partialPath, None, map k | k in t.nodes :: Erased(t.nodes[k]), t.methods)
  }

  /** Merging a tree with itself keeps everything but the parameter classes, which merging loses. */
  lemma {:induction false} MergeSelf(a: Tree)
    ensures Merge(a, a) == Erased(a)
    decreases a
  {
    forall k | k in a.nodes ensures Merge(a, a).nodes[k] == Erased(a).nodes[k] {
      MergeSelf(a.nodes[k]);
    }
    assert Merge(a, a).nodes == Erased(a).nodes;
  }

  /** The node reached from `t` by following the child keys in `p`. */
  function Lookup(t: Tree, p: seq<string>): Option<Tree>
    decreases |p|
  {
    if p == [] then Some(t)
    else if p[0] in t.nodes then Lookup(t.nodes[p[0]], p[1..])
    else None
  }

  /** Whether a depth is even. */
  predicate Even(n: nat)
  {
    n == 0 || !Even(n - 1)
  }

  /**
   * A key path held by both inputs leads to a plain node of the merge. At an even
   * depth it has a's partial path and b's operations win a collision; at an odd
   * depth the roles swap, since children are merged as merge(bChild, aChild).
   */
  lemma {:induction false} MergeLookupBoth(a: Tree, b: Tree, p: seq<string>)
    requires Lookup(a, p).Some? && Lookup(b, p).Some?
    ensures var n, x, y := Lookup(Merge(a, b), p), Lookup(a, p).value, Lookup(b, p).value;
      && n.Some? && n.value.theClass == None
      && (Even(|p|) ==> n.value.partialPath == x.partialPath && n.value.methods == x.methods + y.methods)
      && (!Even(|p|) ==> n.value.partialPath == y.partialPath && n.value.methods == y.methods + x.methods)
    decreases |p|
  {
    if p != [] {
      var k, rest := p[0], p[1..];
      var ak, bk := a.nodes[k], b.nodes[k];
      assert Lookup(a, p) == Lookup(ak, rest) && Lookup(b, p) == Lookup(bk, rest);
      MergeChild(a, b, k);
      assert Lookup(Merge(a, b), p) == Lookup(Merge(bk, ak), rest);
      MergeLookupBoth(bk, ak, rest);
    }
  }

  /** A key path held by one input only leads to that input's node, untouched. */
  lemma {:induction false} MergeLookupOne(a: Tree, b: Tree, p: seq<string>)
    ensures var n := Lookup(Merge(a, b), p);
      && (n.Some? <==> Lookup(a, p).Some? || Lookup(b, p).Some?)
      && (Lookup(b, p).None? ==> n == Lookup(a, p))
      && (Lookup(a, p).None? ==> n == Lookup(b, p))
    decreases |p|
  {
    if p != [] {
      var k := p[0];
      if k in a.nodes && k in b.nodes {
        MergeLookupOne(b.nodes[k], a.nodes[k], p[1..]);
      }
    }
  }

  /**
   * What merging does along a key path: the path leads somewhere in the merge
   * exactly when it does in either input. Where only one input has it, the merge
   * holds that input's node untouched. Where both have it, mergeInto merges the
   * children as merge(bChild, targetChild), so the order swaps at every level:
   * at an even depth the merged node has a's partial path and b's operations win
   * a collision; at an odd depth it has b's partial path and a's operations win.
   * The merged node is always a plain node.
   */
  lemma MergeLookup(a: Tree, b: Tree, p: seq<string>)
    ensures var n := Lookup(Merge(a, b), p);
      && (n.Some? <==> Lookup(a, p).Some? || Lookup(b, p).Some?)
      && (Lookup(b, p).None? ==> n == Lookup(a, p))
      && (Lookup(a, p).None? ==> n == Lookup(b, p))
      && (Lookup(a, p).Some? && Lookup(b, p).Some? ==>
            var x, y := Lookup(a, p).value, Lookup(b, p).value;
            && n.value.theClass == None
            && (Even(|p|) ==> n.value.partialPath == x.partialPath && n.value.methods == x.methods + y.methods)
            && (!Even(|p|) ==> n.value.partialPath == y.partialPath && n.value.methods == y.methods + x.methods))
  {
    MergeLookupOne(a, b, p);
    if Lookup(a, p).Some? && Lookup(b, p).Some? {
      MergeLookupBoth(a, b, p);
    }
  }
}
