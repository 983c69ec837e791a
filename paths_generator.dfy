/**
 * PathsGenerator: tokenizing of path templates, controller names derived from
 * operation tags, grouping of every (path, HTTP method) operation under its
 * controller, and the method spec generated for each operation.
 */
module PathsGenerator {
  import opened Wrappers
  import opened JavaStrings
  import opened Swagger
  import opened PathsTree
  import PathsNodes

  // ---------------------------------------------------------------------------
  // parsePath
  // ---------------------------------------------------------------------------

  /** The text parsePath's builder ends up with: "root", a "/" unless the path starts with one, and the path less one trailing "/". */
  function RootedPath(path: string): string
  {
    "root" + (if StartsWith(path, "/") then "" else "/")
      + (if EndsWith(path, "/") then path[..|path| - 1] else path)
  }

  /** The segments parsePath promises: the rooted text, trailing separators trimmed, cut at every "/". */
  function ParsedPath(path: string): seq<string>
  {
    SplitOn(TrimTrailing(RootedPath(path), '/'), '/')
  }

  /** parsePath: builds the rooted text in a StringBuilder and splits it with String.split("/"). */
  method ParsePath(path: string) returns (segments: seq<string>)
    ensures segments == ParsedPath(path)
  {
    var builder := "root";
    if !StartsWith(path, "/") {
      builder := builder + "/";
    }
    if EndsWith(path, "/") {
      builder := builder + path[..|path| - 1];
    } else {
      builder := builder + path;
    }
    assert builder == RootedPath(path);
    JavaSplitTrimmed(builder, '/');
    segments := JavaSplit(builder, '/');
  }

  /** Trimming trailing separators never reaches into a prefix that does not end in one. */
  lemma {:induction false} TrimTrailingAfter(s: string, t: string, c: char)
    requires |s| > 0 && s[|s| - 1] != c
    ensures TrimTrailing(s + t, c) == s + TrimTrailing(t, c)
    decreases |t|
  {
    if |t| > 0 && t[|t| - 1] == c {
      var init := t[..|t| - 1];
      assert (s + t)[..|s + t| - 1] == s + init;
      TrimTrailingAfter(s, init, c);
    } else if |t| == 0 {
      assert s + t == s;
    }
  }

  /** Trimmed and split, `s + t` starts with the piece `s` when `s` is a `c`-free non-empty string and `t` is empty or starts with `c`. */
  lemma FirstPieceTrimmed(s: string, t: string, c: char)
    requires |s| > 0 && c !in s
    requires t == [] || t[0] == c
    ensures SplitOn(TrimTrailing(s + t, c), c)[0] == s
  {
    assert s[|s| - 1] in s;
    TrimTrailingAfter(s, t, c);
    var trimmed := TrimTrailing(t, c);
    if trimmed == [] {
      assert s + trimmed == s;
      SplitOnFree(s, c);
    } else {
      assert trimmed[0] == t[0];
      assert s + trimmed == s + [c] + trimmed[1..];
      FirstPiece(s, trimmed[1..], c);
    }
  }

  /** The rooted text is "root" followed by nothing or by a "/"-led rest. */
  lemma RootedStart(path: string)
    ensures var tail := RootedPath(path)[4..];
      && RootedPath(path) == "root" + tail
      && (tail == [] || tail[0] == '/')
  {
    var rest := if EndsWith(path, "/") then path[..|path| - 1] else path;
    var tail := (if StartsWith(path, "/") then "" else "/") + rest;
    assert RootedPath(path) == "root" + tail;
    assert rest == [] || rest[0] == path[0];
  }

  /** The first segment of a parsed path is "root" (and, by SplitOn's contract, no segment holds "/"). */
  lemma ParsedPathRoot(path: string)
    ensures ParsedPath(path)[0] == "root"
  {
    var rooted := RootedPath(path);
    RootedStart(path);
    assert '/' !in "root";
    FirstPieceTrimmed("root", rooted[4..], '/');
  }

  /** The last segment of a parsed path is never empty: trailing "/"s leave no empty segment behind. */
  lemma ParsedPathLast(path: string)
    ensures var r := ParsedPath(path); r[|r| - 1] != ""
  {
    var rooted := RootedPath(path);
    RootedStart(path);
    assert rooted[0] == 'r';
    var trimmed := TrimTrailing(rooted, '/');
    assert |trimmed| > 0;
    SplitOnLast(trimmed, '/');
  }

  /** Text that does not end in "/" is rooted as "root/" followed by it, whether it is given with a leading "/", with leading and trailing "/", or, when it does not start with "/" itself, bare. */
  lemma RootedText(t: string)
    requires |t| > 0 && t[|t| - 1] != '/'
    ensures RootedPath("/" + t) == "root" + "/" + t
    ensures RootedPath("/" + t + "/") == "root" + "/" + t
    ensures t[0] != '/' ==> RootedPath(t) == "root" + "/" + t
  {
    var p := "/" + t;
    assert StartsWith(p, "/") && !EndsWith(p, "/");
    var q := p + "/";
    assert StartsWith(q, "/") && EndsWith(q, "/");
    assert q[..|q| - 1] == p;
    if t[0] != '/' {
      assert !StartsWith(t, "/") && !EndsWith(t, "/");
    }
  }

  /** The join of `c`-free words whose last is not empty is not empty, does not end in `c`, and starts with `c` only when the first word is empty. */
  lemma JoinEnds(ws: seq<string>, c: char)
    requires |ws| >= 1 && ws[|ws| - 1] != ""
    requires forall i :: 0 <= i < |ws| ==> c !in ws[i]
    ensures var j := Join(ws, c); |j| > 0 && j[|j| - 1] != c && (ws[0] != "" ==> j[0] != c)
  {
    JoinLast(ws, c);
    var lw := ws[|ws| - 1];
    assert c !in lw && lw[|lw| - 1] in lw;
    if ws[0] != "" {
      JoinFirst(ws, c);
      assert c !in ws[0] && ws[0][0] in ws[0];
    }
  }

  /** Joining a word in front of at least one more puts one separator after it. */
  lemma JoinCons(w: string, ws: seq<string>, c: char)
    requires |ws| >= 1
    ensures Join([w] + ws, c) == w + [c] + Join(ws, c)
  {
    assert ([w] + ws)[1..] == ws;
  }

  /** A `c`-free word, then `c` and a join of `c`-free words whose last is not empty, splits back into the words. */
  lemma SplitPrefixedJoin(w: string, ws: seq<string>, c: char)
    requires |ws| >= 1 && ws[|ws| - 1] != ""
    requires c !in w && forall i :: 0 <= i < |ws| ==> c !in ws[i]
    ensures var s := w + [c] + Join(ws, c);
      && s[|s| - 1] != c
      && SplitOn(TrimTrailing(s, c), c) == [w] + ws
  {
    var joined := Join(ws, c);
    JoinLast(ws, c);
    var lw := ws[|ws| - 1];
    assert c !in lw && lw[|lw| - 1] in lw;
    var s := w + [c] + joined;
    assert s[|s| - 1] == lw[|lw| - 1];
    TrimTrailingNone(s, c);
    var all := [w] + ws;
    JoinCons(w, ws, c);
    assert forall i :: 1 <= i < |all| ==> all[i] == ws[i - 1];
    SplitOnJoin(all, c);
  }

  /** A path "/w1/.../wn", with or without one trailing "/" and, when w1 is not empty, without the leading one, parses to root followed by its words. */
  lemma ParsedPathOfWords(ws: seq<string>)
    requires |ws| >= 1 && ws[|ws| - 1] != ""
    requires forall i :: 0 <= i < |ws| ==> '/' !in ws[i]
    ensures ParsedPath("/" + Join(ws, '/')) == ["root"] + ws
    ensures ParsedPath("/" + Join(ws, '/') + "/") == ["root"] + ws
    ensures ws[0] != "" ==> ParsedPath(Join(ws, '/')) == ["root"] + ws
  {
    assert '/' !in "root";
    SplitPrefixedJoin("root", ws, '/');
    JoinEnds(ws, '/');
    RootedText(Join(ws, '/'));
  }

  /** The first character of a join whose first word is not empty is that word's. */
  lemma JoinFirst(ws: seq<string>, c: char)
    requires |ws| >= 1 && ws[0] != ""
    ensures var j := Join(ws, c); |j| > 0 && j[0] == ws[0][0]
  {
  }

  /** A string that does not end in `c` has nothing to trim. */
  lemma TrimTrailingNone(s: string, c: char)
    requires |s| > 0 && s[|s| - 1] != c
    ensures TrimTrailing(s, c) == s
  {
  }

  /** The last character of a join whose last word is not empty is the last word's. */
  lemma {:induction false} JoinLast(ws: seq<string>, c: char)
    requires |ws| >= 1 && ws[|ws| - 1] != ""
    ensures var j := Join(ws, c); |j| > 0 && j[|j| - 1] == ws[|ws| - 1][|ws[|ws| - 1]| - 1]
  {
    if |ws| > 1 {
      JoinLast(ws[1..], c);
    }
  }


  // ---------------------------------------------------------------------------
  // splitPath
  // ---------------------------------------------------------------------------

  /** The non-blank strings of a list, in order (filter(StringUtils::isNotBlank)). */
  function NonBlank(ps: seq<string>): (r: seq<string>)
  {
    if |ps| == 0 then []
    else (if IsBlank(ps[0]) then [] else [ps[0]]) + NonBlank(ps[1..])
  }

  /** splitPath: String.split("/") with the blank pieces filtered out; no segment is blank or holds a "/". */
  function SplitPath(path: string): (r: seq<string>)
    ensures forall i :: 0 <= i < |r| ==> '/' !in r[i] && !IsBlank(r[i])
  {
    var pieces := JavaSplit(path, '/');
    NonBlankMembers(pieces);
    assert forall s :: s in pieces ==> '/' !in s;
    NonBlank(pieces)
  }

  lemma {:induction false} NonBlankAppend(ps: seq<string>, qs: seq<string>)
    ensures NonBlank(ps + qs) == NonBlank(ps) + NonBlank(qs)
  {
    if |ps| > 0 {
      NonBlankAppend(ps[1..], qs);
      assert (ps + qs)[1..] == ps[1..] + qs;
    } else {
      assert ps + qs == qs;
    }
  }

  lemma {:induction false} NonBlankOfEmpties(ps: seq<string>)
    requires forall i :: 0 <= i < |ps| ==> ps[i] == ""
    ensures NonBlank(ps) == []
  {
    if |ps| > 0 {
      NonBlankOfEmpties(ps[1..]);
    }
  }

  /** Every kept piece is non-blank, and every non-blank piece is kept. */
  lemma {:induction false} NonBlankMembers(ps: seq<string>)
    ensures forall s :: s in NonBlank(ps) <==> s in ps && !IsBlank(s)
  {
    if |ps| > 0 {
      NonBlankMembers(ps[1..]);
      assert ps == [ps[0]] + ps[1..];
    }
  }

  lemma {:induction false} NonBlankKeepsAll(ps: seq<string>)
    requires forall i :: 0 <= i < |ps| ==> !IsBlank(ps[i])
    ensures NonBlank(ps) == ps
  {
    if |ps| > 0 {
      NonBlankKeepsAll(ps[1..]);
      assert ps == [ps[0]] + ps[1..];
    }
  }

  /**
   * splitPath yields exactly the non-blank "/"-separated pieces of the path in
   * order: String.split's dropping of trailing empty pieces makes no difference.
   */
  lemma SplitPathPieces(path: string)
    ensures SplitPath(path) == NonBlank(SplitOn(path, '/'))
    ensures forall s :: s in SplitPath(path) <==> s in SplitOn(path, '/') && !IsBlank(s)
  {
    var ps := SplitOn(path, '/');
    if '/' !in path {
      SplitOnFree(path, '/');
    } else {
      var r := DropTrailingEmpty(ps);
      assert ps == r + ps[|r|..];
      NonBlankAppend(r, ps[|r|..]);
      NonBlankOfEmpties(ps[|r|..]);
      assert NonBlank(r) + [] == NonBlank(r);
    }
    NonBlankMembers(ps);
  }

  /** A leading separator contributes one empty first piece. */
  lemma SplitOnLeading(t: string, c: char)
    ensures SplitOn([c] + t, c) == [""] + SplitOn(t, c)
  {
    assert ([c] + t)[1..] == t;
  }

  /** "/w1/.../wn" with non-blank words splits into exactly those words. */
  lemma SplitPathOfWords(ws: seq<string>)
    requires |ws| >= 1
    requires forall i :: 0 <= i < |ws| ==> '/' !in ws[i] && !IsBlank(ws[i])
    ensures SplitPath("/" + Join(ws, '/')) == ws
  {
    var joined := Join(ws, '/');
    SplitPathPieces("/" + joined);
    SplitOnLeading(joined, '/');
    SplitOnJoin(ws, '/');
    NonBlankKeepsAll(ws);
    assert IsBlank("");
  }

  /** fromDefinition(String path, definition): the chain of nodes for the path's non-blank segments. */
  method FromPath(path: string, definition: PathItem) returns (r: Result<PathsNodes.PathsNode, PathsError>)
    ensures var spec := PathsTree.FromDefinition(SplitPath(path), definition);
      && (spec.Err? ==> r == Err(spec.error))
      && (spec.Ok? ==> r.Ok? && r.value.Valid() && fresh(r.value.Repr) && r.value.Value == spec.value)
  {
    r := PathsNodes.PathsNode.FromDefinition(SplitPath(path), definition);
  }

  // ---------------------------------------------------------------------------
  // getControllerName
  // ---------------------------------------------------------------------------

  /** The index of the first tag ending in "controller" (filter, then findFirst). */
  function FirstControllerTag(tags: seq<string>): (r: Option<nat>)
    ensures r.Some? ==> r.value < |tags| && EndsWith(tags[r.value], "controller")
    ensures r.Some? ==> forall j :: 0 <= j < r.value ==> !EndsWith(tags[j], "controller")
    ensures r.None? ==> forall j :: 0 <= j < |tags| ==> !EndsWith(tags[j], "controller")
  {
    if |tags| == 0 then None
    else if EndsWith(tags[0], "controller") then Some(0)
    else
      match FirstControllerTag(tags[1..])
      case None => None
      case Some(i) => Some(i + 1)
  }

  /**
   * The name one tag stands for: the text before its last "-", with "-" read as
   * a word separator, in upper camel case. A tag without "-" makes substring(0, -1)
   * throw.
   */
  function TagControllerName(tag: string): (r: Result<string, PathsError>)
    ensures r.Ok? <==> '-' in tag
    ensures r.Err? ==> r.error == IndexOutOfBounds
  {
    LastIndexOfPresent(tag, '-');
    var cut := LastIndexOf(tag, '-');
    if cut < 0 then Err(IndexOutOfBounds)
    else Ok(UpperUnderscoreToUpperCamel(ReplaceChar(tag[..cut], '-', '_')))
  }

  /** getControllerName: the name of the first tag ending in "controller"; no such tag makes Optional.get throw. */
  function ControllerName(op: Operation): (r: Result<string, PathsError>)
    ensures r == Err(MissingKey("tags")) <==> op.tags.None?
    ensures r == Err(NoSuchElement) <==>
      op.tags.Some? && forall j :: 0 <= j < |op.tags.value| ==> !EndsWith(op.tags.value[j], "controller")
    ensures r.Err? ==> r.error in {MissingKey("tags"), NoSuchElement, IndexOutOfBounds}
  {
    match op.tags
    case None => Err(MissingKey("tags"))
    case Some(tags) =>
      match FirstControllerTag(tags)
      case None => Err(NoSuchElement)
      case Some(i) => TagControllerName(tags[i])
  }

  /** Tag `i` is the first tag ending in "controller". */
  predicate IsFirstControllerTag(tags: seq<string>, i: int)
  {
    && 0 <= i < |tags|
    && EndsWith(tags[i], "controller")
    && forall j :: 0 <= j < i ==> !EndsWith(tags[j], "controller")
  }

  /** There is only one first controller tag, and FirstControllerTag finds it. */
  lemma FirstControllerTagUnique(tags: seq<string>, i: int)
    requires IsFirstControllerTag(tags, i)
    ensures FirstControllerTag(tags) == Some(i)
  {
  }

  /** lastIndexOf finds a character exactly when it occurs. */
  lemma LastIndexOfPresent(s: string, c: char)
    ensures LastIndexOf(s, c) >= 0 <==> c in s
  {
    if c in s {
      var k :| 0 <= k < |s| && s[k] == c;
      assert LastIndexOf(s, c) >= k;
    }
  }

  /** When getControllerName succeeds: the tags exist and the first one ending in "controller" holds a "-". */
  lemma ControllerNameDefined(op: Operation)
    ensures ControllerName(op).Ok? <==>
      (op.tags.Some? && exists i :: IsFirstControllerTag(op.tags.value, i) && '-' in op.tags.value[i])
  {
    if op.tags.Some? {
      var tags := op.tags.value;
      var first := FirstControllerTag(tags);
      if first.Some? {
        LastIndexOfPresent(tags[first.value], '-');
        assert IsFirstControllerTag(tags, first.value);
      }
      if i :| IsFirstControllerTag(tags, i) && '-' in tags[i] {
        FirstControllerTagUnique(tags, i);
      }
    }
  }

  /** Replacing "-" by "_" turns a "-"-join of "-"-free words into their "_"-join. */
  lemma {:induction false} ReplaceCharJoin(ws: seq<string>)
    requires forall i :: 0 <= i < |ws| ==> '-' !in ws[i]
    ensures ReplaceChar(Join(ws, '-'), '-', '_') == Join(ws, '_')
  {
    if |ws| == 1 {
      assert ReplaceChar(ws[0], '-', '_') == ws[0];
    } else if |ws| > 1 {
      ReplaceCharJoin(ws[1..]);
      var a, b := ws[0] + ['-'], Join(ws[1..], '-');
      assert ReplaceChar(a + b, '-', '_') == ReplaceChar(a, '-', '_') + ReplaceChar(b, '-', '_');
      assert ReplaceChar(a, '-', '_') == ws[0] + ['_'];
    }
  }

  /** The tag "w1-...-wn-controller" names the controller W1...Wn, each word capitalized. */
  lemma TagControllerNameOfWords(ws: seq<string>)
    requires |ws| >= 1
    requires forall i :: 0 <= i < |ws| ==> '-' !in ws[i] && '_' !in ws[i]
    ensures TagControllerName(Join(ws, '-') + "-controller") == Ok(ConcatAll(CapitalizeAll(ws)))
  {
    var joined := Join(ws, '-');
    var tag := joined + "-controller";
    assert '-' !in "-controller"[1..];
    LastIndexOfSuffix(joined, "-controller", '-');
    assert tag[..|joined|] == joined;
    ReplaceCharJoin(ws);
    SplitOnJoin(ws, '_');
  }

  /** The last `c` of `a + b`, where `b` starts with `c` and holds no other, is the one at the head of `b`. */
  lemma {:induction false} LastIndexOfSuffix(a: string, b: string, c: char)
    requires |b| > 0 && b[0] == c && c !in b[1..]
    ensures LastIndexOf(a + b, c) == |a|
    decreases |b|
  {
    if |b| > 1 {
      var s := a + b;
      assert s[|s| - 1] == b[|b| - 1] && b[|b| - 1] in b[1..];
      var init := b[..|b| - 1];
      assert s[..|s| - 1] == a + init;
      assert init[1..] == b[1..|b| - 1];
      LastIndexOfSuffix(a, init, c);
    }
  }

  // ---------------------------------------------------------------------------
  // generatePaths: grouping of operations by controller
  // ---------------------------------------------------------------------------

  /** One (path, HTTP method) pair with its operation object. */
  datatype Endpoint = Endpoint(path: string, httpMethod: string, operation: Operation)

  function ItemEndpoints(path: string, item: PathItem): seq<Endpoint>
  {
    seq(|item|, i requires 0 <= i < |item| => Endpoint(path, item[i].0, item[i].1))
  }

  /** Every operation of the paths object, path by path and method by method in key order (the flatMap). */
  function Endpoints(paths: Paths): seq<Endpoint>
  {
    if |paths| == 0 then []
    else ItemEndpoints(paths[0].0, paths[0].1) + Endpoints(paths[1..])
  }

  /** An endpoint comes from exactly the (path, method) entries of the paths object. */
  lemma {:induction false} EndpointsComplete(paths: Paths)
    ensures forall e :: e in Endpoints(paths) <==>
      exists i, j :: 0 <= i < |paths| && 0 <= j < |paths[i].1|
        && e == Endpoint(paths[i].0, paths[i].1[j].0, paths[i].1[j].1)
  {
    if |paths| > 0 {
      EndpointsComplete(paths[1..]);
      var head := ItemEndpoints(paths[0].0, paths[0].1);
      forall e | e in Endpoints(paths)
        ensures exists i, j :: (0 <= i < |paths| && 0 <= j < |paths[i].1|
          && e == Endpoint(paths[i].0, paths[i].1[j].0, paths[i].1[j].1))
      {
        if e in head {
          var j :| 0 <= j < |head| && head[j] == e;
          assert e == Endpoint(paths[0].0, paths[0].1[j].0, paths[0].1[j].1);
        } else {
          assert e in Endpoints(paths[1..]);
          var i, j :| 0 <= i < |paths[1..]| && 0 <= j < |paths[1..][i].1|
            && e == Endpoint(paths[1..][i].0, paths[1..][i].1[j].0, paths[1..][i].1[j].1);
          assert paths[1..][i] == paths[i + 1];
        }
      }
      forall i, j | 0 <= i < |paths| && 0 <= j < |paths[i].1|
        ensures Endpoint(paths[i].0, paths[i].1[j].0, paths[i].1[j].1) in Endpoints(paths)
      {
        if i == 0 {
          assert head[j] == Endpoint(paths[0].0, paths[0].1[j].0, paths[0].1[j].1);
        } else {
          assert paths[1..][i - 1] == paths[i];
        }
      }
    }
  }

  /** The key the endpoints are collected by (getControllerName in generatePaths). */
  type EndpointKey = Endpoint -> Result<string, PathsError>

  /** getControllerName applied to an endpoint's operation. */
  function EndpointName(e: Endpoint): Result<string, PathsError>
  {
    ControllerName(e.operation)
  }

  /**
   * Collectors.toMap(getControllerName, createList, mergeLists) over the
   * endpoints in order: a new name starts the one-element list [e], a known one
   * gets the list old + [e]. The first endpoint whose name cannot be derived
   * aborts the collection.
   */
  function Group(eps: seq<Endpoint>, key: EndpointKey): (r: Result<map<string, seq<Endpoint>>, PathsError>)
    ensures r.Ok? ==> forall n :: n in r.value ==> |r.value[n]| > 0
    decreases |eps|
  {
    if |eps| == 0 then Ok(map[])
    else
      match Group(eps[..|eps| - 1], key)
      case Err(e) => Err(e)
      case Ok(groups) =>
        var last := eps[|eps| - 1];
        match key(last)
        case Err(e) => Err(e)
        case Ok(name) => Ok(groups[name := if name in groups then groups[name] + [last] else [last]])
  }

  /** The endpoints a controller name stands for, in encounter order (a plain filter). */
  function GroupOf(eps: seq<Endpoint>, key: EndpointKey, name: string): seq<Endpoint>
  {
    if |eps| == 0 then []
    else
      var last := eps[|eps| - 1];
      GroupOf(eps[..|eps| - 1], key, name) + (if key(last) == Ok(name) then [last] else [])
  }

  /** Every endpoint has a controller name. */
  predicate AllNamed(eps: seq<Endpoint>, key: EndpointKey)
  {
    forall i :: 0 <= i < |eps| ==> key(eps[i]).Ok?
  }

  /** Some endpoint has the controller name `name`. */
  predicate Named(eps: seq<Endpoint>, key: EndpointKey, name: string)
  {
    exists i :: 0 <= i < |eps| && key(eps[i]) == Ok(name)
  }

  lemma AllNamedSnoc(eps: seq<Endpoint>, key: EndpointKey)
    requires |eps| > 0
    ensures AllNamed(eps, key) <==> AllNamed(eps[..|eps| - 1], key) && key(eps[|eps| - 1]).Ok?
  {
    assert forall i :: 0 <= i < |eps| - 1 ==> eps[..|eps| - 1][i] == eps[i];
  }

  lemma NamedSnoc(eps: seq<Endpoint>, key: EndpointKey, name: string)
    requires |eps| > 0
    ensures Named(eps, key, name) <==> Named(eps[..|eps| - 1], key, name) || key(eps[|eps| - 1]) == Ok(name)
  {
    var init := eps[..|eps| - 1];
    if Named(eps, key, name) {
      var i :| 0 <= i < |eps| && key(eps[i]) == Ok(name);
      if i < |init| {
        assert init[i] == eps[i];
      }
    }
    if Named(init, key, name) {
      var i :| 0 <= i < |init| && key(init[i]) == Ok(name);
      assert init[i] == eps[i];
    }
  }

  /** Grouping succeeds exactly when every endpoint has a controller name. */
  lemma {:induction false} GroupSucceeds(eps: seq<Endpoint>, key: EndpointKey)
    ensures Group(eps, key).Ok? <==> AllNamed(eps, key)
    decreases |eps|
  {
    if |eps| > 0 {
      GroupSucceeds(eps[..|eps| - 1], key);
      AllNamedSnoc(eps, key);
    }
  }

  /** A failed grouping reports the failure of the first endpoint without a controller name. */
  lemma {:induction false} GroupFailsFirst(eps: seq<Endpoint>, key: EndpointKey)
    ensures Group(eps, key).Err? ==>
      exists i :: 0 <= i < |eps| && key(eps[i]) == Err(Group(eps, key).error) && AllNamed(eps[..i], key)
    decreases |eps|
  {
    if |eps| > 0 && Group(eps, key).Err? {
      var init := eps[..|eps| - 1];
      if Group(init, key).Err? {
        GroupFailsFirst(init, key);
        var i :| 0 <= i < |init| && key(init[i]) == Err(Group(init, key).error) && AllNamed(init[..i], key);
        assert init[..i] == eps[..i] && init[i] == eps[i];
      } else {
        GroupSucceeds(init, key);
      }
    }
  }

  /** A successful grouping has one group for each controller name that occurs, and no other. */
  lemma {:induction false} GroupKeys(eps: seq<Endpoint>, key: EndpointKey)
    requires Group(eps, key).Ok?
    ensures forall n :: n in Group(eps, key).value <==> Named(eps, key, n)
    decreases |eps|
  {
    if |eps| > 0 {
      GroupKeys(eps[..|eps| - 1], key);
      forall n ensures Named(eps, key, n) <==> Named(eps[..|eps| - 1], key, n) || key(eps[|eps| - 1]) == Ok(n) {
        NamedSnoc(eps, key, n);
      }
    }
  }

  /** The group of each name holds that name's endpoints in encounter order. */
  lemma {:induction false} GroupValues(eps: seq<Endpoint>, key: EndpointKey)
    requires Group(eps, key).Ok?
    ensures forall n :: n in Group(eps, key).value ==> Group(eps, key).value[n] == GroupOf(eps, key, n)
    decreases |eps|
  {
    if |eps| > 0 {
      var init := eps[..|eps| - 1];
      GroupValues(init, key);
      var groups := Group(init, key).value;
      var name := key(eps[|eps| - 1]).value;
      if name !in groups {
        GroupKeys(init, key);
        EmptyGroupOf(init, key, name);
      }
    }
  }

  /** A name no endpoint has has an empty group. */
  lemma {:induction false} EmptyGroupOf(eps: seq<Endpoint>, key: EndpointKey, name: string)
    requires forall i :: 0 <= i < |eps| ==> key(eps[i]) != Ok(name)
    ensures GroupOf(eps, key, name) == []
  {
    if |eps| > 0 {
      EmptyGroupOf(eps[..|eps| - 1], key, name);
    }
  }

  /** Every endpoint lands in the group of its own name and in no other. */
  lemma {:induction false} GroupOfPlacement(eps: seq<Endpoint>, key: EndpointKey, name: string)
    ensures forall e :: e in GroupOf(eps, key, name) ==> key(e) == Ok(name) && e in eps
    ensures forall i :: 0 <= i < |eps| && key(eps[i]) == Ok(name) ==> eps[i] in GroupOf(eps, key, name)
  {
    if |eps| > 0 {
      var init := eps[..|eps| - 1];
      GroupOfPlacement(init, key, name);
      forall i | 0 <= i < |eps| - 1 && key(eps[i]) == Ok(name)
        ensures eps[i] in GroupOf(eps, key, name)
      {
        assert eps[i] == init[i];
      }
    }
  }

  // ---------------------------------------------------------------------------
  // createMethods and createController
  // ---------------------------------------------------------------------------

  /** A JavaPoet type name as the generator uses it. */
  datatype TypeName = VoidClass | ModelClass(packageName: string, simpleName: string)

  /** A generated controller method: its name and return type. */
  datatype MethodSpec = MethodSpec(name: string, returnType: TypeName)

  /** A generated controller class (annotated @Component). */
  datatype ControllerSpec = ControllerSpec(className: string, methods: seq<MethodSpec>)

  /** The operationId with every "Using" + METHOD removed, left to right (String.replace). */
  function MethodName(operationId: string, httpMethod: string): (r: string)
    ensures |r| <= |operationId|
    ensures forall ch :: ch in r ==> ch in operationId
    ensures !Occurs(operationId, "Using" + ToUpper(httpMethod)) ==> r == operationId
  {
    RemoveAllUnchanged(operationId, "Using" + ToUpper(httpMethod));
    RemoveAll(operationId, "Using" + ToUpper(httpMethod))
  }

  /** The type a response schema names: the model class of its $ref, or Void. */
  function SchemaType(basePackage: string, schema: Schema): TypeName
  {
    match schema.ref
    case Some(ref) => ModelClass(basePackage + ".model", RemoveAll(ref, "#/definitions/"))
    case None => VoidClass
  }

  /** The return type: the type of the first response, in key order, that has a schema; Void when none has one. */
  function ReturnType(basePackage: string, responses: seq<(string, Response)>): (r: TypeName)
    ensures r.ModelClass? ==> r.packageName == basePackage + ".model"
  {
    if |responses| == 0 then VoidClass
    else
      match responses[0].1.schema
      case Some(schema) => SchemaType(basePackage, schema)
      case None => ReturnType(basePackage, responses[1..])
  }

  /** The return type comes from the first response with a schema, whichever it is, and is Void without one. */
  lemma {:induction false} ReturnTypeFirstSchema(basePackage: string, responses: seq<(string, Response)>)
    ensures (forall i :: 0 <= i < |responses| ==> responses[i].1.schema.None?) ==>
      ReturnType(basePackage, responses) == VoidClass
    ensures forall i :: (0 <= i < |responses| && responses[i].1.schema.Some?
      && (forall j :: 0 <= j < i ==> responses[j].1.schema.None?)) ==>
        ReturnType(basePackage, responses) == SchemaType(basePackage, responses[i].1.schema.value)
  {
    if |responses| > 0 {
      ReturnTypeFirstSchema(basePackage, responses[1..]);
      forall i | 0 < i < |responses| && responses[i].1.schema.Some?
        && (forall j :: 0 <= j < i ==> responses[j].1.schema.None?)
        ensures ReturnType(basePackage, responses) == SchemaType(basePackage, responses[i].1.schema.value)
      {
        assert responses[0].1.schema.None?;
        assert responses[1..][i - 1] == responses[i];
        assert forall j :: 0 <= j < i - 1 ==> responses[1..][j] == responses[j + 1];
      }
    }
  }

  /** createMethods: the one method generated for an operation. */
  function CreateMethods(basePackage: string, ep: Endpoint): (r: Result<seq<MethodSpec>, PathsError>)
    ensures r.Ok? <==> ep.operation.operationId.Some? && ep.operation.responses.Some?
    ensures r.Ok? ==> |r.value| == 1
    ensures r.Err? ==> r.error in {MissingKey("operationId"), MissingKey("responses")}
  {
    match ep.operation.operationId
    case None => Err(MissingKey("operationId"))
    case Some(id) =>
      match ep.operation.responses
      case None => Err(MissingKey("responses"))
      case Some(responses) => Ok([MethodSpec(MethodName(id, ep.httpMethod), ReturnType(basePackage, responses))])
  }

  /** The methods of a list of endpoints: their createMethods results concatenated (flatMap); the first failure aborts. */
  function FlatMethods(basePackage: string, eps: seq<Endpoint>): Result<seq<MethodSpec>, PathsError>
  {
    if |eps| == 0 then Ok([])
    else
      match CreateMethods(basePackage, eps[0])
      case Err(e) => Err(e)
      case Ok(ms) =>
        match FlatMethods(basePackage, eps[1..])
        case Err(e) => Err(e)
        case Ok(rest) => Ok(ms + rest)
  }

  /** The methods of every endpoint can be built. */
  predicate AllBuilt(basePackage: string, eps: seq<Endpoint>)
  {
    forall i :: 0 <= i < |eps| ==> CreateMethods(basePackage, eps[i]).Ok?
  }

  /** createController: the class `name` + "Controller" with the methods of its endpoints. */
  function CreateController(basePackage: string, name: string, eps: seq<Endpoint>): (r: Result<ControllerSpec, PathsError>)
    ensures r.Ok? <==> AllBuilt(basePackage, eps)
    ensures r.Ok? ==> r.value.className == name + "Controller" && |r.value.methods| == |eps|
  {
    FlatMethodsOnePerEndpoint(basePackage, eps);
    match FlatMethods(basePackage, eps)
    case Err(e) => Err(e)
    case Ok(ms) => Ok(ControllerSpec(name + "Controller", ms))
  }

  /**
   * A controller's methods are built exactly when every endpoint's are; then
   * there is exactly one method per endpoint, in order, named from its
   * operationId and typed from its responses.
   */
  lemma {:induction false} FlatMethodsOnePerEndpoint(basePackage: string, eps: seq<Endpoint>)
    ensures FlatMethods(basePackage, eps).Ok? <==> AllBuilt(basePackage, eps)
    ensures FlatMethods(basePackage, eps).Ok? ==>
      var ms := FlatMethods(basePackage, eps).value;
      && |ms| == |eps|
      && forall i :: 0 <= i < |eps| ==>
           ms[i] == MethodSpec(MethodName(eps[i].operation.operationId.value, eps[i].httpMethod),
                               ReturnType(basePackage, eps[i].operation.responses.value))
    ensures FlatMethods(basePackage, eps).Err? ==>
      exists i :: 0 <= i < |eps| && CreateMethods(basePackage, eps[i]) == Err(FlatMethods(basePackage, eps).error)
  {
    if |eps| > 0 {
      FlatMethodsOnePerEndpoint(basePackage, eps[1..]);
      assert forall i :: 1 <= i < |eps| ==> eps[1..][i - 1] == eps[i];
      if FlatMethods(basePackage, eps).Ok? {
        var ms := FlatMethods(basePackage, eps).value;
        var rest := FlatMethods(basePackage, eps[1..]).value;
        assert ms == CreateMethods(basePackage, eps[0]).value + rest;
        forall i | 0 < i < |eps|
          ensures ms[i] == MethodSpec(MethodName(eps[i].operation.operationId.value, eps[i].httpMethod),
                                      ReturnType(basePackage, eps[i].operation.responses.value))
        {
          assert ms[i] == rest[i - 1];
        }
      }
    }
  }

  /**
   * An operationId made of a name without "Using" followed by "Using" + METHOD
   * (as in getUserUsingGET under GET) yields that name.
   */
  lemma MethodNameDropsSuffix(name: string, httpMethod: string)
    requires !Occurs(name, "Using")
    ensures MethodName(name + ("Using" + ToUpper(httpMethod)), httpMethod) == name
  {
    var p := "Using" + ToUpper(httpMethod);
    var s := name + p;
    forall i: nat | i < |name| ensures !OccursAt(s, p, i) {
      if i + 5 <= |name| {
        assert s[i..i + 5] == name[i..i + 5];
        assert !OccursAt(name, "Using", i);
        assert p[..5] == "Using";
      } else {
        var j := |name| - i;
        assert s[i + j] == p[0] == 'U';
        assert p[j] == "Using"[j] != 'U';
      }
    }
    RemoveAllSuffix(name, p);
  }

  /** The method name is the operationId itself exactly when "Using" + METHOD does not occur in it. */
  lemma MethodNameUnchanged(operationId: string, httpMethod: string)
    ensures MethodName(operationId, httpMethod) == operationId <==> !Occurs(operationId, "Using" + ToUpper(httpMethod))
  {
    RemoveAllUnchanged(operationId, "Using" + ToUpper(httpMethod));
  }

  // ---------------------------------------------------------------------------
  // generatePaths
  // ---------------------------------------------------------------------------

  /**
   * generatePaths: one controller per controller name, built from that name's
   * endpoints. The controllers are collected from a HashMap, so their order is
   * not modelled (a map keyed by name), and when several controllers fail, which
   * failure surfaces is not determined either.
   */
  ghost function GeneratePaths(basePackage: string, paths: Paths): (r: Result<map<string, ControllerSpec>, PathsError>)
    ensures r.Ok? ==> forall n :: n in r.value ==> r.value[n].className == n + "Controller" && |r.value[n].methods| > 0
  {
    match Group(Endpoints(paths), EndpointName)
    case Err(e) => Err(e)
    case Ok(groups) => Collect(Controllers(basePackage, groups))
  }

  /** createController for every group. */
  function Controllers(basePackage: string, groups: map<string, seq<Endpoint>>): map<string, Result<ControllerSpec, PathsError>>
  {
    map n | n in groups :: CreateController(basePackage, n, groups[n])
  }

  /** The controllers when all of them were built, or the failure of one that was not (which one is not determined). */
  ghost function Collect(controllers: map<string, Result<ControllerSpec, PathsError>>): Result<map<string, ControllerSpec>, PathsError>
  {
    if forall n :: n in controllers ==> controllers[n].Ok? then
      Ok(map n | n in controllers :: controllers[n].value)
    else
      var n :| n in controllers && controllers[n].Err?;
      Err(controllers[n].error)
  }

  /** One controller that was not built makes the collection fail. */
  lemma CollectFails(controllers: map<string, Result<ControllerSpec, PathsError>>, n: string)
    requires n in controllers && controllers[n].Err?
    ensures Collect(controllers).Err?
  {
  }

  /** generatePaths succeeds when every operation has a controller name and its method can be built. */
  lemma GeneratePathsOk(basePackage: string, paths: Paths)
    requires AllNamed(Endpoints(paths), EndpointName) && AllBuilt(basePackage, Endpoints(paths))
    ensures GeneratePaths(basePackage, paths).Ok?
  {
    var eps := Endpoints(paths);
    GroupSucceeds(eps, EndpointName);
    var groups := Group(eps, EndpointName).value;
    GroupValues(eps, EndpointName);
    var controllers := Controllers(basePackage, groups);
    forall n | n in groups ensures controllers[n].Ok? {
      GroupOfPlacement(eps, EndpointName, n);
      BuiltWithin(basePackage, groups[n], eps);
      FlatMethodsOnePerEndpoint(basePackage, groups[n]);
    }
  }

  /** generatePaths fails when an operation's method cannot be built. */
  lemma GeneratePathsUnbuilt(basePackage: string, paths: Paths, i: int)
    requires 0 <= i < |Endpoints(paths)| && CreateMethods(basePackage, Endpoints(paths)[i]).Err?
    ensures GeneratePaths(basePackage, paths).Err?
  {
    var eps := Endpoints(paths);
    if Group(eps, EndpointName).Ok? {
      var groups := Group(eps, EndpointName).value;
      GroupSucceeds(eps, EndpointName);
      GroupValues(eps, EndpointName);
      GroupKeys(eps, EndpointName);
      var n := EndpointName(eps[i]).value;
      GroupOfPlacement(eps, EndpointName, n);
      FlatMethodsOnePerEndpoint(basePackage, groups[n]);
      var j :| 0 <= j < |groups[n]| && groups[n][j] == eps[i];
      var controllers := Controllers(basePackage, groups);
      assert controllers[n].Err?;
      CollectFails(controllers, n);
    }
  }

  /** generatePaths succeeds exactly when every operation has a controller name and its method can be built. */
  lemma GeneratePathsSucceeds(basePackage: string, paths: Paths)
    ensures var eps := Endpoints(paths);
      GeneratePaths(basePackage, paths).Ok? <==> AllNamed(eps, EndpointName) && AllBuilt(basePackage, eps)
  {
    var eps := Endpoints(paths);
    GroupSucceeds(eps, EndpointName);
    if AllNamed(eps, EndpointName) {
      if AllBuilt(basePackage, eps) {
        GeneratePathsOk(basePackage, paths);
      } else {
        var i :| 0 <= i < |eps| && CreateMethods(basePackage, eps[i]).Err?;
        GeneratePathsUnbuilt(basePackage, paths, i);
      }
    }
  }

  /** Endpoints drawn from a list whose methods can all be built can all be built too. */
  lemma BuiltWithin(basePackage: string, xs: seq<Endpoint>, eps: seq<Endpoint>)
    requires forall e :: e in xs ==> e in eps
    requires AllBuilt(basePackage, eps)
    ensures AllBuilt(basePackage, xs)
  {
    forall j | 0 <= j < |xs| ensures CreateMethods(basePackage, xs[j]).Ok? {
      assert xs[j] in eps;
    }
  }

  /**
   * When generatePaths succeeds, the controllers are keyed by the names that
   * occur; the class of name n is n + "Controller", and its methods are those of
   * the operations of that name, in encounter order.
   */
  lemma GeneratePathsControllers(basePackage: string, paths: Paths)
    requires GeneratePaths(basePackage, paths).Ok?
    ensures var eps, cs := Endpoints(paths), GeneratePaths(basePackage, paths).value;
      && (forall n :: n in cs <==> Named(eps, EndpointName, n))
      && (forall n :: n in cs ==>
            cs[n].className == n + "Controller" && Ok(cs[n].methods) == FlatMethods(basePackage, GroupOf(eps, EndpointName, n)))
  {
    var eps := Endpoints(paths);
    GroupKeys(eps, EndpointName);
    GroupValues(eps, EndpointName);
  }

}
