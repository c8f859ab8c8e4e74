/** Dependency extraction and require rewriting of one module
    (src/parser.js). The syntax tree is abstracted to the nodes the
    traversal visits, in source order: import declarations and call
    expressions. Parsing and the down-levelling to CommonJS are done by an
    external compiler; its output reaches `Transform` as text. */
module Parser {
  import opened Wrappers
  import opened PosixPath
  import opened JsText

  datatype Argument = StringLiteral(value: string) | OtherArgument
  datatype Callee = Identifier(name: string) | OtherCallee
  datatype Node =
    | ImportDeclaration(source: string)
    | CallExpression(callee: Callee, arguments: seq<Argument>)

  /** The one test for "relative": used for imports and requires when
      collecting dependencies, and for imports when rewriting. */
  predicate IsRelative(p: string) {
    "./" <= p || "../" <= p
  }

  /** The identifier a relative path written in `filename` stands for:
      resolved against the file's directory, with `.js` when it has no
      extension. */
  function Target(filename: string, p: string): string
    requires IsAbsolute(filename)
  {
    WithDefaultExtension(Resolve([Dirname(filename), p]))
  }

  /** The source of a relative import declaration. */
  function ImportPath(n: Node): Option<string> {
    if n.ImportDeclaration? && IsRelative(n.source) then Some(n.source) else None
  }

  /** The path of a node that names a dependency: a relative import
      source, or the relative argument of a call of `require` with exactly
      one string-literal argument. */
  function DependencyPath(n: Node): Option<string> {
    match n
    case ImportDeclaration(p) => if IsRelative(p) then Some(p) else None
    case CallExpression(callee, args) =>
      if callee == Identifier("require") && |args| == 1 && args[0].StringLiteral? && IsRelative(args[0].value)
      then Some(args[0].value) else None
  }

  function Listed(o: Option<string>): seq<string> {
    match o
    case None => []
    case Some(p) => [p]
  }

  function DependencyPaths(nodes: seq<Node>): seq<string> {
    if nodes == [] then []
    else DependencyPaths(nodes[..|nodes| - 1]) + Listed(DependencyPath(nodes[|nodes| - 1]))
  }

  function ImportPaths(nodes: seq<Node>): seq<string> {
    if nodes == [] then []
    else ImportPaths(nodes[..|nodes| - 1]) + Listed(ImportPath(nodes[|nodes| - 1]))
  }

  function Targets(filename: string, paths: seq<string>): (ts: seq<string>)
    requires IsAbsolute(filename)
    ensures |ts| == |paths|
  {
    if paths == [] then []
    else Targets(filename, paths[..|paths| - 1]) + [Target(filename, paths[|paths| - 1])]
  }

  /** What `getDependencies` returns. */
  function Dependencies(filename: string, nodes: seq<Node>): seq<string>
    requires IsAbsolute(filename)
  {
    Targets(filename, DependencyPaths(nodes))
  }

  function WarningText(filename: string, p: string): string {
    "Warning: Skipping non-relative import \"" + p + "\" in " + filename
  }

  function WarningOf(filename: string, n: Node): seq<string> {
    if n.ImportDeclaration? && !IsRelative(n.source) then [WarningText(filename, n.source)] else []
  }

  /** The warnings `getDependencies` prints, in order. */
  function Warnings(filename: string, nodes: seq<Node>): seq<string> {
    if nodes == [] then []
    else Warnings(filename, nodes[..|nodes| - 1]) + WarningOf(filename, nodes[|nodes| - 1])
  }

  /** getDependencies: the visitor pushes one identifier per relative
      import or require, in traversal order, and warns once per
      non-relative import. */
  method GetDependencies(nodes: seq<Node>, filename: string) returns (dependencies: seq<string>, warnings: seq<string>)
    requires IsAbsolute(filename)
    ensures dependencies == Dependencies(filename, nodes)
    ensures warnings == Warnings(filename, nodes)
  {
    dependencies, warnings := [], [];
    for i := 0 to |nodes|
      invariant dependencies == Dependencies(filename, nodes[..i])
      invariant warnings == Warnings(filename, nodes[..i])
    {
      CollectStep(filename, nodes, i);
      var n := nodes[i];
      match n
      case ImportDeclaration(importPath) =>
        if IsRelative(importPath) {
          var absolutePath := Resolve([Dirname(filename), importPath]);
          if Extname(absolutePath) == "" {
            absolutePath := absolutePath + ".js";
          }
          assert Targets(filename, Listed(DependencyPath(n))) == [absolutePath];
          dependencies := dependencies + [absolutePath];
        } else {
          warnings := warnings + [WarningText(filename, importPath)];
        }
      case CallExpression(callee, args) =>
        if callee == Identifier("require") && |args| == 1 && args[0].StringLiteral? {
          var requirePath := args[0].value;
          if IsRelative(requirePath) {
            var absolutePath := Resolve([Dirname(filename), requirePath]);
            if Extname(absolutePath) == "" {
              absolutePath := absolutePath + ".js";
            }
            assert Targets(filename, Listed(DependencyPath(n))) == [absolutePath];
            dependencies := dependencies + [absolutePath];
          }
        }
    }
    assert nodes[..|nodes|] == nodes;
  }

  /** One visited node extends the two lists by what it contributes. */
  lemma CollectStep(filename: string, nodes: seq<Node>, i: nat)
    requires IsAbsolute(filename) && i < |nodes|
    ensures Dependencies(filename, nodes[..i + 1]) ==
      Dependencies(filename, nodes[..i]) + Targets(filename, Listed(DependencyPath(nodes[i])))
    ensures Warnings(filename, nodes[..i + 1]) == Warnings(filename, nodes[..i]) + WarningOf(filename, nodes[i])
  {
    var pre := nodes[..i + 1];
    assert pre[..i] == nodes[..i];
    assert DependencyPaths(pre) == DependencyPaths(nodes[..i]) + Listed(DependencyPath(nodes[i]));
    TargetsAppend(filename, DependencyPaths(nodes[..i]), Listed(DependencyPath(nodes[i])));
  }

  /** The target of each path sits at the path's position. */
  lemma {:induction false} TargetsAt(filename: string, paths: seq<string>, i: nat)
    requires IsAbsolute(filename) && i < |paths|
    ensures Targets(filename, paths)[i] == Target(filename, paths[i])
    decreases |paths|
  {
    var init := paths[..|paths| - 1];
    assert Targets(filename, paths) == Targets(filename, init) + [Target(filename, paths[|paths| - 1])];
    if i < |init| {
      TargetsAt(filename, init, i);
      assert init[i] == paths[i];
    }
  }

  lemma {:induction false} TargetsAppend(filename: string, a: seq<string>, b: seq<string>)
    requires IsAbsolute(filename)
    ensures Targets(filename, a + b) == Targets(filename, a) + Targets(filename, b)
    decreases |b|
  {
    if b == [] {
      assert a + b == a;
    } else {
      var b' := b[..|b| - 1];
      assert (a + b)[..|a + b| - 1] == a + b';
      assert (a + b)[|a + b| - 1] == b[|b| - 1];
      TargetsAppend(filename, a, b');
    }
  }

  // ---------------------------------------------------------------------
  // transform: the relative-to-absolute map and the require rewrite

  /** An insertion-ordered map, as a JavaScript `Map` iterates. */
  type Mapping = seq<(string, string)>

  function KeysOf(m: Mapping): seq<string> {
    if m == [] then [] else [m[0].0] + KeysOf(m[1..])
  }

  /** `m.set(k, v)`: a present key keeps its place and takes the new
      value; a new key goes last. */
  function MapSet(m: Mapping, k: string, v: string): (r: Mapping)
    ensures forall p :: p in KeysOf(r) <==> p in KeysOf(m) || p == k
    ensures forall i :: 0 <= i < |r| ==> r[i] in m || r[i] == (k, v)
  {
    if m == [] then [(k, v)]
    else if m[0].0 == k then [(k, v)] + m[1..]
    else [m[0]] + MapSet(m[1..], k, v)
  }

  /** `m.set(k, v)` in place: a present key keeps its position and takes
      `v`, every other entry stays where it was; a new key goes last. */
  lemma {:induction false} MapSetPlaces(m: Mapping, k: string, v: string)
    ensures k !in KeysOf(m) ==> MapSet(m, k, v) == m + [(k, v)]
    ensures forall j :: 0 <= j < |m| && m[j].0 == k && k !in KeysOf(m[..j]) ==> MapSet(m, k, v) == m[j := (k, v)]
    decreases |m|
  {
    if m != [] {
      MapSetPlaces(m[1..], k, v);
      if m[0].0 != k {
        forall j | 0 <= j < |m| && m[j].0 == k && k !in KeysOf(m[..j])
          ensures MapSet(m, k, v) == m[j := (k, v)]
        {
          assert j > 0;
          assert m[..j] == [m[0]] + m[1..][..j - 1];
          assert KeysOf(m[..j]) == [m[0].0] + KeysOf(m[1..][..j - 1]);
          assert m[1..][j - 1].0 == k;
          assert [m[0]] + m[1..][j - 1 := (k, v)] == m[j := (k, v)];
        }
      } else {
        forall j | 0 <= j < |m| && m[j].0 == k && k !in KeysOf(m[..j])
          ensures MapSet(m, k, v) == m[j := (k, v)]
        {
          assert [(k, v)] + m[1..] == m[0 := (k, v)];
        }
      }
    }
  }

  /** The map `transform` fills from the given relative paths. */
  function MappingOf(filename: string, paths: seq<string>): Mapping
    requires IsAbsolute(filename)
  {
    if paths == [] then []
    else
      var p := paths[|paths| - 1];
      MapSet(MappingOf(filename, paths[..|paths| - 1]), p, Target(filename, p))
  }

  lemma MappingStep(filename: string, nodes: seq<Node>, i: nat)
    requires IsAbsolute(filename) && i < |nodes|
    ensures DependencyPath(nodes[i]).None? ==>
      MappingOf(filename, DependencyPaths(nodes[..i + 1])) == MappingOf(filename, DependencyPaths(nodes[..i]))
    ensures DependencyPath(nodes[i]).Some? ==>
      var p := DependencyPath(nodes[i]).value;
      MappingOf(filename, DependencyPaths(nodes[..i + 1])) ==
        MapSet(MappingOf(filename, DependencyPaths(nodes[..i])), p, Target(filename, p))
  {
    var pre := nodes[..i + 1];
    assert pre[..i] == nodes[..i];
    var prev := DependencyPaths(nodes[..i]);
    var ps := DependencyPaths(pre);
    assert ps == prev + Listed(DependencyPath(nodes[i]));
    if DependencyPath(nodes[i]).Some? {
      var p := DependencyPath(nodes[i]).value;
      assert ps == prev + [p];
      assert ps[..|ps| - 1] == prev;
      assert MappingOf(filename, ps) == MapSet(MappingOf(filename, prev), p, Target(filename, p));
    } else {
      assert ps == prev;
    }
  }

  /** `require("p")` or `require('p')`. */
  function RequireCall(quote: char, p: string): string {
    "require(" + [quote] + p + [quote] + ")"
  }

  /** The call text the rewrite puts in: the identifier with its
      backslashes doubled, between single quotes. */
  function RewrittenCall(abs: string): string {
    "require('" + DoubleBackslashes(abs) + "')"
  }

  /** Both patterns of one map entry replaced, the double-quoted first. */
  function RewriteEntry(code: string, rel: string, abs: string): string {
    var rep := RewrittenCall(abs);
    ReplaceAll(ReplaceAll(code, RequireCall('"', rel), rep), RequireCall('\'', rel), rep)
  }

  function Rewrite(code: string, m: Mapping): string {
    if m == [] then code
    else RewriteEntry(Rewrite(code, m[..|m| - 1]), m[|m| - 1].0, m[|m| - 1].1)
  }

  /** The rewrite applies the map's entries one after another. */
  lemma RewriteStep(code: string, m: Mapping, j: nat)
    requires j < |m|
    ensures Rewrite(code, m[..j + 1]) == RewriteEntry(Rewrite(code, m[..j]), m[j].0, m[j].1)
  {
    assert m[..j + 1][..j] == m[..j];
  }

  /** transform with its two defects removed: the map is built from every
      node that names a dependency (relative requires as well as imports),
      and the call text is inserted literally. Errors of the compiler are
      wrapped as the source wraps them. */
  method Transform(nodes: seq<Node>, filename: string, dependencies: seq<string>, compiled: Result<string, string>)
    returns (r: Result<string, string>)
    requires IsAbsolute(filename)
    ensures compiled.Err? ==> r == Err("Failed to transform code: " + compiled.error)
    ensures compiled.Ok? ==> r == Ok(Rewrite(compiled.value, MappingOf(filename, DependencyPaths(nodes))))
  {
    if compiled.Err? {
      return Err("Failed to transform code: " + compiled.error);
    }
    var code := compiled.value;
    var pathMapping: Mapping := [];
    for i := 0 to |nodes|
      invariant pathMapping == MappingOf(filename, DependencyPaths(nodes[..i]))
    {
      MappingStep(filename, nodes, i);
      match DependencyPath(nodes[i])
      case Some(relativePath) =>
        var absolutePath := Resolve([Dirname(filename), relativePath]);
        if Extname(absolutePath) == "" {
          absolutePath := absolutePath + ".js";
        }
        pathMapping := MapSet(pathMapping, relativePath, absolutePath);
      case None =>
    }
    assert nodes[..|nodes|] == nodes;
    for j := 0 to |pathMapping|
      invariant code == Rewrite(compiled.value, pathMapping[..j])
    {
      RewriteStep(compiled.value, pathMapping, j);
      var (relativePath, absolutePath) := pathMapping[j];
      var replacement := "require('" + DoubleBackslashes(absolutePath) + "')";
      code := ReplaceAll(code, RequireCall('"', relativePath), replacement);
      code := ReplaceAll(code, RequireCall('\'', relativePath), replacement);
    }
    assert pathMapping[..|pathMapping|] == pathMapping;
    return Ok(code);
  }

  // ---------------------------------------------------------------------
  // transform as written

  function JsRewriteEntry(code: string, rel: string, abs: string): string {
    var rep := RewrittenCall(abs);
    JsReplaceAll(JsReplaceAll(code, RequireCall('"', rel), rep), RequireCall('\'', rel), rep)
  }

  function JsRewrite(code: string, m: Mapping): string {
    if m == [] then code
    else JsRewriteEntry(JsRewrite(code, m[..|m| - 1]), m[|m| - 1].0, m[|m| - 1].1)
  }

  /** transform exactly as src/parser.js writes it: the map comes from
      import declarations only, and `String.prototype.replace` reads the
      call text as a replacement pattern, so `$$`, `$&`, "$`" and "$'" in an
      identifier are expanded. */
  function TransformAsWritten(nodes: seq<Node>, filename: string, compiled: Result<string, string>): Result<string, string>
    requires IsAbsolute(filename)
  {
    match compiled
    case Err(e) => Err("Failed to transform code: " + e)
    case Ok(code) => Ok(JsRewrite(code, MappingOf(filename, ImportPaths(nodes))))
  }

  // ---------------------------------------------------------------------
  // Lemmas about dependency collection

  lemma DependencyPathsAppend(a: seq<Node>, b: seq<Node>)
    ensures DependencyPaths(a + b) == DependencyPaths(a) + DependencyPaths(b)
    ensures ImportPaths(a + b) == ImportPaths(a) + ImportPaths(b)
  {
    DependencyPathsConcat(a, b);
    ImportPathsConcat(a, b);
  }

  lemma {:induction false} DependencyPathsConcat(a: seq<Node>, b: seq<Node>)
    ensures DependencyPaths(a + b) == DependencyPaths(a) + DependencyPaths(b)
    decreases |b|
  {
    if b == [] {
      assert a + b == a;
    } else {
      var b', x := b[..|b| - 1], b[|b| - 1];
      assert (a + b)[..|a + b| - 1] == a + b';
      assert (a + b)[|a + b| - 1] == x;
      DependencyPathsConcat(a, b');
      var pa, pb, l := DependencyPaths(a), DependencyPaths(b'), Listed(DependencyPath(x));
      assert DependencyPaths(a + b) == pa + pb + l;
      assert DependencyPaths(b) == pb + l;
      assert pa + pb + l == pa + (pb + l);
    }
  }

  lemma {:induction false} ImportPathsConcat(a: seq<Node>, b: seq<Node>)
    ensures ImportPaths(a + b) == ImportPaths(a) + ImportPaths(b)
    decreases |b|
  {
    if b == [] {
      assert a + b == a;
    } else {
      var b', x := b[..|b| - 1], b[|b| - 1];
      assert (a + b)[..|a + b| - 1] == a + b';
      assert (a + b)[|a + b| - 1] == x;
      ImportPathsConcat(a, b');
      var pa, pb, l := ImportPaths(a), ImportPaths(b'), Listed(ImportPath(x));
      assert ImportPaths(a + b) == pa + pb + l;
      assert ImportPaths(b) == pb + l;
      assert pa + pb + l == pa + (pb + l);
    }
  }

  lemma {:induction false} WarningsAppend(filename: string, a: seq<Node>, b: seq<Node>)
    ensures Warnings(filename, a + b) == Warnings(filename, a) + Warnings(filename, b)
    decreases |b|
  {
    if b == [] {
      assert a + b == a;
    } else {
      var b', x := b[..|b| - 1], b[|b| - 1];
      assert (a + b)[..|a + b| - 1] == a + b';
      assert (a + b)[|a + b| - 1] == x;
      WarningsAppend(filename, a, b');
      var wa, wb, l := Warnings(filename, a), Warnings(filename, b'), WarningOf(filename, x);
      assert Warnings(filename, a + b) == wa + wb + l;
      assert Warnings(filename, b) == wb + l;
      assert wa + wb + l == wa + (wb + l);
    }
  }

  /** Dependencies and warnings follow source order and keep duplicates:
      those of two consecutive stretches of code are concatenated. */
  lemma SourceOrder(filename: string, a: seq<Node>, b: seq<Node>)
    requires IsAbsolute(filename)
    ensures Dependencies(filename, a + b) == Dependencies(filename, a) + Dependencies(filename, b)
    ensures Warnings(filename, a + b) == Warnings(filename, a) + Warnings(filename, b)
  {
    DependencyPathsAppend(a, b);
    TargetsAppend(filename, DependencyPaths(a), DependencyPaths(b));
    WarningsAppend(filename, a, b);
  }

  lemma {:induction false} DependencyPathsMembers(nodes: seq<Node>, p: string)
    ensures p in DependencyPaths(nodes) <==> exists k :: 0 <= k < |nodes| && DependencyPath(nodes[k]) == Some(p)
    ensures p in ImportPaths(nodes) <==> exists k :: 0 <= k < |nodes| && ImportPath(nodes[k]) == Some(p)
  {
    DependencyPathsHave(nodes, p);
    ImportPathsHave(nodes, p);
  }

  lemma {:induction false} DependencyPathsHave(nodes: seq<Node>, p: string)
    ensures p in DependencyPaths(nodes) <==> exists k :: 0 <= k < |nodes| && DependencyPath(nodes[k]) == Some(p)
    decreases |nodes|
  {
    if nodes != [] {
      var init, last := nodes[..|nodes| - 1], nodes[|nodes| - 1];
      DependencyPathsHave(init, p);
      var o := DependencyPath(last);
      assert DependencyPaths(nodes) == DependencyPaths(init) + Listed(o);
      assert p in Listed(o) <==> o == Some(p);
      if p in DependencyPaths(nodes) {
        if p in DependencyPaths(init) {
          var k :| 0 <= k < |init| && DependencyPath(init[k]) == Some(p);
          assert nodes[k] == init[k];
        } else {
          assert DependencyPath(nodes[|nodes| - 1]) == Some(p);
        }
      }
      if exists k :: 0 <= k < |nodes| && DependencyPath(nodes[k]) == Some(p) {
        var k :| 0 <= k < |nodes| && DependencyPath(nodes[k]) == Some(p);
        if k < |init| {
          assert init[k] == nodes[k];
        }
      }
    }
  }

  lemma {:induction false} ImportPathsHave(nodes: seq<Node>, p: string)
    ensures p in ImportPaths(nodes) <==> exists k :: 0 <= k < |nodes| && ImportPath(nodes[k]) == Some(p)
    decreases |nodes|
  {
    if nodes != [] {
      var init, last := nodes[..|nodes| - 1], nodes[|nodes| - 1];
      ImportPathsHave(init, p);
      var o := ImportPath(last);
      assert ImportPaths(nodes) == ImportPaths(init) + Listed(o);
      assert p in Listed(o) <==> o == Some(p);
      if p in ImportPaths(nodes) {
        if p in ImportPaths(init) {
          var k :| 0 <= k < |init| && ImportPath(init[k]) == Some(p);
          assert nodes[k] == init[k];
        } else {
          assert ImportPath(nodes[|nodes| - 1]) == Some(p);
        }
      }
      if exists k :: 0 <= k < |nodes| && ImportPath(nodes[k]) == Some(p) {
        var k :| 0 <= k < |nodes| && ImportPath(nodes[k]) == Some(p);
        if k < |init| {
          assert init[k] == nodes[k];
        }
      }
    }
  }

  /** An identifier is a dependency exactly when some relative import or
      qualifying require of the module resolves to it. */
  lemma DependencyMembers(filename: string, nodes: seq<Node>, d: string)
    requires IsAbsolute(filename)
    ensures d in Dependencies(filename, nodes) <==>
      exists k :: 0 <= k < |nodes| && DependencyPath(nodes[k]).Some? && d == Target(filename, DependencyPath(nodes[k]).value)
  {
    var ps := DependencyPaths(nodes);
    if d in Dependencies(filename, nodes) {
      var i :| 0 <= i < |ps| && Dependencies(filename, nodes)[i] == d;
      TargetsAt(filename, ps, i);
      DependencyPathsMembers(nodes, ps[i]);
    }
    if exists k :: 0 <= k < |nodes| && DependencyPath(nodes[k]).Some? && d == Target(filename, DependencyPath(nodes[k]).value) {
      var k :| 0 <= k < |nodes| && DependencyPath(nodes[k]).Some? && d == Target(filename, DependencyPath(nodes[k]).value);
      var p := DependencyPath(nodes[k]).value;
      DependencyPathsMembers(nodes, p);
      var i :| 0 <= i < |ps| && ps[i] == p;
      TargetsAt(filename, ps, i);
      assert Dependencies(filename, nodes)[i] == d;
    }
  }

  lemma TargetShape(filename: string, p: string)
    requires IsAbsolute(filename)
    ensures IsCanonical(Target(filename, p))
    ensures Extname(Target(filename, p)) != "" || Target(filename, p) == "/.js"
  {
    ResolveCanonical([Dirname(filename), p]);
    DefaultExtension(Resolve([Dirname(filename), p]));
  }

  /** Every dependency is a canonical absolute path with an extension; the
      only exception is "/.js", what a relative path reaching the root
      becomes. */
  lemma DependenciesCanonical(filename: string, nodes: seq<Node>)
    requires IsAbsolute(filename)
    ensures forall d :: d in Dependencies(filename, nodes) ==>
      IsCanonical(d) && IsAbsolute(d) && (Extname(d) != "" || d == "/.js")
  {
    forall d | d in Dependencies(filename, nodes)
      ensures IsCanonical(d) && IsAbsolute(d) && (Extname(d) != "" || d == "/.js")
    {
      var ts := Dependencies(filename, nodes);
      var i :| 0 <= i < |ts| && ts[i] == d;
      TargetsAt(filename, DependencyPaths(nodes), i);
      TargetShape(filename, DependencyPaths(nodes)[i]);
      CanonicalIsAbsolute(d);
    }
  }

  /** The node at `k` is a non-relative import whose warning is `w`. */
  predicate WarnsAt(filename: string, nodes: seq<Node>, k: int, w: string) {
    0 <= k < |nodes| && nodes[k].ImportDeclaration? && !IsRelative(nodes[k].source)
      && w == WarningText(filename, nodes[k].source)
  }

  lemma {:induction false} WarningsMembers(filename: string, nodes: seq<Node>, w: string)
    ensures w in Warnings(filename, nodes) <==> exists k :: WarnsAt(filename, nodes, k, w)
    decreases |nodes|
  {
    if nodes != [] {
      var init, last := nodes[..|nodes| - 1], nodes[|nodes| - 1];
      WarningsMembers(filename, init, w);
      var o := WarningOf(filename, last);
      assert Warnings(filename, nodes) == Warnings(filename, init) + o;
      assert w in o <==> WarnsAt(filename, nodes, |nodes| - 1, w);
      if w in Warnings(filename, nodes) {
        if w in Warnings(filename, init) {
          var k :| WarnsAt(filename, init, k, w);
          assert nodes[k] == init[k];
          assert WarnsAt(filename, nodes, k, w);
        }
      }
      if exists k :: WarnsAt(filename, nodes, k, w) {
        var k :| WarnsAt(filename, nodes, k, w);
        if k < |init| {
          assert init[k] == nodes[k];
          assert WarnsAt(filename, init, k, w);
        }
      }
    }
  }

  /** A non-relative import is never a dependency and is warned about; a
      non-relative require is dropped without a warning. */
  lemma NonRelativeSkipped(filename: string, nodes: seq<Node>, k: nat)
    requires IsAbsolute(filename) && k < |nodes|
    ensures nodes[k].ImportDeclaration? && !IsRelative(nodes[k].source) ==>
      DependencyPath(nodes[k]).None? && WarningText(filename, nodes[k].source) in Warnings(filename, nodes)
    ensures nodes[k].CallExpression? ==> WarningOf(filename, nodes[k]) == []
    ensures forall p :: p in DependencyPaths(nodes) ==> IsRelative(p)
  {
    if nodes[k].ImportDeclaration? && !IsRelative(nodes[k].source) {
      var w := WarningText(filename, nodes[k].source);
      assert WarnsAt(filename, nodes, k, w);
      WarningsMembers(filename, nodes, w);
    }
    forall p | p in DependencyPaths(nodes) ensures IsRelative(p) {
      DependencyPathsHave(nodes, p);
      var j :| 0 <= j < |nodes| && DependencyPath(nodes[j]) == Some(p);
    }
  }

  // ---------------------------------------------------------------------
  // Lemmas about the path map

  predicate DistinctKeys(m: Mapping) {
    forall i, j :: 0 <= i < j < |m| ==> m[i].0 != m[j].0
  }

  lemma {:induction false} KeysOfMembers(m: Mapping, k: string)
    ensures k in KeysOf(m) <==> exists i :: 0 <= i < |m| && m[i].0 == k
    decreases |m|
  {
    if m != [] {
      KeysOfMembers(m[1..], k);
      if exists i :: 0 <= i < |m| && m[i].0 == k {
        var i :| 0 <= i < |m| && m[i].0 == k;
        if i > 0 { assert m[1..][i - 1].0 == k; }
      }
    }
  }

  lemma {:induction false} MapSetDistinct(m: Mapping, k: string, v: string)
    requires DistinctKeys(m)
    ensures DistinctKeys(MapSet(m, k, v))
    decreases |m|
  {
    if m != [] && m[0].0 != k {
      MapSetDistinct(m[1..], k, v);
      var r := MapSet(m, k, v);
      forall j | 0 < j < |r| ensures r[0].0 != r[j].0 {
        assert r[j] == MapSet(m[1..], k, v)[j - 1];
        KeysOfMembers(m[1..], m[0].0);
        KeysOfMembers(MapSet(m[1..], k, v), m[0].0);
      }
    }
  }

  /** The map holds one entry per distinct relative path, each mapped to
      the identifier the same path gives as a dependency. */
  lemma MappingEntries(filename: string, paths: seq<string>)
    requires IsAbsolute(filename)
    ensures var m := MappingOf(filename, paths);
      && DistinctKeys(m)
      && (forall i :: 0 <= i < |m| ==> m[i].1 == Target(filename, m[i].0))
      && (forall p :: p in KeysOf(m) <==> p in paths)
  {
    MappingDistinct(filename, paths);
    MappingTargets(filename, paths);
    MappingKeys(filename, paths);
    var m := MappingOf(filename, paths);
    forall i | 0 <= i < |m| ensures m[i].1 == Target(filename, m[i].0) {
      assert m[i] in m;
    }
  }

  lemma {:induction false} MappingDistinct(filename: string, paths: seq<string>)
    requires IsAbsolute(filename)
    ensures DistinctKeys(MappingOf(filename, paths))
    decreases |paths|
  {
    if paths != [] {
      var init, p := paths[..|paths| - 1], paths[|paths| - 1];
      MappingDistinct(filename, init);
      MapSetDistinct(MappingOf(filename, init), p, Target(filename, p));
    }
  }

  lemma {:induction false} MappingTargets(filename: string, paths: seq<string>)
    requires IsAbsolute(filename)
    ensures forall e :: e in MappingOf(filename, paths) ==> e.1 == Target(filename, e.0)
    decreases |paths|
  {
    if paths != [] {
      var init, p := paths[..|paths| - 1], paths[|paths| - 1];
      MappingTargets(filename, init);
      var m0 := MappingOf(filename, init);
      var m := MapSet(m0, p, Target(filename, p));
      forall e | e in m ensures e.1 == Target(filename, e.0) {
        var i :| 0 <= i < |m| && m[i] == e;
      }
    }
  }

  lemma {:induction false} MappingKeys(filename: string, paths: seq<string>)
    requires IsAbsolute(filename)
    ensures forall q :: q in KeysOf(MappingOf(filename, paths)) <==> q in paths
    decreases |paths|
  {
    if paths != [] {
      var init, p := paths[..|paths| - 1], paths[|paths| - 1];
      MappingKeys(filename, init);
      assert MappingOf(filename, paths) == MapSet(MappingOf(filename, init), p, Target(filename, p));
      assert paths == init + [p];
    }
  }

  function ValuesOf(m: Mapping): set<string> {
    set i | 0 <= i < |m| :: m[i].1
  }

  lemma MappingValues(filename: string, paths: seq<string>)
    requires IsAbsolute(filename)
    ensures ValuesOf(MappingOf(filename, paths)) == set p | p in paths :: Target(filename, p)
  {
    var m := MappingOf(filename, paths);
    MappingEntries(filename, paths);
    forall d | d in ValuesOf(m) ensures d in set p | p in paths :: Target(filename, p) {
      var i :| 0 <= i < |m| && m[i].1 == d;
      KeysOfMembers(m, m[i].0);
    }
    forall p | p in paths ensures Target(filename, p) in ValuesOf(m) {
      KeysOfMembers(m, p);
      var i :| 0 <= i < |m| && m[i].0 == p;
    }
  }

  /** The corrected map names exactly the module's dependencies: every
      dependency has an entry, and every entry is a dependency. */
  lemma MappingMatchesDependencies(filename: string, nodes: seq<Node>)
    requires IsAbsolute(filename)
    ensures ValuesOf(MappingOf(filename, DependencyPaths(nodes))) == set d | d in Dependencies(filename, nodes)
  {
    var ps := DependencyPaths(nodes);
    MappingValues(filename, ps);
    forall d ensures d in Dependencies(filename, nodes) <==> exists p :: p in ps && d == Target(filename, p) {
      TargetsMembers(filename, ps, d);
    }
  }

  /** The targets are exactly the targets of the paths. */
  lemma TargetsMembers(filename: string, ps: seq<string>, d: string)
    requires IsAbsolute(filename)
    ensures d in Targets(filename, ps) <==> exists p :: p in ps && d == Target(filename, p)
  {
    var ts := Targets(filename, ps);
    if d in ts {
      var i :| 0 <= i < |ts| && ts[i] == d;
      TargetsAt(filename, ps, i);
      assert ps[i] in ps;
    }
    if exists p :: p in ps && d == Target(filename, p) {
      var p :| p in ps && d == Target(filename, p);
      var i :| 0 <= i < |ps| && ps[i] == p;
      TargetsAt(filename, ps, i);
      assert ts[i] == d;
    }
  }

  /** As written, the map is built from import declarations only: every
      entry is a dependency, but a relative require has no entry unless
      the same path is also imported. */
  lemma AsWrittenMappingWithin(filename: string, nodes: seq<Node>)
    requires IsAbsolute(filename)
    ensures ValuesOf(MappingOf(filename, ImportPaths(nodes))) <= set d | d in Dependencies(filename, nodes)
  {
    var ips := ImportPaths(nodes);
    MappingValues(filename, ips);
    forall p | p in ips ensures Target(filename, p) in Dependencies(filename, nodes) {
      DependencyPathsMembers(nodes, p);
      var k :| 0 <= k < |nodes| && ImportPath(nodes[k]) == Some(p);
      DependencyMembers(filename, nodes, Target(filename, p));
    }
  }

  // ---------------------------------------------------------------------
  // Lemmas about the rewrite

  lemma {:induction false} ImportPathsEmpty(nodes: seq<Node>)
    requires forall k :: 0 <= k < |nodes| ==> !nodes[k].ImportDeclaration?
    ensures ImportPaths(nodes) == []
    decreases |nodes|
  {
    if nodes != [] {
      var init := nodes[..|nodes| - 1];
      assert forall k :: 0 <= k < |init| ==> init[k] == nodes[k];
      ImportPathsEmpty(init);
    }
  }

  /** As written, code of a module without import declarations comes back
      from the compiler's output untouched, relative requires included. */
  lemma AsWrittenKeepsRequires(nodes: seq<Node>, filename: string, code: string)
    requires IsAbsolute(filename)
    requires forall k :: 0 <= k < |nodes| ==> !nodes[k].ImportDeclaration?
    ensures TransformAsWritten(nodes, filename, Ok(code)) == Ok(code)
  {
    ImportPathsEmpty(nodes);
  }

  /** Code in which no mapped pattern occurs is not changed. */
  lemma {:induction false} RewriteUntouched(code: string, m: Mapping)
    requires forall i :: 0 <= i < |m| ==>
      Absent(code, RequireCall('"', m[i].0)) && Absent(code, RequireCall('\'', m[i].0))
    ensures Rewrite(code, m) == code
    decreases |m|
  {
    if m != [] {
      var init := m[..|m| - 1];
      assert forall i :: 0 <= i < |init| ==> init[i] == m[i];
      RewriteUntouched(code, init);
      var (rel, abs) := m[|m| - 1];
      var rep := RewrittenCall(abs);
      ReplaceAbsent(code, RequireCall('"', rel), rep);
      ReplaceAbsent(code, RequireCall('\'', rel), rep);
    }
  }

  /** Doubling backslashes adds no other character. */
  lemma {:induction false} CharFree(s: string, c: char)
    requires c != '\\' && c !in s
    ensures c !in DoubleBackslashes(s)
    decreases |s|
  {
    if s != [] {
      assert s[0] != c;
      CharFree(s[1..], c);
    }
  }

  lemma {:induction false} JsRewritePlain(code: string, m: Mapping)
    requires forall i :: 0 <= i < |m| ==> '$' !in m[i].1
    ensures JsRewrite(code, m) == Rewrite(code, m)
    decreases |m|
  {
    if m != [] {
      var init := m[..|m| - 1];
      assert forall i :: 0 <= i < |init| ==> init[i] == m[i];
      JsRewritePlain(code, init);
      var (rel, abs) := m[|m| - 1];
      CharFree(abs, '$');
      var rep := RewrittenCall(abs);
      assert '$' !in rep;
      var c := Rewrite(code, init);
      JsReplacePlain(c, RequireCall('"', rel), rep);
      JsReplacePlain(ReplaceAll(c, RequireCall('"', rel), rep), RequireCall('\'', rel), rep);
    }
  }

  /** For a module whose dependencies all come from import declarations
      and contain no "$", the code as written and the corrected code
      agree. */
  lemma AsWrittenAgrees(nodes: seq<Node>, filename: string, code: string)
    requires IsAbsolute(filename)
    requires ImportPaths(nodes) == DependencyPaths(nodes)
    requires forall d :: d in Dependencies(filename, nodes) ==> '$' !in d
    ensures TransformAsWritten(nodes, filename, Ok(code)) ==
      Ok(Rewrite(code, MappingOf(filename, DependencyPaths(nodes))))
  {
    var m := MappingOf(filename, DependencyPaths(nodes));
    MappingEntries(filename, DependencyPaths(nodes));
    forall i | 0 <= i < |m| ensures '$' !in m[i].1 {
      KeysOfMembers(m, m[i].0);
      DependencyPathsMembers(nodes, m[i].0);
      var k :| 0 <= k < |nodes| && DependencyPath(nodes[k]) == Some(m[i].0);
      DependencyMembers(filename, nodes, m[i].1);
    }
    JsRewritePlain(code, m);
  }

  /** A text of the pattern's length that differs from it holds no
      occurrence of it. */
  lemma ReplaceOther(s: string, pat: string, rep: string)
    requires |s| == |pat| && s != pat
    ensures ReplaceAll(s, pat, rep) == s
  {
    forall i | 0 <= i <= |s| ensures !OccursAt(s, pat, i) {
      if i == 0 { assert s[0..|pat|] == s; }
    }
    ReplaceAbsent(s, pat, rep);
  }

  /** The single-quoted pattern of a relative path does not occur in a
      rewritten call to an absolute identifier without quotes. */
  lemma RewrittenCallClean(rel: string, abs: string)
    requires IsRelative(rel) && IsAbsolute(abs) && FitsSingleQuotes(abs)
    ensures Absent(RewrittenCall(abs), RequireCall('\'', rel))
  {
    var d := DoubleBackslashes(abs);
    var s, pat := RewrittenCall(abs), RequireCall('\'', rel);
    assert d[0] == '/';
    CharFree(abs, '\'');
    forall i | 0 <= i <= |s| ensures !OccursAt(s, pat, i) {
      if i + |pat| <= |s| {
        var w := s[i..i + |pat|];
        if i == 0 {
          assert w[9] == d[0] != '.' == pat[9];
        } else {
          assert w[8] == s[i + 8] == d[i - 1];
          assert d[i - 1] in d;
          assert w[8] != pat[8];
        }
      }
    }
  }

  /** The corrected rewrite turns either form of a call naming `rel` into
      a single-quoted call whose literal reads back as the identifier
      itself, whatever characters the identifier holds besides quotes and
      line breaks. */
  lemma CorrectedCallRewritten(rel: string, abs: string, q: char)
    requires IsRelative(rel) && IsAbsolute(abs) && FitsSingleQuotes(abs)
    requires q == '"' || q == '\''
    ensures RewriteEntry(RequireCall(q, rel), rel, abs) == RewrittenCall(abs)
    ensures SingleQuotedValue(DoubleBackslashes(abs)) == Some(abs)
  {
    var rep := RewrittenCall(abs);
    var dq, sq := RequireCall('"', rel), RequireCall('\'', rel);
    assert dq[8] != sq[8];
    if q == '"' {
      assert ReplaceAll(dq, dq, rep) == rep;
      RewrittenCallClean(rel, abs);
      ReplaceAbsent(rep, sq, rep);
    } else {
      ReplaceOther(sq, dq, rep);
      assert ReplaceAll(sq, sq, rep) == rep;
    }
    DoubledReadsBack(abs);
  }

  // ---------------------------------------------------------------------
  // Witnesses for the two defects of transform as written

  /** `Target` of "./n" in a file of directory ds, for an extensionless
      n: the sibling ds/n.js. */
  lemma TargetOfSibling(ds: seq<string>, f: string, n: string, t: string)
    requires AllNames(ds) && IsName(f) && IsName(n) && '.' !in n
    requires t == Slashed(ds + [n]) + ".js"
    ensures IsAbsolute(Slashed(ds + [f]))
    ensures Target(Slashed(ds + [f]), "./" + n) == t
  {
    var file := Slashed(ds + [f]);
    assert AllNames(ds + [f]);
    SegmentsOfSlashed(ds + [f]);
    SlashedStart(ds + [f]);
    assert (ds + [f])[..|ds|] == ds;
    ResolveAgainstDirname(file, "./" + n);
    assert Segments("./" + n) == [".", n] by {
      var r := "./" + n;
      assert r[1..][0] == '/';
      assert RunLength(r) == 1 + RunLength(r[1..]) == 1;
      assert r[..1] == ".";
      assert r[1..] == "/" + n == Slashed([n]);
      assert AllSegments([n]);
      SegmentsOfSlashed([n]);
      assert Segments(r) == [r[..1]] + Segments(r[1..]);
    }
    NormalizeAppend([], ds, [".", n]);
    NormalizeNamesIdentity([], ds);
    assert Normalize(ds, [".", n]) == ds + [n] by {
      assert [".", n][1..] == [n];
      assert Normalize(ds, [".", n]) == Normalize(ds, [n]);
      assert [n][1..] == [];
      assert Normalize(ds, [n]) == Normalize(ds + [n], []);
    }
    assert [] + ds == ds;
    assert ds + [".", n] == ds + Segments("./" + n);
    var resolved := Slashed(ds + [n]);
    assert AllNames(ds + [n]);
    SlashedStart(ds + [n]);
    assert Resolve([Dirname(file), "./" + n]) == resolved;
    SegmentsOfSlashed(ds + [n]);
    assert Basename(resolved) == n;
    assert LastDot(n) == -1;
  }

  lemma RewriteSingle(code: string, rel: string, abs: string)
    ensures Rewrite(code, [(rel, abs)]) == RewriteEntry(code, rel, abs)
    ensures JsRewrite(code, [(rel, abs)]) == JsRewriteEntry(code, rel, abs)
  {
    assert [(rel, abs)][..0] == [];
  }

  /** A CommonJS relative require is a dependency, registered under its
      absolute identifier (for "/src/a.js" requiring './b': "/src/b.js"),
      yet the code as written keeps asking for the relative path, which
      no registered module answers to; the corrected rewrite names the
      identifier. */
  lemma RequireLeftRelative(ds: seq<string>, f: string, n: string)
    requires AllNames(ds) && IsName(f) && IsName(n) && '.' !in n
    requires FitsSingleQuotes(Slashed(ds + [n]) + ".js")
    ensures IsAbsolute(Slashed(ds + [f]))
    ensures var file, rel := Slashed(ds + [f]), "./" + n;
      var nodes := [CallExpression(Identifier("require"), [StringLiteral(rel)])];
      var code := RequireCall('\'', rel);
      && Dependencies(file, nodes) == [Slashed(ds + [n]) + ".js"]
      && TransformAsWritten(nodes, file, Ok(code)) == Ok(code)
      && Rewrite(code, MappingOf(file, DependencyPaths(nodes))) == RewrittenCall(Slashed(ds + [n]) + ".js")
  {
    var file, rel, abs := Slashed(ds + [f]), "./" + n, Slashed(ds + [n]) + ".js";
    var nodes := [CallExpression(Identifier("require"), [StringLiteral(rel)])];
    TargetOfSibling(ds, f, n, abs);
    assert DependencyPath(nodes[0]) == Some(rel);
    assert DependencyPaths(nodes) == [rel];
    assert ImportPaths(nodes) == [];
    assert [rel][..0] == [];
    assert MappingOf(file, [rel]) == MapSet([], rel, abs) == [(rel, abs)];
    SlashedStart(ds + [n]);
    CorrectedCallRewritten(rel, abs, '\'');
    RewriteSingle(RequireCall('\'', rel), rel, abs);
  }

  /** JavaScript's replace reads "$$" in the call text as "$": a
      double-quoted call naming `rel` is rewritten into a call of the
      identifier with that "$$" halved. */
  lemma JsRewriteHalvesDollars(rel: string, x: string, y: string)
    requires IsRelative(rel) && IsAbsolute(x)
    requires '$' !in x && '$' !in y && '\\' !in x && '\\' !in y
    requires FitsSingleQuotes(x) && FitsSingleQuotes(y)
    ensures JsRewriteEntry(RequireCall('"', rel), rel, x + "$$" + y) == RewrittenCall(x + "$" + y)
  {
    var abs, other := x + "$$" + y, x + "$" + y;
    var dq, sq := RequireCall('"', rel), RequireCall('\'', rel);
    var rep := RewrittenCall(abs);
    var pre, post := "require('" + x, y + "')";
    DollarCalls(x, y);
    JsReplaceWhole(dq, rep);
    SubstituteEscapedDollar(pre, post, dq, [], []);
    FitsConcat(x, "$");
    FitsConcat(x + "$", y);
    RewrittenCallClean(rel, other);
    JsReplaceAbsent([], RewrittenCall(other), sq, rep);
  }

  /** The two call texts around a "$$" and a "$", piece by piece. */
  lemma DollarCalls(x: string, y: string)
    requires '$' !in x && '$' !in y && '\\' !in x && '\\' !in y
    ensures RewrittenCall(x + "$$" + y) == ("require('" + x) + "$$" + (y + "')")
    ensures RewrittenCall(x + "$" + y) == ("require('" + x) + "$" + (y + "')")
    ensures '$' !in "require('" + x && '$' !in y + "')"
  {
    NoBackslashes(x + "$$" + y);
    NoBackslashes(x + "$" + y);
  }

  /** A module whose one node is a relative import of `rel`. */
  lemma SingleImport(file: string, rel: string)
    requires IsAbsolute(file) && IsRelative(rel)
    ensures var nodes := [ImportDeclaration(rel)];
      && DependencyPaths(nodes) == [rel] == ImportPaths(nodes)
      && Dependencies(file, nodes) == [Target(file, rel)]
      && MappingOf(file, [rel]) == [(rel, Target(file, rel))]
  {
    var nodes := [ImportDeclaration(rel)];
    assert ImportPath(nodes[0]) == Some(rel) == DependencyPath(nodes[0]);
    assert nodes[..0] == [];
    assert ImportPaths(nodes) == ImportPaths(nodes[..0]) + Listed(ImportPath(nodes[0]));
    assert [rel][..0] == [];
  }

  lemma DollarTarget(a: string, f: string, n: string)
    requires IsName(a) && IsName(f) && IsName(n) && '.' !in n
    ensures IsAbsolute(Slashed([a, "$$", f]))
    ensures Target(Slashed([a, "$$", f]), "./" + n) == "/" + a + "/$$/" + n + ".js"
  {
    var ds := [a, "$$"];
    assert ds + [f] == [a, "$$", f] && ds + [n] == [a, "$$", n];
    assert AllNames(ds);
    assert Slashed([n]) == "/" + n;
    assert Slashed(["$$", n]) == "/$$" + Slashed([n]);
    TargetOfSibling(ds, f, n, "/" + a + "/$$/" + n + ".js");
  }

  /** An identifier holding a "$$" piece is rewritten as written into a
      call of a different identifier, "$$" read as "$" (for "/w/$$/a.js"
      importing "./m": require('/w/$/m.js') in place of
      require('/w/$$/m.js')); the corrected rewrite keeps it. */
  lemma DollarIdentifierMangled(a: string, f: string, n: string)
    requires IsName(a) && IsName(f) && IsName(n) && '.' !in n
    requires '$' !in a && '$' !in n && '\\' !in a && '\\' !in n
    requires FitsSingleQuotes(a) && FitsSingleQuotes(n)
    ensures IsAbsolute(Slashed([a, "$$", f]))
    ensures var file, rel, abs := Slashed([a, "$$", f]), "./" + n, "/" + a + "/$$/" + n + ".js";
      var nodes := [ImportDeclaration(rel)];
      var code := RequireCall('"', rel);
      && Dependencies(file, nodes) == [abs]
      && TransformAsWritten(nodes, file, Ok(code)) == Ok(RewrittenCall("/" + a + "/$/" + n + ".js"))
      && Rewrite(code, MappingOf(file, DependencyPaths(nodes))) == RewrittenCall(abs)
  {
    var file, rel, abs := Slashed([a, "$$", f]), "./" + n, "/" + a + "/$$/" + n + ".js";
    var x, y := "/" + a + "/", "/" + n + ".js";
    DollarPieces(a, n);
    DollarTarget(a, f, n);
    assert "./" <= rel;
    SingleImport(file, rel);
    var code := RequireCall('"', rel);
    RewriteSingle(code, rel, abs);
    CorrectedCallRewritten(rel, abs, '"');
    JsRewriteHalvesDollars(rel, x, y);
  }

  lemma DollarPieces(a: string, n: string)
    requires '$' !in a && '$' !in n && '\\' !in a && '\\' !in n
    requires FitsSingleQuotes(a) && FitsSingleQuotes(n) && IsName(a)
    ensures var x, y := "/" + a + "/", "/" + n + ".js";
      && "/" + a + "/$$/" + n + ".js" == x + "$$" + y
      && "/" + a + "/$/" + n + ".js" == x + "$" + y
      && IsAbsolute(x) && '$' !in x && '$' !in y && '\\' !in x && '\\' !in y
      && FitsSingleQuotes(x) && FitsSingleQuotes(y) && FitsSingleQuotes(x + "$$" + y)
  {
    var x, y := "/" + a + "/", "/" + n + ".js";
    FitsConcat("/", a);
    FitsConcat("/" + a, "/");
    FitsConcat("/", n);
    FitsConcat("/" + n, ".js");
    FitsConcat(x, "$$");
    FitsConcat(x + "$$", y);
  }
}
