/** The Babel-plugin front end: recognising the macro's import (or
    `require`) by structural matching over host objects, grouping the
    references of each imported name, and running the transformers in
    their fixed order. */
module Plugin {
  import opened Tree
  import opened Navigation
  import ImplicitParams
  import Placeholders
  import Lift

  // ---------------------------------------------------------------- host values

  /** The predicates that appear as function values in patterns (a value
      cannot hold an arbitrary function over values). */
  datatype Test = SoleArgIsName | SoleArgValueIsName

  /** The JavaScript values the matcher meets.  Objects, arrays and functions
      carry an identity; a function value is one of the known predicates. */
  datatype JsValue =
    | JUndefined
    | JNull
    | JBool(b: bool)
    | JNum(n: int)
    | JStr(s: string)
    | JBigInt(i: int)
    | JSymbol(sid: nat)
    | JObject(oid: nat, props: seq<(string, JsValue)>)
    | JArray(aid: nat, elems: seq<JsValue>)
    | JFunction(fid: nat, test: Test)

  /** `typeof`. */
  function TypeOf(v: JsValue): (r: string)
    ensures |r| > 0
  {
    match v
    case JUndefined => "undefined"
    case JNull => "object"
    case JBool(_) => "boolean"
    case JNum(_) => "number"
    case JStr(_) => "string"
    case JBigInt(_) => "bigint"
    case JSymbol(_) => "symbol"
    case JObject(_, _) => "object"
    case JArray(_, _) => "object"
    case JFunction(_, _) => "function"
  }

  /** `val == null`: loose equality with `null` holds for `null` and `undefined`. */
  predicate IsNullish(v: JsValue) {
    v.JUndefined? || v.JNull?
  }

  /** `isPrimitive`: nullish, or a `typeof` whose first letter is `s`, `b` or `n`. */
  function IsPrimitive(v: JsValue): bool {
    IsNullish(v) || TypeOf(v)[0] in ['s', 'b', 'n']
  }

  /** JavaScript truthiness. */
  function Truthy(v: JsValue): bool {
    match v
    case JUndefined => false
    case JNull => false
    case JBool(b) => b
    case JNum(n) => n != 0
    case JStr(s) => s != ""
    case JBigInt(i) => i != 0
    case _ => true
  }

  /** `===`: primitives by value, everything else by identity. */
  function StrictEq(x: JsValue, y: JsValue): bool {
    match (x, y)
    case (JUndefined, JUndefined) => true
    case (JNull, JNull) => true
    case (JBool(a), JBool(b)) => a == b
    case (JNum(a), JNum(b)) => a == b
    case (JStr(a), JStr(b)) => a == b
    case (JBigInt(a), JBigInt(b)) => a == b
    case (JSymbol(a), JSymbol(b)) => a == b
    case (JObject(a, _), JObject(b, _)) => a == b
    case (JArray(a, _), JArray(b, _)) => a == b
    case (JFunction(a, _), JFunction(b, _)) => a == b
    case _ => false
  }

  /** The value of an own property of an object (first entry with the key). */
  function Lookup(props: seq<(string, JsValue)>, key: string): JsValue
    decreases |props|
  {
    if props == [] then JUndefined
    else if props[0].0 == key then props[0].1
    else Lookup(props[1..], key)
  }

  /** The first entry with the key gives the property's value. */
  lemma {:induction false} LookupFirst(props: seq<(string, JsValue)>, key: string, i: nat)
    requires i < |props| && props[i].0 == key
    requires forall j | 0 <= j < i :: props[j].0 != key
    ensures Lookup(props, key) == props[i].1
    decreases i
  {
    if i > 0 {
      LookupFirst(props[1..], key, i - 1);
    }
  }

  /** `a[key]` for an object; other values have no properties here. */
  function Get(a: JsValue, key: string): JsValue {
    if a.JObject? then Lookup(a.props, key) else JUndefined
  }

  // ---------------------------------------------------------------- structural matching

  /** `looksLike(a, b)`: both truthy, and every own key of the pattern `b`
      matches `a`'s property of that name. */
  function LooksLike(a: JsValue, b: JsValue): bool
    decreases b, 2
  {
    Truthy(a) && Truthy(b) && (b.JObject? ==> MatchFrom(a, b, 0))
  }

  /** The `every` over the pattern's keys, from the `i`-th on. */
  function MatchFrom(a: JsValue, b: JsValue, i: nat): bool
    requires b.JObject?
    decreases b, 1, |b.props| - i
  {
    if i >= |b.props| then true
    else
      assert b.props[i] in b.props;
      MatchValue(Get(a, b.props[i].0), b.props[i].1) && MatchFrom(a, b, i + 1)
  }

  /** One key: a function pattern is applied, a primitive one compared with
      `===`, an object one matched recursively. */
  function MatchValue(aVal: JsValue, bVal: JsValue): bool
    decreases bVal, 3
  {
    if bVal.JFunction? then Apply(bVal.test, aVal)
    else if IsPrimitive(bVal) then StrictEq(bVal, aVal)
    else LooksLike(aVal, bVal)
  }

  /** The package's own name, as imports and `require` calls spell it. */
  const PackageName: string := "param.macro"

  /** A pattern object; patterns are never compared by identity. */
  function Pattern(props: seq<(string, JsValue)>): JsValue {
    JObject(0, props)
  }

  /** `isImport`: the declaration's source string is the package name. */
  function IsImport(path: JsValue): bool {
    LooksLike(path, Pattern([("node", Pattern([("source", Pattern([("value", JStr(PackageName))]))]))]))
  }

  /** Calling a function value.  `SoleArgIsName` is the `arguments` test of
      `isRequire` as written: the sole argument is compared with `===` to the
      package NAME.  `SoleArgValueIsName` is the evidently intended test: the
      sole argument's literal value is the package name. */
  function Apply(f: Test, args: JsValue): bool {
    match f
    case SoleArgIsName => args.JArray? && |args.elems| == 1 && StrictEq(args.elems[0], JStr(PackageName))
    case SoleArgValueIsName =>
      args.JArray? && |args.elems| == 1 && StrictEq(Get(args.elems[0], "value"), JStr(PackageName))
  }

  function CalleePattern(): JsValue {
    Pattern([("type", JStr("Identifier")), ("name", JStr("require"))])
  }

  function ParentPattern(): JsValue {
    Pattern([("type", JStr("VariableDeclarator"))])
  }

  function NodePattern(argsTest: Test): JsValue {
    Pattern([("callee", CalleePattern()), ("arguments", JFunction(0, argsTest))])
  }

  function RequirePattern(argsTest: Test): JsValue {
    Pattern([("node", NodePattern(argsTest)), ("parent", ParentPattern())])
  }

  /** `isRequire` as written. */
  function IsRequireAsWritten(path: JsValue): bool {
    LooksLike(path, RequirePattern(SoleArgIsName))
  }

  /** `isRequire` with the argument's value compared to the package name. */
  function IsRequire(path: JsValue): bool {
    LooksLike(path, RequirePattern(SoleArgValueIsName))
  }

  // ---------------------------------------------------------------- host shapes

  /** The host's path for `import ... from source` (only the properties read). */
  function ImportPath(source: string): JsValue {
    JObject(1, [("node", JObject(2, [
      ("type", JStr("ImportDeclaration")),
      ("source", JObject(3, [("type", JStr("StringLiteral")), ("value", JStr(source))]))]))])
  }

  /** The host's path for `const ... = require(source)` (only the properties read). */
  function RequirePath(source: string): JsValue {
    JObject(1, [("node", RequireCall(source)), ("parent", JObject(6, [("type", JStr("VariableDeclarator"))]))])
  }

  /** The call node of `require(source)`. */
  function RequireCall(source: string): JsValue {
    JObject(2, [
      ("type", JStr("CallExpression")),
      ("callee", JObject(3, [("type", JStr("Identifier")), ("name", JStr("require"))])),
      ("arguments", JArray(4, [JObject(5, [("type", JStr("StringLiteral")), ("value", JStr(source))])]))])
  }

  // ---------------------------------------------------------------- properties of the matcher

  /** `isPrimitive` holds exactly for the values that are not objects,
      arrays or functions: besides nullish values, strings, booleans and
      numbers, the first-letter test also admits bigints and symbols. */
  lemma PrimitiveKinds(v: JsValue)
    ensures IsPrimitive(v) <==> !(v.JObject? || v.JArray? || v.JFunction?)
    ensures IsPrimitive(v) <==>
      v.JUndefined? || v.JNull? || v.JStr? || v.JBool? || v.JNum? || v.JBigInt? || v.JSymbol?
  {
  }

  /** Nothing looks like a falsy pattern, and a falsy value looks like nothing. */
  lemma FalsyNeverMatches(a: JsValue, b: JsValue)
    requires !Truthy(a) || !Truthy(b)
    ensures !LooksLike(a, b)
  {
  }

  /** The `every` from key `i` holds exactly when each later key matches. */
  lemma {:induction false} MatchFromAll(a: JsValue, b: JsValue, i: nat)
    requires b.JObject?
    ensures MatchFrom(a, b, i) <==>
      forall j | i <= j < |b.props| :: MatchValue(Get(a, b.props[j].0), b.props[j].1)
    decreases |b.props| - i
  {
    if i < |b.props| {
      MatchFromAll(a, b, i + 1);
    }
  }

  /** An object pattern matches a truthy value exactly when every key does;
      an empty pattern matches every truthy value. */
  lemma LooksLikeKeys(a: JsValue, b: JsValue)
    requires b.JObject?
    ensures LooksLike(a, b) <==>
      Truthy(a) && forall j | 0 <= j < |b.props| :: MatchValue(Get(a, b.props[j].0), b.props[j].1)
    ensures b.props == [] ==> (LooksLike(a, b) <==> Truthy(a))
  {
    MatchFromAll(a, b, 0);
  }

  /** A pattern of one key. */
  lemma OneKey(a: JsValue, k: string, v: JsValue)
    ensures LooksLike(a, Pattern([(k, v)])) <==> Truthy(a) && MatchValue(Get(a, k), v)
  {
    LooksLikeKeys(a, Pattern([(k, v)]));
  }

  /** A pattern of two keys. */
  lemma TwoKeys(a: JsValue, k1: string, v1: JsValue, k2: string, v2: JsValue)
    ensures LooksLike(a, Pattern([(k1, v1), (k2, v2)])) <==>
      Truthy(a) && MatchValue(Get(a, k1), v1) && MatchValue(Get(a, k2), v2)
  {
    var b := Pattern([(k1, v1), (k2, v2)]);
    assert b.props[0] == (k1, v1) && b.props[1] == (k2, v2);
    LooksLikeKeys(a, b);
  }

  /** A string in a pattern matches that string and nothing else. */
  lemma StringKey(aVal: JsValue, s: string)
    ensures MatchValue(aVal, JStr(s)) <==> aVal == JStr(s)
  {
  }

  /** `isImport` holds exactly when the path, its node and the node's source
      are present and the source's value is the package name. */
  lemma IsImportShape(path: JsValue)
    ensures IsImport(path) <==>
      Truthy(path) && Truthy(Get(path, "node")) && Truthy(Get(Get(path, "node"), "source")) &&
      Get(Get(Get(path, "node"), "source"), "value") == JStr(PackageName)
  {
    var node := Get(path, "node");
    var source := Get(node, "source");
    var valuePattern := Pattern([("value", JStr(PackageName))]);
    var sourcePattern := Pattern([("source", valuePattern)]);
    OneKey(path, "node", sourcePattern);
    OneKey(node, "source", valuePattern);
    OneKey(source, "value", JStr(PackageName));
    StringKey(Get(source, "value"), PackageName);
  }

  /** An import of this package is recognised; an import of any other is not. */
  lemma ImportRecognised(source: string)
    ensures IsImport(ImportPath(source)) <==> source == PackageName
  {
    var path := ImportPath(source);
    var node := path.props[0].1;
    var src := node.props[1].1;
    LookupFirst(path.props, "node", 0);
    LookupFirst(node.props, "source", 1);
    LookupFirst(src.props, "value", 1);
    IsImportShape(path);
  }

  /** The callee test: an identifier named `require`. */
  lemma CalleeShape(callee: JsValue)
    ensures MatchValue(callee, CalleePattern()) <==>
      Truthy(callee) && Get(callee, "type") == JStr("Identifier") && Get(callee, "name") == JStr("require")
  {
    TwoKeys(callee, "type", JStr("Identifier"), "name", JStr("require"));
    StringKey(Get(callee, "type"), "Identifier");
    StringKey(Get(callee, "name"), "require");
  }

  /** The node test: a call of `require` whose arguments pass the test. */
  lemma NodeShape(node: JsValue, argsTest: Test)
    ensures MatchValue(node, NodePattern(argsTest)) <==>
      var callee := Get(node, "callee");
      Truthy(node) && Truthy(callee) &&
      Get(callee, "type") == JStr("Identifier") && Get(callee, "name") == JStr("require") &&
      Apply(argsTest, Get(node, "arguments"))
  {
    TwoKeys(node, "callee", CalleePattern(), "arguments", JFunction(0, argsTest));
    CalleeShape(Get(node, "callee"));
  }

  /** The parent test: a declarator. */
  lemma ParentShape(parent: JsValue)
    ensures MatchValue(parent, ParentPattern()) <==>
      Truthy(parent) && Get(parent, "type") == JStr("VariableDeclarator")
  {
    OneKey(parent, "type", JStr("VariableDeclarator"));
    StringKey(Get(parent, "type"), "VariableDeclarator");
  }

  /** `isRequire` holds exactly for a call of an identifier `require` whose
      arguments pass the test and whose parent is a declarator. */
  lemma RequireShape(path: JsValue, argsTest: Test)
    ensures LooksLike(path, RequirePattern(argsTest)) <==>
      var node := Get(path, "node"); var callee := Get(node, "callee"); var parent := Get(path, "parent");
      Truthy(path) && Truthy(node) && Truthy(callee) &&
      Get(callee, "type") == JStr("Identifier") && Get(callee, "name") == JStr("require") &&
      Apply(argsTest, Get(node, "arguments")) &&
      Truthy(parent) && Get(parent, "type") == JStr("VariableDeclarator")
  {
    TwoKeys(path, "node", NodePattern(argsTest), "parent", ParentPattern());
    NodeShape(Get(path, "node"), argsTest);
    ParentShape(Get(path, "parent"));
  }

  /** As written, `isRequire` rejects every call whose arguments are host
      nodes, which they always are: `require('param.macro')` is never recognised. */
  lemma RequireAsWrittenNeverMatches(path: JsValue)
    requires var args := Get(Get(path, "node"), "arguments");
      args.JArray? && forall k | 0 <= k < |args.elems| :: args.elems[k].JObject?
    ensures !IsRequireAsWritten(path)
  {
    RequireShape(path, SoleArgIsName);
  }

  /** The same call, `const x = require('param.macro')`: missed as written. */
  lemma RequireMissed()
    ensures !IsRequireAsWritten(RequirePath(PackageName))
  {
    RequireAsWrittenNeverMatches(RequirePath(PackageName));
  }

  /** With the argument's value compared, `require(source)` under a
      declarator is recognised exactly when `source` is the package name. */
  lemma RequireRecognised(source: string)
    ensures IsRequire(RequirePath(source)) <==> source == PackageName
  {
    var path := RequirePath(source);
    RequirePathFields(source);
    RequireShape(path, SoleArgValueIsName);
  }

  /** The properties of the host's `require` path that the test reads. */
  lemma RequirePathFields(source: string)
    ensures var path := RequirePath(source); var node := Get(path, "node");
      var callee := Get(node, "callee"); var args := Get(node, "arguments");
      Truthy(path) && Truthy(node) && Truthy(callee) &&
      Get(callee, "type") == JStr("Identifier") && Get(callee, "name") == JStr("require") &&
      Truthy(Get(path, "parent")) && Get(Get(path, "parent"), "type") == JStr("VariableDeclarator") &&
      args.JArray? && |args.elems| == 1 && Get(args.elems[0], "value") == JStr(source)
  {
    var path := RequirePath(source);
    var parent := path.props[1].1;
    LookupFirst(path.props, "node", 0);
    LookupFirst(path.props, "parent", 1);
    LookupFirst(parent.props, "type", 0);
    RequireCallFields(source);
  }

  /** The properties of the `require` call that the test reads. */
  lemma RequireCallFields(source: string)
    ensures var node := RequireCall(source);
      var callee := Get(node, "callee"); var args := Get(node, "arguments");
      Truthy(callee) && Get(callee, "type") == JStr("Identifier") && Get(callee, "name") == JStr("require") &&
      args.JArray? && |args.elems| == 1 && Get(args.elems[0], "value") == JStr(source)
  {
    var node := RequireCall(source);
    var callee := node.props[1].1;
    var args := node.props[2].1;
    LookupFirst(node.props, "callee", 1);
    LookupFirst(node.props, "arguments", 2);
    LookupFirst(callee.props, "type", 0);
    LookupFirst(callee.props, "name", 1);
    LookupFirst(args.elems[0].props, "value", 1);
  }

  // ---------------------------------------------------------------- dispatch

  /** One imported binding: its local name and the name it imports (`default`
      for a default import). */
  datatype ImportSpec = ImportSpec(localName: string, importedName: string)

  /** The `reduce` over the imports: each imported name maps to the
      references of its local binding, a later import replacing an earlier. */
  function ByName(imports: seq<ImportSpec>, refsOf: string -> seq<Uid>): map<string, seq<Uid>>
    decreases |imports|
  {
    if imports == [] then map[]
    else
      var last := imports[|imports| - 1];
      ByName(imports[..|imports| - 1], refsOf)[last.importedName := refsOf(last.localName)]
  }

  /** The `hasReferences` flag after the `reduce`. */
  function HasReferences(imports: seq<ImportSpec>, refsOf: string -> seq<Uid>): bool
    decreases |imports|
  {
    if imports == [] then false
    else
      HasReferences(imports[..|imports| - 1], refsOf) || |refsOf(imports[|imports| - 1].localName)| > 0
  }

  /** The transformers in their fixed order, each only when its list is
      present; the first failure stops the rest. */
  function Dispatch(t: Node, next: nat, byName: map<string, seq<Uid>>): (Node, nat, Option<Error>) {
    var (t1, n1, e1) := if "it" in byName then ImplicitParams.ImplicitRefs(t, next, byName["it"]) else (t, next, None);
    if e1.Some? then (t1, n1, e1) else
    var (t2, n2, e2) := if "default" in byName then ImplicitParams.ImplicitRefs(t1, n1, byName["default"]) else (t1, n1, None);
    if e2.Some? then (t2, n2, e2) else
    var (t3, n3, e3) := if "_" in byName then Placeholders.TransformPlaceholders(t2, n2, byName["_"]) else (t2, n2, None);
    if e3.Some? then (t3, n3, e3) else
    var (t4, e4) := if "lift" in byName then Lift.LiftRefs(t3, byName["lift"]) else (t3, None);
    (t4, n3, e4)
  }

  /** `applyPlugin`: nothing at all when no imported binding is referenced. */
  function ApplyPluginSpec(t: Node, next: nat, imports: seq<ImportSpec>, refsOf: string -> seq<Uid>)
    : (Node, nat, Option<Error>)
  {
    if !HasReferences(imports, refsOf) then (t, next, None)
    else Dispatch(t, next, ByName(imports, refsOf))
  }

  /** `applyPlugin` as the source runs it: `refsOf` is the host's binding
      lookup (`scope.getBinding(localName).referencePaths`). */
  method ApplyPlugin(ast: Ast, imports: seq<ImportSpec>, refsOf: string -> seq<Uid>) returns (err: Option<Error>)
    modifies ast
    ensures (ast.root, ast.next, err) == ApplyPluginSpec(old(ast.root), old(ast.next), imports, refsOf)
  {
    var hasReferences := false;
    var byName: map<string, seq<Uid>> := map[];
    for i := 0 to |imports|
      invariant byName == ByName(imports[..i], refsOf)
      invariant hasReferences == HasReferences(imports[..i], refsOf)
    {
      assert imports[..i + 1][..i] == imports[..i];
      byName := byName[imports[i].importedName := refsOf(imports[i].localName)];
      hasReferences := hasReferences || |byName[imports[i].importedName]| > 0;
    }
    assert imports[..|imports|] == imports;
    if !hasReferences {
      return None;
    }
    err := None;
    if "it" in byName {
      err := ImplicitParams.TransformImplicitParamsInPlace(ast, byName["it"]);
      if err.Some? {
        return;
      }
    }
    if "default" in byName {
      err := ImplicitParams.TransformImplicitParamsInPlace(ast, byName["default"]);
      if err.Some? {
        return;
      }
    }
    if "_" in byName {
      err := Placeholders.TransformPlaceholdersInPlace(ast, byName["_"]);
      if err.Some? {
        return;
      }
    }
    if "lift" in byName {
      err := Lift.TransformLiftInPlace(ast, byName["lift"]);
    }
  }

  // ---------------------------------------------------------------- properties of the dispatch

  /** An imported name has a list exactly when some import brings it in. */
  lemma {:induction false} ByNameKeys(imports: seq<ImportSpec>, refsOf: string -> seq<Uid>, k: string)
    ensures k in ByName(imports, refsOf) <==> exists i | 0 <= i < |imports| :: imports[i].importedName == k
    decreases |imports|
  {
    if imports != [] {
      var init := imports[..|imports| - 1];
      ByNameKeys(init, refsOf, k);
      if k in ByName(init, refsOf) {
        var i :| 0 <= i < |init| && init[i].importedName == k;
        assert imports[i].importedName == k;
      }
      if exists i | 0 <= i < |imports| :: imports[i].importedName == k {
        var i :| 0 <= i < |imports| && imports[i].importedName == k;
        if i < |init| {
          assert init[i].importedName == k;
        }
      }
    }
  }

  /** The list of an imported name is that of its LAST import. */
  lemma {:induction false} ByNameLatest(imports: seq<ImportSpec>, refsOf: string -> seq<Uid>, i: nat)
    requires i < |imports|
    requires forall j | i < j < |imports| :: imports[j].importedName != imports[i].importedName
    ensures imports[i].importedName in ByName(imports, refsOf)
    ensures ByName(imports, refsOf)[imports[i].importedName] == refsOf(imports[i].localName)
    decreases |imports|
  {
    var init := imports[..|imports| - 1];
    if i < |imports| - 1 {
      assert init[i] == imports[i];
      ByNameLatest(init, refsOf, i);
    }
  }

  /** The flag is set exactly when some imported binding has a reference. */
  lemma {:induction false} HasReferencesSome(imports: seq<ImportSpec>, refsOf: string -> seq<Uid>)
    ensures HasReferences(imports, refsOf) <==>
      exists i | 0 <= i < |imports| :: |refsOf(imports[i].localName)| > 0
    decreases |imports|
  {
    if imports != [] {
      var init := imports[..|imports| - 1];
      HasReferencesSome(init, refsOf);
      if HasReferences(init, refsOf) {
        var i :| 0 <= i < |init| && |refsOf(init[i].localName)| > 0;
        assert imports[i] == init[i];
      }
      if exists i | 0 <= i < |imports| :: |refsOf(imports[i].localName)| > 0 {
        var i :| 0 <= i < |imports| && |refsOf(imports[i].localName)| > 0;
        if i < |init| {
          assert init[i] == imports[i];
        }
      }
    }
  }

  /** With no reference to any imported binding, nothing is transformed. */
  lemma NoReferencesNoChange(t: Node, next: nat, imports: seq<ImportSpec>, refsOf: string -> seq<Uid>)
    requires forall i | 0 <= i < |imports| :: refsOf(imports[i].localName) == []
    ensures ApplyPluginSpec(t, next, imports, refsOf) == (t, next, None)
  {
    HasReferencesSome(imports, refsOf);
  }

  /** Imported names other than `it`, `default`, `_` and `lift` are ignored. */
  lemma DispatchIgnores(t: Node, next: nat, byName: map<string, seq<Uid>>, k: string)
    requires k !in {"it", "default", "_", "lift"}
    ensures Dispatch(t, next, byName) == Dispatch(t, next, byName - {k})
  {
    var m := byName - {k};
    assert "it" in byName <==> "it" in m;
    assert "default" in byName <==> "default" in m;
    assert "_" in byName <==> "_" in m;
    assert "lift" in byName <==> "lift" in m;
  }

  /** `it` runs before `_`: with only these two imported, the placeholders
      are transformed in the tree the implicit parameters left, and a
      failure of the first leaves the second unrun. */
  lemma ItBeforePlaceholders(t: Node, next: nat, itRefs: seq<Uid>, phRefs: seq<Uid>)
    ensures var r := ImplicitParams.ImplicitRefs(t, next, itRefs);
      Dispatch(t, next, map["it" := itRefs, "_" := phRefs]) ==
        if r.2.Some? then r else Placeholders.TransformPlaceholders(r.0, r.1, phRefs)
  {
  }
}
