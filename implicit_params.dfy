/** The implicit-parameter transformer (`it`): the argument slot (or, failing
    that, the declarator's initialiser) an `it` belongs to becomes a
    one-parameter arrow returning the old expression, with every `it` in it
    renamed to the parameter; later `it`s in the same target reuse that
    parameter. */
module ImplicitParams {
  import opened Tree
  import opened Navigation

  /** The fresh name of the `k`-th implicit parameter (`_it`, `_it2`, ...). */
  function ItName(k: nat): Name {
    Gen("it", k)
  }

  /** `node.name` of a reference: only identifiers have one. */
  function IdentName(n: Node): Option<Name> {
    if n.kind.Identifier? then Some(n.kind.name) else None
  }

  /** `findParent(isVariableDeclarator)`: the nearest strict ancestor that is a declarator. */
  function DeclaratorAbove(t: Node, p: Path): (r: Option<Path>)
    ensures r.Some? ==> IsPrefix(r.value, p) && r.value != p && At(t, r.value).kind.VariableDeclarator?
    ensures r.Some? ==> forall k | |r.value| < k < |p| :: !At(t, p[..k]).kind.VariableDeclarator?
    ensures r.None? ==> forall k | 0 <= k < |p| :: !At(t, p[..k]).kind.VariableDeclarator?
    decreases |p|
  {
    if p == [] then None
    else if At(t, Parent(p)).kind.VariableDeclarator? then Some(Parent(p))
    else
      var r := DeclaratorAbove(t, Parent(p));
      ParentSlices(p);
      r
  }

  /** Lines 6-8: the argument slot the reference sits in, else the `init` of
      the declarator it sits in. */
  function ImplicitTarget(t: Node, p: Path): (r: Option<Path>)
    ensures r.None? <==> TargetCallee(t, p).None? && DeclaratorAbove(t, p).None?
    ensures TargetCallee(t, p).Some? ==> r.Some? && IsArgumentSlot(t, r.value) && IsPrefix(r.value, p)
    ensures TargetCallee(t, p).None? && r.Some? ==>
      r.value != [] && Last(r.value) == 1 && At(t, Parent(r.value)).kind.VariableDeclarator? &&
      IsPrefix(Parent(r.value), p) && Parent(r.value) != p
  {
    match TargetCallee(t, p)
    case Some(q) => Some(q)
    case None =>
      match DeclaratorAbove(t, p)
      case Some(d) => assert Parent(d + [1]) == d; Some(d + [1])
      case None => None
  }

  /** `scope.rename(from, to)`, confined to the subtree at `q`; a reference
      without a name renames nothing. */
  function RenameIn(t: Node, q: Path, from: Option<Name>, to: Name): Node {
    if from.Some? then Put(t, q, Rename(At(t, q), from.value, to)) else t
  }

  /** Lines 25-37: rename to the fresh `x`, wrap the target into
      `(x) => { return <target> }` with uid `Made(u)`, and record `x` on it. */
  function Enclose(t: Node, q: Path, from: Option<Name>, x: Name, u: nat): Node {
    var t1 := RenameIn(t, q, from, x);
    var t2 := ReplaceWith(t1, q, Closure([IdentNode(x)], At(t1, q), Made(u)));
    Put(t2, q, At(t2, q).(meta := At(t2, q).meta.(itName := Some(x))))
  }

  /** One reference at `p`: the new tree and fresh-name counter, or the error. */
  function ImplicitAt(t: Node, next: nat, p: Path): Result<(Node, nat)> {
    match ImplicitTarget(t, p)
    case None => Err(ImplicitMisplaced)
    case Some(q) =>
      var from := IdentName(At(t, p));
      match At(t, q).meta.itName
      case Some(x) => Ok((RenameIn(t, q, from, x), next))
      case None => Ok((Enclose(t, q, from, ItName(next), next), next + 1))
  }

  /** One reference, wherever it now is in the tree. */
  function ImplicitStep(t: Node, next: nat, ref: Uid): Result<(Node, nat)> {
    match Locate(t, ref)
    case None => Ok((t, next))
    case Some(p) => ImplicitAt(t, next, p)
  }

  /** The references in order; the first failure stops the rest. */
  function ImplicitRefs(t: Node, next: nat, refs: seq<Uid>): (Node, nat, Option<Error>)
    decreases |refs|
  {
    if refs == [] then (t, next, None)
    else match ImplicitStep(t, next, refs[0])
      case Err(e) => (t, next, Some(e))
      case Ok(r) => ImplicitRefs(r.0, r.1, refs[1..])
  }

  /** One iteration of lines 5-38, editing the host tree in place. */
  method ImplicitInPlace(ast: Ast, ref: Uid) returns (err: Option<Error>)
    modifies ast
    ensures ImplicitStep(old(ast.root), old(ast.next), ref) ==
      if err.Some? then Err(err.value) else Ok((ast.root, ast.next))
    ensures err.Some? ==> ast.root == old(ast.root) && ast.next == old(ast.next)
  {
    var located := Locate(ast.root, ref);
    if located.None? {
      return None;
    }
    var p := located.value;
    var parent := TargetCallee(ast.root, p);
    if parent.None? {
      var declarator := DeclaratorAbove(ast.root, p);
      if declarator.Some? {
        parent := Some(declarator.value + [1]);
      }
    }
    if parent.None? {
      return Some(ImplicitMisplaced);
    }
    var q := parent.value;
    var from := IdentName(At(ast.root, p));
    var idName := At(ast.root, q).meta.itName;
    if idName.Some? {
      ast.root := RenameIn(ast.root, q, from, idName.value);
      return None;
    }
    var id := ItName(ast.next);
    ast.root := RenameIn(ast.root, q, from, id);
    var fn := Closure([IdentNode(id)], At(ast.root, q), Made(ast.next));
    ast.root := ReplaceWith(ast.root, q, fn);
    ast.root := Put(ast.root, q, At(ast.root, q).(meta := At(ast.root, q).meta.(itName := Some(id))));
    ast.next := ast.next + 1;
    return None;
  }

  /** `transformImplicitParams` as the source runs it, editing the host tree in place. */
  method TransformImplicitParamsInPlace(ast: Ast, refs: seq<Uid>) returns (err: Option<Error>)
    modifies ast
    ensures (ast.root, ast.next, err) == ImplicitRefs(old(ast.root), old(ast.next), refs)
  {
    for i := 0 to |refs|
      invariant ImplicitRefs(ast.root, ast.next, refs[i..]) == ImplicitRefs(old(ast.root), old(ast.next), refs)
    {
      assert refs[i..][1..] == refs[i + 1..];
      err := ImplicitInPlace(ast, refs[i]);
      if err.Some? {
        return;
      }
    }
    assert refs[|refs|..] == [];
    return None;
  }

  // ---------------------------------------------------------------- what one reference does to the tree

  /** Renaming inside the target renames every node below it and nothing else. */
  lemma RenameInBelow(t: Node, q: Path, from: Name, x: Name, e: Path)
    requires ValidPath(t, q + e)
    ensures ValidPath(RenameIn(t, q, Some(from), x), q + e)
    ensures At(RenameIn(t, q, Some(from), x), q + e) == Rename(At(t, q + e), from, x)
  {
    PrefixValid(t, q + e, |q|);
    assert (q + e)[..|q|] == q;
    AtAppend(t, q, e);
    RenameAt(At(t, q), from, x, e);
    PutBelow(t, q, Rename(At(t, q), from, x), e);
  }

  /** The target itself is renamed in place. */
  lemma RenameInAt(t: Node, q: Path, from: Option<Name>, x: Name)
    requires ValidPath(t, q)
    ensures ValidPath(RenameIn(t, q, from, x), q)
    ensures from.Some? ==> At(RenameIn(t, q, from, x), q) == Rename(At(t, q), from.value, x)
  {
    if from.Some? {
      PutAt(t, q, Rename(At(t, q), from.value, x));
    }
  }

  /** At the target now stands the arrow: it binds `x` alone, has the new
      identity, and carries `x` as its recorded implicit parameter. */
  lemma EncloseAt(t: Node, q: Path, from: Option<Name>, x: Name, u: nat)
    requires ValidPath(t, q)
    ensures var r := Enclose(t, q, from, x, u);
      ValidPath(r, q) && At(r, q).kind == ArrowFunctionExpression && |At(r, q).kids| == 2 &&
      At(r, q).kids[1] == IdentNode(x) && At(r, q).uid == Made(u) &&
      At(r, q).meta.itName == Some(x) && WasMacro(At(r, q))
    ensures var r := Enclose(t, q, from, x, u);
      At(r, q + [0]).kind == BlockStatement && At(r, q + [0, 0]).kind == ReturnStatement
  {
    var t1 := RenameIn(t, q, from, x);
    RenameInAt(t, q, from, x);
    var fn := Closure([IdentNode(x)], At(t1, q), Made(u)).(meta := At(t1, q).meta);
    PutAt(t1, q, fn);
    var t2 := Put(t1, q, fn);
    PutAt(t2, q, At(t2, q).(meta := At(t2, q).meta.(itName := Some(x))));
    var r := Enclose(t, q, from, x, u);
    AtSnoc(r, q, 0);
    AtSnoc(r, q + [0], 0);
    assert q + [0] + [0] == q + [0, 0];
  }

  /** Below the arrow's `return` lies the renamed target. */
  lemma EncloseBelow(t: Node, q: Path, from: Option<Name>, x: Name, u: nat, e: Path)
    requires ValidPath(t, q) && e != []
    ensures At(Enclose(t, q, from, x, u), q + [0, 0, 0] + e) == At(RenameIn(t, q, from, x), q + e)
    ensures ValidPath(Enclose(t, q, from, x, u), q + [0, 0, 0] + e) <==> ValidPath(RenameIn(t, q, from, x), q + e)
  {
    var t1 := RenameIn(t, q, from, x);
    RenameInAt(t, q, from, x);
    var fn := Closure([IdentNode(x)], At(t1, q), Made(u)).(meta := At(t1, q).meta);
    var t2 := Put(t1, q, fn);
    var d := q + [0, 0, 0] + e;
    PutAt(t1, q, fn);
    assert d == q + ([0, 0, 0] + e);
    PutSameKids(t2, q, At(t2, q).(meta := At(t2, q).meta.(itName := Some(x))), d);
    PutBelow(t1, q, fn, [0, 0, 0] + e);
    ClosureBody([IdentNode(x)], At(t1, q), Made(u), At(t1, q).meta, e);
    AtAppend(t1, q, e);
  }

  /** The arrow's `return` holds the renamed target itself, without its
      position's data. */
  lemma EncloseReturn(t: Node, q: Path, from: Option<Name>, x: Name, u: nat)
    requires ValidPath(t, q)
    ensures ValidPath(Enclose(t, q, from, x, u), q + [0, 0, 0])
    ensures At(Enclose(t, q, from, x, u), q + [0, 0, 0]) == At(RenameIn(t, q, from, x), q).(meta := NoMeta)
  {
    var t1 := RenameIn(t, q, from, x);
    RenameInAt(t, q, from, x);
    var fn := Closure([IdentNode(x)], At(t1, q), Made(u)).(meta := At(t1, q).meta);
    var t2 := Put(t1, q, fn);
    PutAt(t1, q, fn);
    PutSameKids(t2, q, At(t2, q).(meta := At(t2, q).meta.(itName := Some(x))), q + [0, 0, 0]);
    PutBelow(t1, q, fn, [0, 0, 0]);
    ClosureReturn([IdentNode(x)], At(t1, q), Made(u), At(t1, q).meta);
  }

  /** Above the target every node keeps its head. */
  lemma EncloseAbove(t: Node, q: Path, from: Option<Name>, x: Name, u: nat, a: Path)
    requires ValidPath(t, q) && IsPrefix(a, q) && a != q
    ensures ValidPath(Enclose(t, q, from, x, u), a) && SameHead(At(Enclose(t, q, from, x, u), a), At(t, a))
  {
    var t1 := RenameIn(t, q, from, x);
    RenameInAt(t, q, from, x);
    if from.Some? {
      PutAbove(t, q, Rename(At(t, q), from.value, x), a);
    }
    var fn := Closure([IdentNode(x)], At(t1, q), Made(u)).(meta := At(t1, q).meta);
    var t2 := Put(t1, q, fn);
    PutAt(t1, q, fn);
    PutAbove(t1, q, fn, a);
    PutAbove(t2, q, At(t2, q).(meta := At(t2, q).meta.(itName := Some(x))), a);
  }

  /** Beside the target nothing changes. */
  lemma EncloseElsewhere(t: Node, q: Path, from: Option<Name>, x: Name, u: nat, a: Path)
    requires !IsPrefix(q, a) && !IsPrefix(a, q)
    ensures At(Enclose(t, q, from, x, u), a) == At(t, a)
  {
    var t1 := RenameIn(t, q, from, x);
    if from.Some? {
      PutElsewhere(t, q, Rename(At(t, q), from.value, x), a);
    }
    var fn := Closure([IdentNode(x)], At(t1, q), Made(u)).(meta := At(t1, q).meta);
    var t2 := Put(t1, q, fn);
    PutElsewhere(t1, q, fn, a);
    PutElsewhere(t2, q, At(t2, q).(meta := At(t2, q).meta.(itName := Some(x))), a);
  }

  /** Occurrence does not depend on a node's position data. */
  lemma OccursMeta(n: Node, m: Meta, x: Name)
    ensures Occurs(n.(meta := m), x) == Occurs(n, x)
  {
    assert n.(meta := m).kids == n.kids;
  }

  /** The target itself moves under the arrow's `return`, renamed. */
  lemma EncloseMovesTop(t: Node, q: Path, from: Name, x: Name, u: nat)
    requires ValidPath(t, q)
    ensures ValidPath(Enclose(t, q, Some(from), x, u), q + [0, 0, 0])
    ensures At(Enclose(t, q, Some(from), x, u), q + [0, 0, 0]).kind == Rename(At(t, q), from, x).kind
  {
    EncloseReturn(t, q, Some(from), x, u);
    RenameInAt(t, q, Some(from), x);
  }

  /** A node below the target moves under the arrow's `return`, renamed. */
  lemma EncloseMoves(t: Node, q: Path, from: Name, x: Name, u: nat, p: Path)
    requires ValidPath(t, p) && IsPrefix(q, p)
    ensures ValidPath(Enclose(t, q, Some(from), x, u), q + [0, 0, 0] + p[|q|..])
    ensures At(Enclose(t, q, Some(from), x, u), q + [0, 0, 0] + p[|q|..]).kind == Rename(At(t, p), from, x).kind
  {
    var e := p[|q|..];
    PrefixSplit(q, p);
    if e == [] {
      assert q + [0, 0, 0] + e == q + [0, 0, 0];
      assert q == q + e == p;
      EncloseMovesTop(t, q, from, x, u);
    } else {
      EncloseMovesBelow(t, q, from, x, u, e);
    }
  }

  /** The same for a node strictly below the target. */
  lemma EncloseMovesBelow(t: Node, q: Path, from: Name, x: Name, u: nat, e: Path)
    requires ValidPath(t, q + e) && e != []
    ensures ValidPath(Enclose(t, q, Some(from), x, u), q + [0, 0, 0] + e)
    ensures At(Enclose(t, q, Some(from), x, u), q + [0, 0, 0] + e).kind == Rename(At(t, q + e), from, x).kind
  {
    PrefixValid(t, q + e, |q|);
    assert (q + e)[..|q|] == q;
    EncloseBelow(t, q, Some(from), x, u, e);
    RenameInBelow(t, q, from, x, e);
  }

  /** Below the arrow, each position keeps the slot it had below the target. */
  lemma CollapseSlot(t: Node, q: Path, from: Option<Name>, x: Name, u: nat, e: Path, j: nat)
    requires ValidPath(t, q + e) && 1 <= j <= |e|
    ensures ListKey(Enclose(t, q, from, x, u), q + [0, 0, 0] + e[..j]) == ListKey(t, q + e[..j])
  {
    var r := Enclose(t, q, from, x, u);
    var a := q + [0, 0, 0] + e[..j];
    var b := q + e[..j];
    assert Parent(a) == q + [0, 0, 0] + e[..j - 1] && Last(a) == e[j - 1];
    assert Parent(b) == q + e[..j - 1] && Last(b) == e[j - 1];
    assert (q + e)[..|q| + j - 1] == q + e[..j - 1];
    PrefixValid(t, q + e, |q| + j - 1);
    PrefixValid(t, q + e, |q|);
    assert (q + e)[..|q|] == q;
    if from.Some? {
      RenameInBelow(t, q, from.value, x, e[..j - 1]);
      RenameSlots(At(t, q + e[..j - 1]), from.value, x, e[j - 1]);
    }
    if j == 1 {
      assert e[..0] == [] && q + [0, 0, 0] + e[..0] == q + [0, 0, 0] && q + e[..0] == q;
      EncloseReturn(t, q, from, x, u);
    } else {
      EncloseBelow(t, q, from, x, u, e[..j - 1]);
    }
  }

  /** An arrow's body, the block's statement and the returned value are no argument slots. */
  lemma ArrowSlots(r: Node, q: Path)
    requires At(r, q).kind == ArrowFunctionExpression && At(r, q + [0]).kind == BlockStatement
    requires At(r, q + [0, 0]).kind == ReturnStatement
    ensures !IsArgumentSlot(r, q + [0]) && !IsArgumentSlot(r, q + [0, 0]) && !IsArgumentSlot(r, q + [0, 0, 0])
  {
    assert Parent(q + [0]) == q;
    assert Parent(q + [0, 0]) == q + [0];
    assert Parent(q + [0, 0, 0]) == q + [0, 0];
  }

  /** The arrow wrapped around the target adds no argument slot above the old body. */
  lemma CollapseNear(t: Node, q: Path, from: Option<Name>, x: Name, u: nat)
    requires ValidPath(t, q)
    ensures var r := Enclose(t, q, from, x, u);
      !IsArgumentSlot(r, q + [0]) && !IsArgumentSlot(r, q + [0, 0]) && !IsArgumentSlot(r, q + [0, 0, 0])
  {
    EncloseAt(t, q, from, x, u);
    ArrowSlots(Enclose(t, q, from, x, u), q);
  }

  /** The first three steps below the target go through the arrow, its
      block and its `return`, none an argument slot. */
  lemma CollapseNearAt(r: Node, q: Path, e: Path, k: nat)
    requires !IsArgumentSlot(r, q + [0]) && !IsArgumentSlot(r, q + [0, 0]) && !IsArgumentSlot(r, q + [0, 0, 0])
    requires |q| < k <= |q| + 3
    ensures !IsArgumentSlot(r, (q + [0, 0, 0] + e)[..k])
  {
    var p2 := q + [0, 0, 0] + e;
    if k == |q| + 1 {
      assert p2[..k] == q + [0];
    } else if k == |q| + 2 {
      assert p2[..k] == q + [0, 0];
    } else {
      assert p2[..k] == q + [0, 0, 0];
    }
  }

  /** Below the `return`, a position is an argument slot only where it was
      one below the target. */
  lemma CollapseDeep(t: Node, q: Path, from: Option<Name>, x: Name, u: nat, p: Path, k: nat)
    requires ValidPath(t, p) && TargetCallee(t, p) == Some(q)
    requires |q| + 3 < k <= |p| + 3
    ensures !IsArgumentSlot(Enclose(t, q, from, x, u), (q + [0, 0, 0] + p[|q|..])[..k])
  {
    var e := p[|q|..];
    var j := k - |q| - 3;
    PrefixSplit(q, p);
    assert (q + [0, 0, 0] + e)[..k] == q + [0, 0, 0] + e[..j];
    assert q + e[..j] == p[..|q| + j];
    CollapseSlot(t, q, from, x, u, e, j);
  }

  /** The argument slot a reference below the target sat in is still the
      one found from where that reference now is. */
  lemma CollapseTarget(t: Node, q: Path, from: Option<Name>, x: Name, u: nat, p: Path)
    requires ValidPath(t, p) && TargetCallee(t, p) == Some(q)
    ensures TargetCallee(Enclose(t, q, from, x, u), q + [0, 0, 0] + p[|q|..]) == Some(q)
  {
    var r := Enclose(t, q, from, x, u);
    var p2 := q + [0, 0, 0] + p[|q|..];
    PrefixValid(t, p, |q|);
    assert p[..|q|] == q;
    EncloseAbove(t, q, from, x, u, Parent(q));
    ListKeyAbove(t, r, q);
    assert p2[..|q|] == q;
    CollapseNear(t, q, from, x, u);
    forall k | |q| < k <= |p2| ensures !IsArgumentSlot(r, p2[..k]) {
      if k <= |q| + 3 {
        CollapseNearAt(r, q, p[|q|..], k);
      } else {
        CollapseDeep(t, q, from, x, u, p, k);
      }
    }
    TargetCalleeUnique(r, p2, q);
  }

  // ---------------------------------------------------------------- one reference

  /** A reference at the root is in no argument and no declarator: it fails
      with the implicit-parameter message. */
  lemma ImplicitAtRoot(t: Node, n: nat)
    ensures ImplicitStep(t, n, t.uid) == Err(ImplicitMisplaced)
  {
  }

  /** A reference fails exactly when it is neither in an argument slot nor in
      a declarator, and then with the implicit-parameter message; otherwise it
      takes a fresh name exactly when its target has none recorded yet. */
  lemma ImplicitOutcome(t: Node, n: nat, p: Path)
    ensures ImplicitAt(t, n, p).Err? <==> TargetCallee(t, p).None? && DeclaratorAbove(t, p).None?
    ensures ImplicitAt(t, n, p).Err? ==> ImplicitAt(t, n, p).error == ImplicitMisplaced
    ensures ImplicitAt(t, n, p).Ok? ==>
      var q := ImplicitTarget(t, p).value;
      ImplicitAt(t, n, p).value.1 == (if At(t, q).meta.itName.None? then n + 1 else n)
  {
  }

  /** The first reference in a target: the target becomes a marked arrow
      binding the fresh name, recorded on it, and nothing beside the target
      changes ... */
  lemma ImplicitFresh(t: Node, n: nat, p: Path)
    requires ValidPath(t, p) && ImplicitTarget(t, p).Some? && ValidPath(t, ImplicitTarget(t, p).value)
    requires At(t, ImplicitTarget(t, p).value).meta.itName.None?
    ensures var q := ImplicitTarget(t, p).value; var r := ImplicitAt(t, n, p).value.0;
      ImplicitAt(t, n, p).Ok? && ImplicitAt(t, n, p).value.1 == n + 1 &&
      ValidPath(r, q) && At(r, q).kind == ArrowFunctionExpression && |At(r, q).kids| == 2 &&
      At(r, q).kids[1] == IdentNode(ItName(n)) && At(r, q).meta.itName == Some(ItName(n)) && At(r, q).uid == Made(n)
    ensures var q := ImplicitTarget(t, p).value; var r := ImplicitAt(t, n, p).value.0;
      forall a | !IsPrefix(q, a) && !IsPrefix(a, q) :: At(r, a) == At(t, a)
  {
    var q := ImplicitTarget(t, p).value;
    var from := IdentName(At(t, p));
    var x := ItName(n);
    assert ImplicitAt(t, n, p) == Ok((Enclose(t, q, from, x, n), n + 1));
    EncloseAt(t, q, from, x, n);
    forall a | !IsPrefix(q, a) && !IsPrefix(a, q) ensures At(Enclose(t, q, from, x, n), a) == At(t, a) {
      EncloseElsewhere(t, q, from, x, n, a);
    }
  }

  /** ... below its `return` the reference is that name, and the written
      name is gone. */
  lemma ImplicitFreshBody(t: Node, n: nat, p: Path)
    requires ValidPath(t, p) && ImplicitTarget(t, p).Some? && ValidPath(t, ImplicitTarget(t, p).value)
    requires At(t, ImplicitTarget(t, p).value).meta.itName.None?
    requires IdentName(At(t, p)).Some?
    ensures var q := ImplicitTarget(t, p).value; var r := ImplicitAt(t, n, p).value.0;
      ImplicitAt(t, n, p).Ok? &&
      (IsPrefix(q, p) ==>
        ValidPath(r, q + [0, 0, 0] + p[|q|..]) && At(r, q + [0, 0, 0] + p[|q|..]).kind == Identifier(ItName(n)))
    ensures var q := ImplicitTarget(t, p).value; var r := ImplicitAt(t, n, p).value.0;
      IdentName(At(t, p)).value.Src? ==>
        ValidPath(r, q + [0, 0, 0]) && !Occurs(At(r, q + [0, 0, 0]), IdentName(At(t, p)).value)
  {
    var q := ImplicitTarget(t, p).value;
    var from := IdentName(At(t, p));
    var x := ItName(n);
    assert ImplicitAt(t, n, p) == Ok((Enclose(t, q, from, x, n), n + 1));
    EncloseReturn(t, q, from, x, n);
    RenameInAt(t, q, from, x);
    if IsPrefix(q, p) {
      EncloseMoves(t, q, from.value, x, n, p);
    }
    if from.value.Src? {
      RenameRemoves(At(t, q), from.value, x);
      OccursMeta(Rename(At(t, q), from.value, x), NoMeta, from.value);
    }
  }

  /** Repeated references with one target make one arrow: after the first
      reference has wrapped the argument, a second reference of the same
      name below it finds the same argument, already named, takes that name
      and leaves the tree as it is, so `fn(it + it)` has one parameter. */
  lemma RepeatedItCollapses(t: Node, n: nat, p1: Path, p2: Path)
    requires ValidPath(t, p1) && ValidPath(t, p2)
    requires IdentName(At(t, p1)).Some? && IdentName(At(t, p2)) == IdentName(At(t, p1))
    requires TargetCallee(t, p1).Some? && TargetCallee(t, p2) == TargetCallee(t, p1)
    requires At(t, TargetCallee(t, p1).value).meta.itName.None?
    ensures var q := TargetCallee(t, p1).value; var s := ImplicitAt(t, n, p1);
      var p := q + [0, 0, 0] + p2[|q|..];
      s.Ok? && s.value.1 == n + 1 && ValidPath(s.value.0, p) &&
      At(s.value.0, p).kind == Identifier(ItName(n)) && ImplicitAt(s.value.0, n + 1, p) == s
  {
    var q := TargetCallee(t, p1).value;
    var from := IdentName(At(t, p1));
    var x := ItName(n);
    var r := Enclose(t, q, from, x, n);
    var p := q + [0, 0, 0] + p2[|q|..];
    var n1: nat := n + 1;
    PrefixValid(t, p1, |q|);
    assert p1[..|q|] == q;
    assert ImplicitAt(t, n, p1) == Ok((r, n1));
    EncloseMoves(t, q, from.value, x, n, p2);
    CollapseTarget(t, q, from, x, n, p2);
    EncloseAt(t, q, from, x, n);
    assert IdentName(At(r, p)) == Some(x);
    RenameSame(At(r, q), x);
    PutSelf(r, q);
    assert ImplicitAt(r, n1, p) == Ok((RenameIn(r, q, Some(x), x), n1));
  }

  /** A later reference in a target already transformed: no new arrow and no
      fresh name; the reference takes the recorded name, the written name is
      gone from the target, and nothing beside the target changes. */
  lemma ImplicitReuse(t: Node, n: nat, p: Path)
    requires ValidPath(t, p) && ImplicitTarget(t, p).Some? && ValidPath(t, ImplicitTarget(t, p).value)
    requires At(t, ImplicitTarget(t, p).value).meta.itName.Some?
    ensures var q := ImplicitTarget(t, p).value; var x := At(t, q).meta.itName.value; var r := ImplicitAt(t, n, p).value.0;
      ImplicitAt(t, n, p).Ok? && ImplicitAt(t, n, p).value.1 == n &&
      ValidPath(r, q) && At(r, q).meta == At(t, q).meta && At(r, q).uid == At(t, q).uid &&
      |At(r, q).kids| == |At(t, q).kids|
    ensures var q := ImplicitTarget(t, p).value; var x := At(t, q).meta.itName.value; var r := ImplicitAt(t, n, p).value.0;
      IsPrefix(q, p) && IdentName(At(t, p)).Some? ==> ValidPath(r, p) && At(r, p).kind == Identifier(x)
    ensures var q := ImplicitTarget(t, p).value; var x := At(t, q).meta.itName.value; var r := ImplicitAt(t, n, p).value.0;
      IdentName(At(t, p)).Some? && IdentName(At(t, p)).value != x ==> !Occurs(At(r, q), IdentName(At(t, p)).value)
    ensures var q := ImplicitTarget(t, p).value; var r := ImplicitAt(t, n, p).value.0;
      forall a | !IsPrefix(q, a) && !IsPrefix(a, q) :: At(r, a) == At(t, a)
  {
    var q := ImplicitTarget(t, p).value;
    var from := IdentName(At(t, p));
    var x := At(t, q).meta.itName.value;
    RenameInAt(t, q, from, x);
    if from.Some? {
      if IsPrefix(q, p) {
        PrefixSplit(q, p);
        RenameInBelow(t, q, from.value, x, p[|q|..]);
      }
      if from.value != x {
        RenameRemoves(At(t, q), from.value, x);
      }
      forall a | !IsPrefix(q, a) && !IsPrefix(a, q) ensures At(RenameIn(t, q, from, x), a) == At(t, a) {
        PutElsewhere(t, q, Rename(At(t, q), from.value, x), a);
      }
    }
  }
}
