/** The `lift` transformer: by the time it runs, the placeholders have been
    turned into closures, and `lift(e)` has served only to stop their upward
    search; each `lift(e)` call is replaced by `e`. */
module Lift {
  import opened Tree
  import opened Navigation

  /** A reference at the root has no parent path: the source's first test
      reads a field of null and crashes. */
  const NoParentPath := HostError("parentPath is null")

  /** One reference at `p`: its parent must be a call with exactly one
      argument, and that call is replaced by the argument.  Whether the
      reference is the callee or an argument is not checked. */
  function LiftAt(t: Node, p: Path): Result<Node> {
    if p == [] then Err(NoParentPath)
    else if !At(t, Parent(p)).kind.CallExpression? then Err(LiftNotCalled)
    else if |At(t, Parent(p)).kids| - 1 != 1 then Err(LiftArity)
    else Ok(ReplaceWith(t, Parent(p), At(t, Parent(p)).kids[1]))
  }

  /** One reference, wherever it now is in the tree; one no longer in the
      tree has nothing left to do. */
  function LiftStep(t: Node, ref: Uid): Result<Node> {
    match Locate(t, ref)
    case None => Ok(t)
    case Some(p) => LiftAt(t, p)
  }

  /** The references in order; the first failure stops the rest. */
  function LiftRefs(t: Node, refs: seq<Uid>): (Node, Option<Error>)
    decreases |refs|
  {
    if refs == [] then (t, None)
    else match LiftStep(t, refs[0])
      case Err(e) => (t, Some(e))
      case Ok(t1) => LiftRefs(t1, refs[1..])
  }

  /** One iteration of the loop, editing the host tree in place. */
  method LiftInPlace(ast: Ast, ref: Uid) returns (err: Option<Error>)
    modifies ast
    ensures LiftStep(old(ast.root), ref) == if err.Some? then Err(err.value) else Ok(ast.root)
    ensures ast.next == old(ast.next)
    ensures err.Some? ==> ast.root == old(ast.root)
  {
    var located := Locate(ast.root, ref);
    if located.None? {
      return None;
    }
    var p := located.value;
    if p == [] {
      return Some(NoParentPath);
    }
    if !At(ast.root, Parent(p)).kind.CallExpression? {
      return Some(LiftNotCalled);
    }
    var call := Parent(p);
    var argCount := |At(ast.root, call).kids| - 1;
    if argCount != 1 {
      return Some(LiftArity);
    }
    ast.root := ReplaceWith(ast.root, call, At(ast.root, call).kids[1]);
    return None;
  }

  /** `transformLift` as the source runs it, editing the host tree in place. */
  method TransformLiftInPlace(ast: Ast, refs: seq<Uid>) returns (err: Option<Error>)
    modifies ast
    ensures (ast.root, err) == LiftRefs(old(ast.root), refs)
    ensures ast.next == old(ast.next)
  {
    for i := 0 to |refs|
      invariant LiftRefs(ast.root, refs[i..]) == LiftRefs(old(ast.root), refs)
      invariant ast.next == old(ast.next)
    {
      assert refs[i..][1..] == refs[i + 1..];
      err := LiftInPlace(ast, refs[i]);
      if err.Some? {
        return;
      }
    }
    assert refs[|refs|..] == [];
    return None;
  }

  // ---------------------------------------------------------------- what one reference does to the tree

  /** A reference fails exactly when its parent is not a call, or is a call
      whose argument count is not one, and the first of these is reported. */
  lemma LiftOutcome(t: Node, p: Path)
    requires ValidPath(t, p) && p != []
    ensures LiftAt(t, p).Err? <==>
      !At(t, Parent(p)).kind.CallExpression? || |At(t, Parent(p)).kids| != 2
    ensures LiftAt(t, p).Err? ==>
      LiftAt(t, p).error == (if At(t, Parent(p)).kind.CallExpression? then LiftArity else LiftNotCalled)
  {
  }

  /** A reference at the root fails with the host's crash, not with either
      of the transformer's own errors. */
  lemma LiftAtRoot(t: Node)
    ensures LiftAt(t, []).Err? && LiftAt(t, []).error == NoParentPath
    ensures LiftStep(t, t.uid) == Err(NoParentPath)
  {
  }

  /** The call becomes its argument, keeping the data of the call's position. */
  lemma LiftHere(t: Node, p: Path)
    requires ValidPath(t, p) && LiftAt(t, p).Ok?
    ensures var c := Parent(p); var r := LiftAt(t, p).value;
      ValidPath(r, c) && At(r, c) == At(t, c + [1]).(meta := At(t, c).meta)
  {
    var c := Parent(p);
    AtParent(t, p);
    AtSnoc(t, c, 1);
    PutAt(t, c, At(t, c).kids[1].(meta := At(t, c).meta));
  }

  /** Below the call's position is the argument's subtree. */
  lemma LiftBelow(t: Node, p: Path, d: Path)
    requires ValidPath(t, p) && LiftAt(t, p).Ok? && d != []
    ensures var c := Parent(p); var r := LiftAt(t, p).value;
      At(r, c + d) == At(t, c + [1] + d) &&
      (ValidPath(r, c + d) <==> ValidPath(t, c + [1] + d))
  {
    var c := Parent(p);
    var arg := At(t, c).kids[1];
    AtParent(t, p);
    AtSnoc(t, c, 1);
    PutBelow(t, c, arg.(meta := At(t, c).meta), d);
    assert At(arg.(meta := At(t, c).meta), d) == At(arg, d) by {
      assert d[0] < |arg.kids| ==> At(arg.(meta := At(t, c).meta), d) == At(arg.kids[d[0]], d[1..]);
    }
    AtAppend(t, c + [1], d);
  }

  /** Above the call, every node keeps its head. */
  lemma LiftAbove(t: Node, p: Path, a: Path)
    requires ValidPath(t, p) && LiftAt(t, p).Ok? && IsPrefix(a, Parent(p)) && a != Parent(p)
    ensures ValidPath(LiftAt(t, p).value, a) && SameHead(At(LiftAt(t, p).value, a), At(t, a))
  {
    var c := Parent(p);
    AtParent(t, p);
    PutAbove(t, c, At(t, c).kids[1].(meta := At(t, c).meta), a);
  }

  /** Beside the call, nothing changes. */
  lemma LiftElsewhere(t: Node, p: Path, a: Path)
    requires ValidPath(t, p) && LiftAt(t, p).Ok?
    requires !IsPrefix(Parent(p), a) && !IsPrefix(a, Parent(p))
    ensures At(LiftAt(t, p).value, a) == At(t, a)
    ensures ValidPath(LiftAt(t, p).value, a) <==> ValidPath(t, a)
  {
    var c := Parent(p);
    PutElsewhere(t, c, At(t, c).kids[1].(meta := At(t, c).meta), a);
  }

  /** The loop over `a + b` is the loop over `a`, then, if that did not
      fail, the loop over `b` from where it stopped. */
  lemma {:induction false} LiftRefsAppend(t: Node, a: seq<Uid>, b: seq<Uid>)
    ensures LiftRefs(t, a + b) ==
      var (t1, e) := LiftRefs(t, a);
      if e.Some? then (t1, e) else LiftRefs(t1, b)
    decreases |a|
  {
    if a != [] {
      assert (a + b)[0] == a[0];
      assert (a + b)[1..] == a[1..] + b;
      match LiftStep(t, a[0])
      case Err(_) =>
      case Ok(t1) => LiftRefsAppend(t1, a[1..], b);
    } else {
      assert a + b == b;
    }
  }

  /** A failing reference leaves the tree as the earlier references left it. */
  lemma {:induction false} LiftRefsFailure(t: Node, refs: seq<Uid>, i: nat)
    requires i < |refs| && LiftRefs(t, refs[..i]).1.None?
    requires LiftStep(LiftRefs(t, refs[..i]).0, refs[i]).Err?
    ensures LiftRefs(t, refs) ==
      (LiftRefs(t, refs[..i]).0, Some(LiftStep(LiftRefs(t, refs[..i]).0, refs[i]).error))
  {
    assert refs == refs[..i] + refs[i..];
    LiftRefsAppend(t, refs[..i], refs[i..]);
  }
}
