/** The placeholder transformer (`_`): each placeholder becomes a fresh
    parameter, either of a closure the macro already built around it or of a
    new one-parameter closure around the expression it belongs to; the calls
    it wrapped have their effectful arguments hoisted once all placeholders
    are done. */
module Placeholders {
  import opened Tree
  import opened Navigation
  import opened Hoisting

  /** The fresh name of the `k`-th placeholder parameter (`_arg`, `_arg2`, ...). */
  function ArgName(k: nat): Name {
    Gen("arg", k)
  }

  /** `wrapper.node.params.push(param)`. */
  function AppendParam(t: Node, w: Path, param: Node): Node {
    Put(t, w, At(t, w).(kids := At(t, w).kids + [param]))
  }

  /** The transformer's state: the tree, the fresh-name counter, and the
      recorded hoist targets (by node identity). */
  datatype PState = PState(tree: Node, next: nat, hoist: seq<Uid>)

  /** One placeholder reference, wherever it now is in the tree.  At the
      root there is no wrapper, no assignment target and no caller, so the
      reference is misplaced. */
  function Step(s: PState, ref: Uid): Result<PState> {
    match Locate(s.tree, ref)
    case None => Ok(s)
    case Some(p) => if p == [] then Err(PlaceholderMisplaced) else StepAt(s, p)
  }

  /** A placeholder inside a closure the macro already built: it becomes a
      fresh id, its argument slot is marked and the closure gains a parameter.
      (The closure was searched for from that argument slot, so the slot is
      always there; see `ReuseEffect`.) */
  function Reuse(t: Node, p: Path, w: Path, x: Name): Node
    requires p != []
  {
    var param := ParamNode(t, p, x);
    var t1 := ReplaceWith(t, p, IdentNode(x));
    var t2 := match TargetCallee(t, p) case Some(c) => MarkPlaceholder(t1, c) case None => t1;
    AppendParam(t2, w, param)
  }

  /** The id replacing the placeholder at `p`, marked. */
  function Replace(t: Node, p: Path, x: Name): Node {
    MarkPlaceholder(ReplaceWith(t, p, IdentNode(x)), p)
  }

  /** The id in place and marked; for an argument, its slot marked too. */
  function Marked(t: Node, p: Path, x: Name, isAssign: bool): Node
    requires !isAssign ==> TargetCallee(t, p).Some?
  {
    var t2 := Replace(t, p, x);
    if isAssign then t2 else MarkPlaceholder(t2, TargetCallee(t, p).value)
  }

  /** A placeholder with its own closure: the topmost link of the chain above
      `caller` is wrapped into `(x) => { return <link> }` with uid `Made(u)`,
      and that link is marked. Returns the tree and the hoist target: the
      closure itself when it replaced the caller, else the caller. */
  function Enclose(t: Node, p: Path, caller: Path, x: Name, u: nat, isAssign: bool): (Node, Uid)
    requires p != [] && (!isAssign ==> TargetCallee(t, p).Some?)
  {
    var param := ParamNode(t, p, x);
    var t3 := Marked(t, p, x, isAssign);
    var tail := TopmostLink(t3, caller);
    (Wrap(t3, tail, param, u), if tail == caller then Made(u) else At(t3, caller).uid)
  }

  /** The node at `tail` becomes `(param) => { return <node> }` with uid
      `Made(u)`, and that position is marked. */
  function Wrap(t: Node, tail: Path, param: Node, u: nat): Node {
    MarkPlaceholder(ReplaceWith(t, tail, Closure([param], At(t, tail), Made(u))), tail)
  }

  /** The placeholder at `p`: join the closure it already sits in, if any. */
  function StepAt(s: PState, p: Path): Result<PState>
    requires p != []
  {
    match Wrapper(s.tree, p, false)
    case Some(w) => Ok(PState(Reuse(s.tree, p, w, ArgName(s.next)), s.next + 1, s.hoist))
    case None => Unwrapped(s, p)
  }

  /** No closure to join: an assignment target comes first, then the owning call. */
  function Unwrapped(s: PState, p: Path): Result<PState>
    requires p != []
  {
    match TargetAssignment(s.tree, p)
    case Some(c) => Ok(Assigned(s, p, c))
    case None => Called(s, p)
  }

  /** The placeholder belongs to the assignment target `c`: join a closure
      above the placeholder itself if there is one, else wrap the chain above
      `c`. Nothing is recorded for hoisting. */
  function Assigned(s: PState, p: Path, c: Path): PState
    requires p != []
  {
    var x := ArgName(s.next);
    match Wrapper(s.tree, p, true)
    case Some(w) => PState(AppendParam(Replace(s.tree, p, x), w, ParamNode(s.tree, p, x)), s.next + 1, s.hoist)
    case None => PState(Enclose(s.tree, p, c, x, s.next, true).0, s.next + 1, s.hoist)
  }

  /** The placeholder is an argument of the call `c`: wrap the chain above `c`
      and record the hoist target; with no such call the placeholder is misplaced. */
  function Called(s: PState, p: Path): Result<PState>
    requires p != []
  {
    match TargetCaller(s.tree, p)
    case None => Err(PlaceholderMisplaced)
    case Some(c) =>
      var r := Enclose(s.tree, p, c, ArgName(s.next), s.next, false);
      Ok(PState(r.0, s.next + 1, s.hoist + [r.1]))
  }

  /** The references in order; the first failure stops the rest. */
  function PlaceholderRefs(s: PState, refs: seq<Uid>): (PState, Option<Error>)
    decreases |refs|
  {
    if refs == [] then (s, None)
    else match Step(s, refs[0])
      case Err(e) => (s, Some(e))
      case Ok(s1) => PlaceholderRefs(s1, refs[1..])
  }

  /** Hoisting each recorded target in turn; the first failure stops the rest. */
  function HoistAll(t: Node, next: nat, targets: seq<Uid>): (Node, nat, Option<Error>)
    decreases |targets|
  {
    if targets == [] then (t, next, None)
    else match HoistTarget(t, next, targets[0])
      case Err(e) => (t, next, Some(e))
      case Ok(r) => HoistAll(r.0, r.1, targets[1..])
  }

  /** `transformPlaceholders`: all references, then all hoisting. */
  function TransformPlaceholders(t: Node, next: nat, refs: seq<Uid>): (Node, nat, Option<Error>) {
    var (s, e) := PlaceholderRefs(PState(t, next, []), refs);
    if e.Some? then (s.tree, s.next, e) else HoistAll(s.tree, s.next, s.hoist)
  }

  /** Lines 19-27: reusing the wrapper closure, in place. */
  method ReuseInPlace(ast: Ast, p: Path, w: Path)
    modifies ast
    requires p != []
    ensures ast.root == Reuse(old(ast.root), p, w, ArgName(old(ast.next))) && ast.next == old(ast.next) + 1
  {
    var id := ArgName(ast.next);
    var param := ParamNode(ast.root, p, id);
    var callee := TargetCallee(ast.root, p);
    ast.root := ReplaceWith(ast.root, p, IdentNode(id));
    if callee.Some? {
      ast.root := MarkPlaceholder(ast.root, callee.value);
    }
    ast.root := AppendParam(ast.root, w, param);
    ast.next := ast.next + 1;
  }

  /** Lines 46-70 once no wrapper was found: the new closure, in place. */
  method EncloseInPlace(ast: Ast, p: Path, caller: Path, isAssign: bool) returns (target: Uid)
    modifies ast
    requires p != [] && (!isAssign ==> TargetCallee(ast.root, p).Some?)
    ensures (ast.root, target) == Enclose(old(ast.root), p, caller, ArgName(old(ast.next)), old(ast.next), isAssign)
    ensures ast.next == old(ast.next) + 1
  {
    var id := ArgName(ast.next);
    var param := ParamNode(ast.root, p, id);
    var callee := TargetCallee(ast.root, p);
    ast.root := ReplaceWith(ast.root, p, IdentNode(id));
    ast.root := MarkPlaceholder(ast.root, p);
    if !isAssign {
      ast.root := MarkPlaceholder(ast.root, callee.value);
    }
    target := At(ast.root, caller).uid;
    var tail := TopmostLink(ast.root, caller);
    if tail == caller {
      target := Made(ast.next);
    }
    var fn := Closure([param], At(ast.root, tail), Made(ast.next));
    ast.root := ReplaceWith(ast.root, tail, fn);
    ast.root := MarkPlaceholder(ast.root, tail);
    assert ast.root == Wrap(Marked(old(ast.root), p, id, isAssign), tail, param, ast.next);
    ast.next := ast.next + 1;
  }

  /** One iteration of the reference loop (lines 18-71), editing the host
      tree in place; `hoist` is the list of hoist targets so far. */
  method PlaceholderInPlace(ast: Ast, hoist: seq<Uid>, ref: Uid) returns (hoist': seq<Uid>, err: Option<Error>)
    modifies ast
    ensures Step(PState(old(ast.root), old(ast.next), hoist), ref) ==
      if err.Some? then Err(err.value) else Ok(PState(ast.root, ast.next, hoist'))
    ensures err.Some? ==> ast.root == old(ast.root) && ast.next == old(ast.next)
  {
    hoist', err := hoist, None;
    var located := Locate(ast.root, ref);
    if located.Some? {
      if located.value == [] {
        err := Some(PlaceholderMisplaced);
      } else {
        hoist', err := PlaceholderAtInPlace(ast, hoist, located.value);
      }
    }
  }

  /** The same, for the reference found at `p`. */
  method PlaceholderAtInPlace(ast: Ast, hoist: seq<Uid>, p: Path) returns (hoist': seq<Uid>, err: Option<Error>)
    modifies ast
    requires p != []
    ensures StepAt(PState(old(ast.root), old(ast.next), hoist), p) ==
      if err.Some? then Err(err.value) else Ok(PState(ast.root, ast.next, hoist'))
    ensures err.Some? ==> ast.root == old(ast.root) && ast.next == old(ast.next)
  {
    ghost var s := PState(ast.root, ast.next, hoist);
    var wrapper := Wrapper(ast.root, p, false);
    if wrapper.Some? {
      ghost var r := Reuse(ast.root, p, wrapper.value, ArgName(ast.next));
      assert StepAt(s, p) == Ok(PState(r, s.next + 1, hoist)) by {
        StepAtJoined(s, p, wrapper.value);
      }
      ReuseInPlace(ast, p, wrapper.value);
      hoist', err := hoist, None;
    } else {
      StepAtUnwrapped(s, p);
      hoist', err := UnwrappedInPlace(ast, hoist, p);
    }
  }

  lemma StepAtJoined(s: PState, p: Path, w: Path)
    requires p != [] && Wrapper(s.tree, p, false) == Some(w)
    ensures StepAt(s, p) == Ok(PState(Reuse(s.tree, p, w, ArgName(s.next)), s.next + 1, s.hoist))
  {
  }

  lemma StepAtUnwrapped(s: PState, p: Path)
    requires p != [] && Wrapper(s.tree, p, false).None?
    ensures StepAt(s, p) == Unwrapped(s, p)
  {
  }

  /** Lines 30-70: no closure to join. */
  method UnwrappedInPlace(ast: Ast, hoist: seq<Uid>, p: Path) returns (hoist': seq<Uid>, err: Option<Error>)
    modifies ast
    requires p != []
    ensures Unwrapped(PState(old(ast.root), old(ast.next), hoist), p) ==
      if err.Some? then Err(err.value) else Ok(PState(ast.root, ast.next, hoist'))
    ensures err.Some? ==> ast.root == old(ast.root) && ast.next == old(ast.next)
  {
    var caller := TargetAssignment(ast.root, p);
    if caller.Some? {
      AssignedInPlace(ast, hoist, p, caller.value);
      hoist', err := hoist, None;
    } else {
      hoist', err := CalledInPlace(ast, hoist, p);
    }
  }

  /** Lines 33 and 46-70 for an assignment target `c`. */
  method AssignedInPlace(ast: Ast, hoist: seq<Uid>, p: Path, c: Path)
    modifies ast
    requires p != []
    ensures Assigned(PState(old(ast.root), old(ast.next), hoist), p, c) == PState(ast.root, ast.next, hoist)
  {
    var wrapper := Wrapper(ast.root, p, true);
    if wrapper.Some? {
      var param := ParamNode(ast.root, p, ArgName(ast.next));
      ast.root := Replace(ast.root, p, ArgName(ast.next));
      ast.root := AppendParam(ast.root, wrapper.value, param);
      ast.next := ast.next + 1;
    } else {
      var _ := EncloseInPlace(ast, p, c, true);
    }
  }

  /** Lines 36-44 and 46-70 for the call owning the placeholder's argument slot. */
  method CalledInPlace(ast: Ast, hoist: seq<Uid>, p: Path) returns (hoist': seq<Uid>, err: Option<Error>)
    modifies ast
    requires p != []
    ensures Called(PState(old(ast.root), old(ast.next), hoist), p) ==
      if err.Some? then Err(err.value) else Ok(PState(ast.root, ast.next, hoist'))
    ensures err.Some? ==> ast.root == old(ast.root) && ast.next == old(ast.next)
  {
    var caller := TargetCaller(ast.root, p);
    if caller.None? {
      return hoist, Some(PlaceholderMisplaced);
    }
    var target := EncloseInPlace(ast, p, caller.value, false);
    hoist', err := hoist + [target], None;
  }

  /** `transformPlaceholders` as the source runs it, editing the host tree in place. */
  method TransformPlaceholdersInPlace(ast: Ast, refs: seq<Uid>) returns (err: Option<Error>)
    modifies ast
    ensures (ast.root, ast.next, err) == TransformPlaceholders(old(ast.root), old(ast.next), refs)
  {
    var hoistTargets: seq<Uid> := [];
    for i := 0 to |refs|
      invariant PlaceholderRefs(PState(ast.root, ast.next, hoistTargets), refs[i..]) ==
        PlaceholderRefs(PState(old(ast.root), old(ast.next), []), refs)
    {
      assert refs[i..][1..] == refs[i + 1..];
      hoistTargets, err := PlaceholderInPlace(ast, hoistTargets, refs[i]);
      if err.Some? {
        return;
      }
    }
    assert refs[|refs|..] == [];
    for j := 0 to |hoistTargets|
      invariant HoistAll(ast.root, ast.next, hoistTargets[j..]) ==
        TransformPlaceholders(old(ast.root), old(ast.next), refs)
    {
      assert hoistTargets[j..][1..] == hoistTargets[j + 1..];
      err := HoistArguments(ast, hoistTargets[j]);
      if err.Some? {
        return;
      }
    }
    err := None;
  }

  // ---------------------------------------------------------------- what one placeholder does to the tree

  /** The placeholder's position holds the fresh id, marked; every position
      above it keeps its head; positions beside it are untouched. */
  lemma ReplaceEffect(t: Node, p: Path, x: Name)
    requires ValidPath(t, p)
    ensures ValidPath(Replace(t, p, x), p)
    ensures At(Replace(t, p, x), p) == Node(Identifier(x), [], At(t, p).meta.(wasPlaceholder := true), Anon)
    ensures forall q | IsPrefix(q, p) && q != p ::
      ValidPath(Replace(t, p, x), q) && SameHead(At(Replace(t, p, x), q), At(t, q))
    ensures forall q | !IsPrefix(p, q) && !IsPrefix(q, p) :: At(Replace(t, p, x), q) == At(t, q)
  {
    var n := IdentNode(x).(meta := At(t, p).meta);
    var t1 := ReplaceWith(t, p, IdentNode(x));
    var m := At(t1, p).(meta := At(t1, p).meta.(wasPlaceholder := true));
    PutAt(t, p, n);
    MarkPlaceholderEffect(t1, p);
    forall q | IsPrefix(q, p) && q != p
      ensures ValidPath(Replace(t, p, x), q) && SameHead(At(Replace(t, p, x), q), At(t, q))
    {
      PutAbove(t, p, n, q);
      PutAbove(t1, p, m, q);
    }
    forall q | !IsPrefix(p, q) && !IsPrefix(q, p) ensures At(Replace(t, p, x), q) == At(t, q) {
      PutElsewhere(t, p, n, q);
    }
  }

  /** Appending a parameter to the closure at `w` changes nothing below its
      existing children, and keeps everything above it but the way down. */
  lemma AppendParamEffect(t: Node, w: Path, param: Node)
    requires ValidPath(t, w)
    ensures ValidPath(AppendParam(t, w, param), w)
    ensures At(AppendParam(t, w, param), w) == At(t, w).(kids := At(t, w).kids + [param])
    ensures forall q | IsPrefix(w, q) && q != w && ValidPath(t, q) ::
      ValidPath(AppendParam(t, w, param), q) && At(AppendParam(t, w, param), q) == At(t, q)
  {
    var n := At(t, w).(kids := At(t, w).kids + [param]);
    PutAt(t, w, n);
    assert n.kids[..|At(t, w).kids|] == At(t, w).kids;
    forall q | IsPrefix(w, q) && q != w && ValidPath(t, q)
      ensures ValidPath(AppendParam(t, w, param), q) && At(AppendParam(t, w, param), q) == At(t, q)
    {
      PutMoreKids(t, w, n, q);
    }
  }

  /** Joining the closure the macro built: the placeholder is the fresh id,
      its argument slot is marked, and the closure, still a marked arrow,
      gains the parameter for it as its last child. */
  lemma ReuseEffect(t: Node, p: Path, w: Path, x: Name)
    requires ValidPath(t, p) && p != [] && Wrapper(t, p, false) == Some(w)
    ensures TargetCallee(t, p).Some?
    ensures var r := Reuse(t, p, w, x);
      ValidPath(r, p) && At(r, p).kind == Identifier(x) &&
      ValidPath(r, TargetCallee(t, p).value) && WasMacro(At(r, TargetCallee(t, p).value))
    ensures var r := Reuse(t, p, w, x);
      ValidPath(r, w) && IsMarkedArrow(r, w) && At(r, w).uid == At(t, w).uid &&
      |At(r, w).kids| == |At(t, w).kids| + 1 && At(r, w).kids[|At(t, w).kids|] == ParamNode(t, p, x)
  {
    WrapperFound(t, p, false);
    var c := TargetCallee(t, p).value;
    var t2 := MarkPlaceholder(ReplaceWith(t, p, IdentNode(x)), c);
    ReuseMarks(t, p, c, w, x);
    assert Reuse(t, p, w, x) == AppendParam(t2, w, ParamNode(t, p, x));
    AppendParamEffect(t2, w, ParamNode(t, p, x));
  }

  /** Before the parameter is appended: the id is at `p`, the slot `c` is
      marked, and the wrapper `w` above `c` keeps its head. */
  lemma ReuseMarks(t: Node, p: Path, c: Path, w: Path, x: Name)
    requires ValidPath(t, p) && IsPrefix(c, p) && IsPrefix(w, c) && w != c
    ensures var t2 := MarkPlaceholder(ReplaceWith(t, p, IdentNode(x)), c);
      ValidPath(t2, p) && At(t2, p).kind == Identifier(x) && ValidPath(t2, c) && WasMacro(At(t2, c)) &&
      ValidPath(t2, w) && SameHead(At(t2, w), At(t, w))
  {
    var n := IdentNode(x).(meta := At(t, p).meta);
    var t1 := ReplaceWith(t, p, IdentNode(x));
    PutAt(t, p, n);
    if c != p {
      PutAbove(t, p, n, c);
    }
    PutAbove(t, p, n, w);
    MarkPlaceholderEffect(t1, c);
  }

  /** Joining the closure changes nothing beside the placeholder, keeps the
      kind and identity of every node above it, the size of all but the
      closure, and the metadata of all but the marked argument slot. */
  lemma ReuseFrame(t: Node, p: Path, w: Path, x: Name)
    requires ValidPath(t, p) && p != [] && Wrapper(t, p, false) == Some(w)
    ensures var r := Reuse(t, p, w, x);
      forall q | ValidPath(t, q) && !IsPrefix(p, q) && !IsPrefix(q, p) :: ValidPath(r, q) && At(r, q) == At(t, q)
    ensures var r := Reuse(t, p, w, x); var c := TargetCallee(t, p);
      forall q | IsPrefix(q, p) && q != p ::
        ValidPath(r, q) && At(r, q).kind == At(t, q).kind && At(r, q).uid == At(t, q).uid &&
        (q != w ==> |At(r, q).kids| == |At(t, q).kids|) && (Some(q) != c ==> At(r, q).meta == At(t, q).meta)
  {
    WrapperFound(t, p, false);
    var c := TargetCallee(t, p).value;
    PrefixTrans(w, c, p);
    assert Reuse(t, p, w, x) == AppendParam(MarkPlaceholder(ReplaceWith(t, p, IdentNode(x)), c), w, ParamNode(t, p, x));
    forall q | ValidPath(t, q) && !IsPrefix(p, q) && !IsPrefix(q, p)
      ensures ValidPath(Reuse(t, p, w, x), q) && At(Reuse(t, p, w, x), q) == At(t, q)
    {
      JoinElsewhere(t, p, c, w, x, q);
    }
    forall q | IsPrefix(q, p) && q != p
      ensures var r := Reuse(t, p, w, x);
        ValidPath(r, q) && At(r, q).kind == At(t, q).kind && At(r, q).uid == At(t, q).uid &&
        (q != w ==> |At(r, q).kids| == |At(t, q).kids|) && (q != c ==> At(r, q).meta == At(t, q).meta)
    {
      JoinAbove(t, p, c, w, x, q);
    }
  }

  /** The same for joining a closure above an assignment's placeholder; the
      only mark is on the placeholder itself. */
  lemma AssignedFrame(s: PState, p: Path, c: Path, w: Path)
    requires ValidPath(s.tree, p) && p != [] && Wrapper(s.tree, p, true) == Some(w)
    ensures var r := Assigned(s, p, c).tree; var t := s.tree;
      forall q | ValidPath(t, q) && !IsPrefix(p, q) && !IsPrefix(q, p) :: ValidPath(r, q) && At(r, q) == At(t, q)
    ensures var r := Assigned(s, p, c).tree; var t := s.tree;
      forall q | IsPrefix(q, p) && q != p ::
        ValidPath(r, q) && At(r, q).kind == At(t, q).kind && At(r, q).uid == At(t, q).uid &&
        At(r, q).meta == At(t, q).meta && (q != w ==> |At(r, q).kids| == |At(t, q).kids|)
  {
    var t := s.tree;
    var x := ArgName(s.next);
    WrapperFound(t, p, true);
    assert Assigned(s, p, c).tree == AppendParam(MarkPlaceholder(ReplaceWith(t, p, IdentNode(x)), p), w, ParamNode(t, p, x));
    forall q | ValidPath(t, q) && !IsPrefix(p, q) && !IsPrefix(q, p)
      ensures ValidPath(Assigned(s, p, c).tree, q) && At(Assigned(s, p, c).tree, q) == At(t, q)
    {
      JoinElsewhere(t, p, p, w, x, q);
    }
    forall q | IsPrefix(q, p) && q != p
      ensures var r := Assigned(s, p, c).tree;
        ValidPath(r, q) && At(r, q).kind == At(t, q).kind && At(r, q).uid == At(t, q).uid &&
        At(r, q).meta == At(t, q).meta && (q != w ==> |At(r, q).kids| == |At(t, q).kids|)
    {
      JoinAbove(t, p, p, w, x, q);
    }
  }

  /** The id at `p`, the mark at `c` and the parameter appended at `w`, seen
      from a position above `p`. */
  lemma JoinAbove(t: Node, p: Path, c: Path, w: Path, x: Name, q: Path)
    requires ValidPath(t, p) && IsPrefix(c, p) && IsPrefix(w, c) && w != c
    requires IsPrefix(q, p) && q != p
    ensures var r := AppendParam(MarkPlaceholder(ReplaceWith(t, p, IdentNode(x)), c), w, ParamNode(t, p, x));
      ValidPath(r, q) && At(r, q).kind == At(t, q).kind && At(r, q).uid == At(t, q).uid &&
      (q != w ==> |At(r, q).kids| == |At(t, q).kids|) && (q != c ==> At(r, q).meta == At(t, q).meta)
  {
    var t2 := MarkPlaceholder(ReplaceWith(t, p, IdentNode(x)), c);
    PrefixTrans(w, c, p);
    MarkedSlotAbove(t, p, c, x, q);
    MarkedSlotAbove(t, p, c, x, w);
    var nw := At(t2, w).(kids := At(t2, w).kids + [ParamNode(t, p, x)]);
    AppendParamEffect(t2, w, ParamNode(t, p, x));
    PrefixesMeet(q, w, p);
    if IsPrefix(q, w) && q != w {
      PutAbove(t2, w, nw, q);
    }
  }

  /** ... and from a position beside it. */
  lemma JoinElsewhere(t: Node, p: Path, c: Path, w: Path, x: Name, q: Path)
    requires ValidPath(t, p) && IsPrefix(c, p) && IsPrefix(w, c) && w != c
    requires ValidPath(t, q) && !IsPrefix(p, q) && !IsPrefix(q, p)
    ensures var r := AppendParam(MarkPlaceholder(ReplaceWith(t, p, IdentNode(x)), c), w, ParamNode(t, p, x));
      ValidPath(r, q) && At(r, q) == At(t, q)
  {
    var t2 := MarkPlaceholder(ReplaceWith(t, p, IdentNode(x)), c);
    PrefixTrans(w, c, p);
    MarkedSlotElsewhere(t, p, c, x, q);
    MarkedSlotAbove(t, p, c, x, w);
    var nw := At(t2, w).(kids := At(t2, w).kids + [ParamNode(t, p, x)]);
    AppendParamEffect(t2, w, ParamNode(t, p, x));
    if IsPrefix(q, w) {
      PrefixTrans(q, w, p);
    } else if !IsPrefix(w, q) {
      PutElsewhere(t2, w, nw, q);
    }
  }

  /** The id at `p` with the mark at `c`, seen from a position above `p`. */
  lemma MarkedSlotAbove(t: Node, p: Path, c: Path, x: Name, q: Path)
    requires ValidPath(t, p) && IsPrefix(c, p) && IsPrefix(q, p) && q != p
    ensures var t2 := MarkPlaceholder(ReplaceWith(t, p, IdentNode(x)), c);
      ValidPath(t2, q) && Keeps(At(t2, q), At(t, q)) && (q != c ==> At(t2, q).meta == At(t, q).meta)
  {
    var n := IdentNode(x).(meta := At(t, p).meta);
    var t1 := Put(t, p, n);
    PutAbove(t, p, n, q);
    if c == p {
      PutAt(t, p, n);
    } else {
      PutAbove(t, p, n, c);
    }
    MarkPlaceholderEffect(t1, c);
    PrefixesMeet(q, c, p);
  }

  /** ... and from a position beside it. */
  lemma MarkedSlotElsewhere(t: Node, p: Path, c: Path, x: Name, q: Path)
    requires ValidPath(t, p) && IsPrefix(c, p) && !IsPrefix(p, q) && !IsPrefix(q, p)
    ensures var t2 := MarkPlaceholder(ReplaceWith(t, p, IdentNode(x)), c);
      At(t2, q) == At(t, q) && (ValidPath(t2, q) <==> ValidPath(t, q))
  {
    var n := IdentNode(x).(meta := At(t, p).meta);
    var t1 := Put(t, p, n);
    PutElsewhere(t, p, n, q);
    if c == p {
      PutAt(t, p, n);
    } else {
      PutAbove(t, p, n, c);
    }
    MarkPlaceholderEffect(t1, c);
    if IsPrefix(q, c) {
      PrefixTrans(q, c, p);
    } else if !IsPrefix(c, q) {
      PutElsewhere(t1, c, At(t1, c).(meta := At(t1, c).meta.(wasPlaceholder := true)), q);
    }
  }

  /** After the id is put in place and marked (and, for an argument, its slot
      marked): the id is at `p`, marked, and so is the slot. */
  lemma MarkedAt(t: Node, p: Path, x: Name, isAssign: bool)
    requires ValidPath(t, p) && (!isAssign ==> TargetCallee(t, p).Some?)
    ensures ValidPath(Marked(t, p, x, isAssign), p)
    ensures At(Marked(t, p, x, isAssign), p).kind == Identifier(x) && WasMacro(At(Marked(t, p, x, isAssign), p))
    ensures !isAssign ==>
      ValidPath(Marked(t, p, x, isAssign), TargetCallee(t, p).value) &&
      WasMacro(At(Marked(t, p, x, isAssign), TargetCallee(t, p).value))
  {
    var t2 := Replace(t, p, x);
    ReplaceEffect(t, p, x);
    if !isAssign {
      var c := TargetCallee(t, p).value;
      MarkPlaceholderEffect(t2, c);
      if c != p {
        assert IsPrefix(c, p) && c != p;
      }
    }
  }

  /** ... the positions above `p` keep their kind, size and identity ... */
  lemma MarkedAbove(t: Node, p: Path, x: Name, isAssign: bool, q: Path)
    requires ValidPath(t, p) && (!isAssign ==> TargetCallee(t, p).Some?)
    requires IsPrefix(q, p) && q != p
    ensures ValidPath(Marked(t, p, x, isAssign), q) && Keeps(At(Marked(t, p, x, isAssign), q), At(t, q))
  {
    var t2 := Replace(t, p, x);
    ReplaceEffect(t, p, x);
    if !isAssign {
      var c := TargetCallee(t, p).value;
      MarkPlaceholderEffect(t2, c);
      if q != c && !IsPrefix(c, q) {
        PrefixesMeet(q, c, p);
      }
    }
  }

  /** ... and the positions beside `p` are untouched. */
  lemma MarkedElsewhere(t: Node, p: Path, x: Name, isAssign: bool, q: Path)
    requires ValidPath(t, p) && (!isAssign ==> TargetCallee(t, p).Some?)
    requires !IsPrefix(p, q) && !IsPrefix(q, p)
    ensures At(Marked(t, p, x, isAssign), q) == At(t, q)
  {
    var t2 := Replace(t, p, x);
    ReplaceEffect(t, p, x);
    if !isAssign {
      var c := TargetCallee(t, p).value;
      MarkPlaceholderEffect(t2, c);
    }
  }

  /** Wrapping `tail`: a marked arrow with the one parameter and the new
      identity stands there ... */
  lemma WrapAt(t: Node, tail: Path, param: Node, u: nat)
    requires ValidPath(t, tail)
    ensures var w := Wrap(t, tail, param, u);
      ValidPath(w, tail) && IsMarkedArrow(w, tail) && |At(w, tail).kids| == 2 && At(w, tail).kids[1] == param &&
      At(w, tail).uid == Made(u)
  {
    var fn := Closure([param], At(t, tail), Made(u)).(meta := At(t, tail).meta);
    PutAt(t, tail, fn);
    MarkPlaceholderEffect(Put(t, tail, fn), tail);
  }

  /** ... the old subtree lies below its `{ return ... }` ... */
  lemma WrapBelow(t: Node, tail: Path, param: Node, u: nat, d: Path)
    requires ValidPath(t, tail) && d != []
    ensures At(Wrap(t, tail, param, u), tail + [0, 0, 0] + d) == At(t, tail + d)
    ensures ValidPath(Wrap(t, tail, param, u), tail + [0, 0, 0] + d) <==> ValidPath(t, tail + d)
  {
    var fn := Closure([param], At(t, tail), Made(u)).(meta := At(t, tail).meta);
    var t4 := Put(t, tail, fn);
    var q := tail + [0, 0, 0] + d;
    PutAt(t, tail, fn);
    assert q == tail + ([0, 0, 0] + d);
    PutSameKids(t4, tail, At(t4, tail).(meta := At(t4, tail).meta.(wasPlaceholder := true)), q);
    PutBelow(t, tail, fn, [0, 0, 0] + d);
    ClosureBody([param], At(t, tail), Made(u), At(t, tail).meta, d);
    AtAppend(t, tail, d);
  }

  /** ... the nodes above it keep their head ... */
  lemma WrapAbove(t: Node, tail: Path, param: Node, u: nat, q: Path)
    requires ValidPath(t, tail) && IsPrefix(q, tail) && q != tail
    ensures ValidPath(Wrap(t, tail, param, u), q) && SameHead(At(Wrap(t, tail, param, u), q), At(t, q))
  {
    var fn := Closure([param], At(t, tail), Made(u)).(meta := At(t, tail).meta);
    PutAt(t, tail, fn);
    PutAbove(t, tail, fn, q);
    MarkPlaceholderEffect(Put(t, tail, fn), tail);
  }

  /** ... and the rest of the tree is untouched. */
  lemma WrapElsewhere(t: Node, tail: Path, param: Node, u: nat, q: Path)
    requires !IsPrefix(tail, q) && !IsPrefix(q, tail)
    ensures At(Wrap(t, tail, param, u), q) == At(t, q)
  {
    var fn := Closure([param], At(t, tail), Made(u)).(meta := At(t, tail).meta);
    PutElsewhere(t, tail, fn, q);
    MarkPlaceholderEffect(Put(t, tail, fn), tail);
  }

  /** For an argument, the chain above the call is the same before and after
      the id is put in place, and the call keeps its identity. */
  lemma EncloseCall(t: Node, p: Path, x: Name, u: nat)
    requires ValidPath(t, p) && p != [] && TargetCaller(t, p).Some?
    ensures var c := TargetCaller(t, p).value; var tail := TopmostLink(t, c);
      IsPrefix(tail, c) && |c| < |TargetCallee(t, p).value| && ValidPath(Marked(t, p, x, false), tail) &&
      Enclose(t, p, c, x, u, false) ==
        (Wrap(Marked(t, p, x, false), tail, ParamNode(t, p, x), u), if tail == c then Made(u) else At(t, c).uid)
  {
    var c := TargetCaller(t, p).value;
    var e := TargetCallee(t, p).value;
    assert c == Parent(e);
    var m := Marked(t, p, x, false);
    forall k | 0 <= k < |c| ensures At(m, c[..k]).kind == At(t, c[..k]).kind {
      assert c[..k] == p[..k];
      MarkedAbove(t, p, x, false, c[..k]);
    }
    TopmostLinkKinds(t, m, c);
    var tail := TopmostLink(t, c);
    assert IsPrefix(tail, p) && tail != p;
    MarkedAbove(t, p, x, false, tail);
    MarkedAbove(t, p, x, false, c);
  }

  /** A placeholder argument of the call at `c` with no closure to join: the
      topmost link of the chain above `c`, found in the tree as it was, is now
      a marked arrow whose one parameter binds the fresh id, and the hoist
      target is that arrow when it replaced the call itself, else the call. */
  lemma EncloseArrow(t: Node, p: Path, x: Name, u: nat)
    requires ValidPath(t, p) && p != [] && TargetCaller(t, p).Some?
    ensures var c := TargetCaller(t, p).value; var tail := TopmostLink(t, c); var r := Enclose(t, p, c, x, u, false);
      ValidPath(r.0, tail) && IsMarkedArrow(r.0, tail) && At(r.0, tail).uid == Made(u) &&
      |At(r.0, tail).kids| == 2 && At(r.0, tail).kids[1] == ParamNode(t, p, x) &&
      r.1 == if tail == c then Made(u) else At(t, c).uid
  {
    var c := TargetCaller(t, p).value;
    EncloseCall(t, p, x, u);
    WrapAt(Marked(t, p, x, false), TopmostLink(t, c), ParamNode(t, p, x), u);
  }

  /** ... the id sits below the arrow's `return` at its old position
      relative to the link ... */
  lemma EncloseId(t: Node, p: Path, x: Name, u: nat)
    requires ValidPath(t, p) && p != [] && TargetCaller(t, p).Some?
    ensures var c := TargetCaller(t, p).value; var tail := TopmostLink(t, c); var r := Enclose(t, p, c, x, u, false).0;
      |tail| < |p| && ValidPath(r, tail + [0, 0, 0] + p[|tail|..]) &&
      At(r, tail + [0, 0, 0] + p[|tail|..]).kind == Identifier(x)
  {
    var c := TargetCaller(t, p).value;
    var tail := TopmostLink(t, c);
    EncloseCall(t, p, x, u);
    MarkedAt(t, p, x, false);
    WrapBelow(Marked(t, p, x, false), tail, ParamNode(t, p, x), u, p[|tail|..]);
    PrefixSplit(tail, p);
  }

  /** ... and so does its argument slot, marked ... */
  lemma EncloseSlot(t: Node, p: Path, x: Name, u: nat)
    requires ValidPath(t, p) && p != [] && TargetCaller(t, p).Some?
    ensures var c := TargetCaller(t, p).value; var tail := TopmostLink(t, c); var r := Enclose(t, p, c, x, u, false).0;
      var e := TargetCallee(t, p).value;
      |tail| < |e| && ValidPath(r, tail + [0, 0, 0] + e[|tail|..]) && WasMacro(At(r, tail + [0, 0, 0] + e[|tail|..]))
  {
    var c := TargetCaller(t, p).value;
    var e := TargetCallee(t, p).value;
    var tail := TopmostLink(t, c);
    EncloseCall(t, p, x, u);
    MarkedAt(t, p, x, false);
    WrapBelow(Marked(t, p, x, false), tail, ParamNode(t, p, x), u, e[|tail|..]);
    PrefixSplit(tail, e);
  }

  /** ... and nothing beside the arrow changes. */
  lemma EncloseElsewhere(t: Node, p: Path, x: Name, u: nat)
    requires ValidPath(t, p) && p != [] && TargetCaller(t, p).Some?
    ensures var c := TargetCaller(t, p).value; var tail := TopmostLink(t, c); var r := Enclose(t, p, c, x, u, false).0;
      forall q | !IsPrefix(tail, q) && !IsPrefix(q, tail) :: At(r, q) == At(t, q)
  {
    var c := TargetCaller(t, p).value;
    var m := Marked(t, p, x, false);
    var tail := TopmostLink(t, c);
    EncloseCall(t, p, x, u);
    forall q | !IsPrefix(tail, q) && !IsPrefix(q, tail) ensures At(Enclose(t, p, c, x, u, false).0, q) == At(t, q) {
      BesideBelow(q, tail, p);
      MarkedElsewhere(t, p, x, false, q);
      WrapElsewhere(m, tail, ParamNode(t, p, x), u, q);
    }
  }

  /** The call case succeeds, takes one fresh name and records exactly one
      hoist target: the enclosing arrow when it replaced the call, else the call. */
  lemma CalledEffect(s: PState, p: Path)
    requires ValidPath(s.tree, p) && p != []
    ensures Called(s, p).Ok? <==> TargetCaller(s.tree, p).Some?
    ensures Called(s, p).Ok? ==> Called(s, p).value.next == s.next + 1
    ensures Called(s, p).Ok? ==>
      var c := TargetCaller(s.tree, p).value; var tail := TopmostLink(s.tree, c);
      Called(s, p).value.hoist == s.hoist + [if tail == c then Made(s.next) else At(s.tree, c).uid]
  {
    if TargetCaller(s.tree, p).Some? {
      EncloseArrow(s.tree, p, ArgName(s.next), s.next);
    }
  }

  /** Joining a closure above an assignment's placeholder: the id is in place
      and marked, and the closure gains the parameter as its last child. */
  lemma AssignedJoin(s: PState, p: Path, c: Path, w: Path)
    requires ValidPath(s.tree, p) && p != [] && Wrapper(s.tree, p, true) == Some(w)
    ensures var r := Assigned(s, p, c); var x := ArgName(s.next);
      r.next == s.next + 1 && r.hoist == s.hoist &&
      ValidPath(r.tree, p) && At(r.tree, p).kind == Identifier(x) && WasMacro(At(r.tree, p)) &&
      ValidPath(r.tree, w) && IsMarkedArrow(r.tree, w) &&
      |At(r.tree, w).kids| == |At(s.tree, w).kids| + 1 && At(r.tree, w).kids[|At(s.tree, w).kids|] == ParamNode(s.tree, p, x)
  {
    var x := ArgName(s.next);
    ReplaceEffect(s.tree, p, x);
    AppendParamEffect(Replace(s.tree, p, x), w, ParamNode(s.tree, p, x));
  }

  /** With no closure to join, an assignment's placeholder makes the topmost
      link above the target a marked one-parameter arrow, and records nothing. */
  lemma AssignedEnclose(s: PState, p: Path, c: Path)
    requires ValidPath(s.tree, p) && p != [] && Wrapper(s.tree, p, true).None?
    requires ValidPath(Marked(s.tree, p, ArgName(s.next), true), TopmostLink(Marked(s.tree, p, ArgName(s.next), true), c))
    ensures var r := Assigned(s, p, c); var tail := TopmostLink(Marked(s.tree, p, ArgName(s.next), true), c);
      r.next == s.next + 1 && r.hoist == s.hoist &&
      ValidPath(r.tree, tail) && IsMarkedArrow(r.tree, tail) && At(r.tree, tail).uid == Made(s.next) &&
      |At(r.tree, tail).kids| == 2 && At(r.tree, tail).kids[1] == ParamNode(s.tree, p, ArgName(s.next))
  {
    var x := ArgName(s.next);
    var m := Marked(s.tree, p, x, true);
    WrapAt(m, TopmostLink(m, c), ParamNode(s.tree, p, x), s.next);
  }

  /** How one placeholder ends: it fails exactly when it is neither an
      argument nor below an assignment target, and then with the placeholder
      message; otherwise it takes one fresh name, and it records a hoist
      target exactly when it is an argument with no closure to join and no
      assignment target, appending one target to those recorded. */
  lemma StepAtOutcome(s: PState, p: Path)
    requires p != []
    ensures StepAt(s, p).Err? <==> TargetCallee(s.tree, p).None? && TargetAssignment(s.tree, p).None?
    ensures StepAt(s, p).Err? ==> StepAt(s, p).error == PlaceholderMisplaced
    ensures StepAt(s, p).Ok? ==> StepAt(s, p).value.next == s.next + 1
    ensures StepAt(s, p).Ok? ==>
      (StepAt(s, p).value.hoist != s.hoist <==> Wrapper(s.tree, p, false).None? && TargetAssignment(s.tree, p).None?)
    ensures StepAt(s, p).Ok? && StepAt(s, p).value.hoist != s.hoist ==>
      |StepAt(s, p).value.hoist| == |s.hoist| + 1 && StepAt(s, p).value.hoist[..|s.hoist|] == s.hoist
  {
    var h := StepAt(s, p);
    if h.Ok? && Wrapper(s.tree, p, false).None? && TargetAssignment(s.tree, p).None? {
      assert h.value.hoist[..|s.hoist|] == s.hoist;
      assert |h.value.hoist| == |s.hoist| + 1;
    }
  }

  // ---------------------------------------------------------------- the loops

  /** A reference at the root fails with the placeholder message. */
  lemma StepAtRoot(s: PState)
    ensures Step(s, s.tree.uid) == Err(PlaceholderMisplaced)
  {
  }

  /** Running the references takes one fresh name per reference handled,
      and only ever appends hoist targets, at most one per reference. */
  lemma {:induction false} PlaceholderRefsGrow(s: PState, refs: seq<Uid>)
    ensures var r := PlaceholderRefs(s, refs).0;
      s.next <= r.next <= s.next + |refs| &&
      |s.hoist| <= |r.hoist| <= |s.hoist| + (r.next - s.next) && r.hoist[..|s.hoist|] == s.hoist
    decreases |refs|
  {
    if refs != [] {
      match Step(s, refs[0])
      case Err(_) =>
      case Ok(s1) =>
        assert s1.next <= s.next + 1 && |s1.hoist| <= |s.hoist| + (s1.next - s.next) && s1.hoist[..|s.hoist|] == s.hoist by {
          match Locate(s.tree, refs[0])
          case None =>
          case Some(q) =>
            if q != [] {
              StepAtOutcome(s, q);
            }
        }
        PlaceholderRefsGrow(s1, refs[1..]);
        var r := PlaceholderRefs(s1, refs[1..]).0;
        assert r.hoist[..|s.hoist|] == r.hoist[..|s1.hoist|][..|s.hoist|];
    }
  }

  /** The reference loop over `a + b` is the loop over `a`, then, if that
      did not fail, the loop over `b` from where it stopped. */
  lemma {:induction false} PlaceholderRefsAppend(s: PState, a: seq<Uid>, b: seq<Uid>)
    ensures PlaceholderRefs(s, a + b) ==
      var (s1, e) := PlaceholderRefs(s, a);
      if e.Some? then (s1, e) else PlaceholderRefs(s1, b)
    decreases |a|
  {
    if a != [] {
      assert (a + b)[0] == a[0];
      assert (a + b)[1..] == a[1..] + b;
      match Step(s, a[0])
      case Err(_) =>
      case Ok(s1) => PlaceholderRefsAppend(s1, a[1..], b);
    } else {
      assert a + b == b;
    }
  }

  /** The same for the hoisting loop. */
  lemma {:induction false} HoistAllAppend(t: Node, next: nat, a: seq<Uid>, b: seq<Uid>)
    ensures HoistAll(t, next, a + b) ==
      var (t1, n1, e) := HoistAll(t, next, a);
      if e.Some? then (t1, n1, e) else HoistAll(t1, n1, b)
    decreases |a|
  {
    if a != [] {
      assert (a + b)[0] == a[0];
      assert (a + b)[1..] == a[1..] + b;
      match HoistTarget(t, next, a[0])
      case Err(_) =>
      case Ok(r) => HoistAllAppend(r.0, r.1, a[1..], b);
    } else {
      assert a + b == b;
    }
  }
}
