/** Several placeholders among the arguments of one call make one closure:
    the first wraps the chain above the call, and each later one finds that
    closure and adds its parameter after the ones already there, so that
    `f(_, 1, _)` becomes `(_arg, _arg2) => { return f(_arg, 1, _arg2); }`. */
module SharedClosure {
  import opened Tree
  import opened Navigation
  import opened Placeholders

  /** A node a wrapper search from an argument passes without stopping or
      counting: not a call, not an arrow, not a `|>`. */
  predicate Plain(k: Kind) {
    !k.CallExpression? && !k.ArrowFunctionExpression? && k != BinaryExpression("|>")
  }

  /** The closure at `tail` is open to the arguments of the call (or `new`)
      at `c`: it is a marked arrow, `c` lies in its body, and only plain
      nodes lie between the two. */
  predicate JoinReady(t: Node, tail: Path, c: Path) {
    ValidPath(t, c) && IsPrefix(tail, c) && |tail| < |c| && c[|tail|] == 0 &&
    |At(t, tail).kids| > 0 && IsMarkedArrow(t, tail) && (At(t, c).kind.CallExpression? || At(t, c).kind.NewExpression?) &&
    forall k | |tail| < k < |c| :: Plain(At(t, c[..k]).kind)
  }

  /** The parameters `_argN`, ... for `m` placeholders numbered from `n`. */
  function Params(n: nat, m: nat): (r: seq<Node>)
    ensures |r| == m
    decreases m
  {
    if m == 0 then [] else [IdentNode(ArgName(n))] + Params(n + 1, m - 1)
  }

  lemma ParamsCons(n: nat, m: nat)
    requires m > 0
    ensures Params(n, m) == [IdentNode(ArgName(n))] + Params(n + 1, m - 1)
  {
    var a := Params(n, m);
    var b := [IdentNode(ArgName(n))] + Params(n + 1, m - 1);
    forall j | 0 <= j < m ensures a[j] == b[j] {
      if j > 0 {
        assert b[j] == Params(n + 1, m - 1)[j - 1];
        assert n + 1 + (j - 1) == n + j;
      }
    }
  }

  lemma ParamsChain(k0: seq<Node>, k1: seq<Node>, k2: seq<Node>, n: nat, m: nat, n': nat, m': nat)
    requires m > 0 && n' == n + 1 && m' == m - 1
    requires k1 == k0 + [IdentNode(ArgName(n))] && k2 == k1 + Params(n', m')
    ensures k2 == k0 + Params(n, m)
  {
    ParamsCons(n, m);
  }

  /** The argument slots `c[i]` for the indices `ix`, in order. */
  function Slots(c: Path, ix: seq<nat>): (r: seq<Path>)
    ensures |r| == |ix|
    ensures forall j | 0 <= j < |ix| :: r[j] == c + [ix[j]]
  {
    seq(|ix|, j requires 0 <= j < |ix| => c + [ix[j]])
  }

  /** Placeholders taken one after the other, by their positions at the time
      each is reached; the first failure stops the rest. */
  function StepsAt(s: PState, ps: seq<Path>): Result<PState>
    decreases |ps|
  {
    if ps == [] then Ok(s)
    else if ps[0] == [] then StepsAt(s, ps[1..])
    else match StepAt(s, ps[0])
      case Err(e) => Err(e)
      case Ok(s') => StepsAt(s', ps[1..])
  }

  /** Inside the closure built at `tail`: a block, its `return`, and under
      that the old node at `tail`, with its kind, size and identity. */
  lemma WrapInside(t: Node, tail: Path, param: Node, u: nat)
    requires ValidPath(t, tail)
    ensures var w := Wrap(t, tail, param, u);
      At(w, tail + [0]).kind == BlockStatement && At(w, tail + [0, 0]).kind == ReturnStatement &&
      ValidPath(w, tail + [0, 0, 0]) && Keeps(At(w, tail + [0, 0, 0]), At(t, tail))
  {
    var fn := Closure([param], At(t, tail), Made(u)).(meta := At(t, tail).meta);
    var t4 := Put(t, tail, fn);
    var m := At(t4, tail).(meta := At(t4, tail).meta.(wasPlaceholder := true));
    PutAt(t, tail, fn);
    PutSameKids(t4, tail, m, tail + [0]);
    PutSameKids(t4, tail, m, tail + [0, 0]);
    PutSameKids(t4, tail, m, tail + [0, 0, 0]);
    PutBelow(t, tail, fn, [0]);
    PutBelow(t, tail, fn, [0, 0]);
    PutBelow(t, tail, fn, [0, 0, 0]);
    ClosureReturn([param], At(t, tail), Made(u), At(t, tail).meta);
    assert [0][1..] == [] && [0, 0][1..] == [0];
    assert At(fn, [0]) == fn.kids[0];
    assert At(fn, [0, 0]) == fn.kids[0].kids[0];
  }

  /** A closure open to the call at `c` is the one every argument of `c`
      finds: the search from the slot crosses `c` as its only call. */
  lemma JoinFinds(t: Node, tail: Path, c: Path, i: nat)
    requires JoinReady(t, tail, c) && 1 <= i < |At(t, c).kids|
    ensures Wrapper(t, c + [i], false) == Some(tail)
  {
    var e := c + [i];
    assert Parent(e) == c && Last(e) == i;
    ArgumentSlotShape(t, e);
    assert WrapperRoot(t, e, false) == Some(e);
    assert e[..|c|] == c;
    forall k | |tail| <= k < |e| && At(t, e[..k]).kind.CallExpression?
      ensures Calls(t, e, k) <= 1
    {
      assert e[..k] == c[..k];
    }
    CallsAtMostOne(t, e, |tail|);
    forall k | |tail| < k < |e|
      ensures !IsMarkedArrow(t, e[..k]) && !IsPipeline(t, e[..k], Some(e[..k + 1]))
    {
      assert e[..k] == c[..k];
    }
    assert e[..|tail|] == tail;
    WrapperComplete(t, e, false, tail);
  }

  /** A later argument of that call joins the closure: one more fresh name,
      nothing recorded for hoisting, the closure stays open to the call, and
      its parameters so far are followed by the new one; the call's other
      arguments are untouched. */
  lemma JoinStep(s: PState, tail: Path, c: Path, i: nat) returns (r: PState)
    requires JoinReady(s.tree, tail, c) && 1 <= i < |At(s.tree, c).kids|
    ensures StepAt(s, c + [i]) == Ok(r)
    ensures r.next == s.next + 1 && r.hoist == s.hoist &&
      JoinReady(r.tree, tail, c) && |At(r.tree, c).kids| == |At(s.tree, c).kids| &&
      At(r.tree, tail).kids[1..] == At(s.tree, tail).kids[1..] + [IdentNode(ArgName(s.next))]
  {
    JoinFinds(s.tree, tail, c, i);
    r := PState(Reuse(s.tree, c + [i], tail, ArgName(s.next)), s.next + 1, s.hoist);
    JoinKeepsReady(s.tree, tail, c, i, ArgName(s.next));
    JoinAddsParam(s.tree, tail, c, i, ArgName(s.next));
  }

  lemma JoinKeepsReady(t: Node, tail: Path, c: Path, i: nat, x: Name)
    requires JoinReady(t, tail, c) && 1 <= i < |At(t, c).kids| && Wrapper(t, c + [i], false) == Some(tail)
    ensures JoinReady(Reuse(t, c + [i], tail, x), tail, c)
    ensures |At(Reuse(t, c + [i], tail, x), c).kids| == |At(t, c).kids|
  {
    var p := c + [i];
    var r := Reuse(t, p, tail, x);
    assert ValidPath(t, p) by {
      AtSnoc(t, c, i);
    }
    assert IsMarkedArrow(r, tail) && |At(r, tail).kids| > 0 by {
      ReuseEffect(t, p, tail, x);
    }
    assert forall q | IsPrefix(q, p) && q != p ::
      ValidPath(r, q) && At(r, q).kind == At(t, q).kind && (q != tail ==> |At(r, q).kids| == |At(t, q).kids|) by {
      ReuseFrame(t, p, tail, x);
    }
    SnocPrefix(c, i, |c|);
    forall k | |tail| < k < |c| ensures At(r, c[..k]).kind == At(t, c[..k]).kind {
      SnocPrefix(c, i, k);
    }
    ReadyKept(t, r, tail, c);
  }

  lemma SnocPrefix(c: Path, i: nat, k: nat)
    requires k <= |c|
    ensures IsPrefix(c[..k], c + [i]) && c[..k] != c + [i]
  {
    assert (c + [i])[..k] == c[..k];
  }

  /** Openness to the call depends only on the kinds on the way down and on
      the closure itself. */
  lemma ReadyKept(t: Node, r: Node, tail: Path, c: Path)
    requires JoinReady(t, tail, c) && ValidPath(r, c) && IsMarkedArrow(r, tail) && |At(r, tail).kids| > 0
    requires At(r, c).kind == At(t, c).kind
    requires forall k | |tail| < k < |c| :: At(r, c[..k]).kind == At(t, c[..k]).kind
    ensures JoinReady(r, tail, c)
  {
  }

  lemma JoinAddsParam(t: Node, tail: Path, c: Path, i: nat, x: Name)
    requires JoinReady(t, tail, c) && 1 <= i < |At(t, c).kids|
    ensures var w := At(Reuse(t, c + [i], tail, x), tail);
      |w.kids| == |At(t, tail).kids| + 1 && w.kids[1..] == At(t, tail).kids[1..] + [IdentNode(x)]
  {
    var p := c + [i];
    AtSnoc(t, c, i);
    assert Parent(p) == c && Last(p) == i;
    ArgumentSlotShape(t, p);
    assert ParamNode(t, p, x) == IdentNode(x);
    var t2 := MarkPlaceholder(ReplaceWith(t, p, IdentNode(x)), p);
    assert Reuse(t, p, tail, x) == AppendParam(t2, tail, IdentNode(x));
    PrefixValid(t, c, |tail|);
    assert c[..|tail|] == tail;
    SnocPrefix(c, i, |tail|);
    MarkedSlotAbove(t, p, p, x, tail);
    AppendParamEffect(t2, tail, IdentNode(x));
    forall j | 1 <= j < |At(t, tail).kids| ensures At(t2, tail).kids[j] == At(t, tail).kids[j] {
      var q := tail + [j];
      BodyBeside(tail, c, i, j);
      MarkedSlotElsewhere(t, p, p, x, q);
      AtSnoc(t, tail, j);
      AtSnoc(t2, tail, j);
    }
  }

  lemma JoinKeepsSiblings(t: Node, tail: Path, c: Path, i: nat, x: Name)
    requires JoinReady(t, tail, c) && 1 <= i < |At(t, c).kids| && Wrapper(t, c + [i], false) == Some(tail)
    ensures forall j | 1 <= j < |At(t, c).kids| && j != i :: At(Reuse(t, c + [i], tail, x), c + [j]) == At(t, c + [j])
  {
    var p := c + [i];
    var r := Reuse(t, p, tail, x);
    assert ValidPath(t, p) by {
      AtSnoc(t, c, i);
    }
    assert forall q | ValidPath(t, q) && !IsPrefix(p, q) && !IsPrefix(q, p) :: At(r, q) == At(t, q) by {
      ReuseFrame(t, p, tail, x);
    }
    forall j | 1 <= j < |At(t, c).kids| && j != i ensures At(r, c + [j]) == At(t, c + [j]) {
      SlotsBeside(c, i, j);
      AtSnoc(t, c, j);
    }
  }

  /** A parameter of the closure lies beside its body. */
  lemma BodyBeside(tail: Path, c: Path, i: nat, j: nat)
    requires IsPrefix(tail, c) && |tail| < |c| && c[|tail|] == 0 && j != 0
    ensures !IsPrefix(c + [i], tail + [j]) && !IsPrefix(tail + [j], c + [i])
  {
    assert (tail + [j])[|tail|] != (c + [i])[|tail|];
  }

  /** Two different slots of one node lie beside each other. */
  lemma SlotsBeside(c: Path, i: nat, j: nat)
    requires i != j
    ensures !IsPrefix(c + [i], c + [j]) && !IsPrefix(c + [j], c + [i])
  {
    assert (c + [i])[|c|] != (c + [j])[|c|];
  }

  /** Any number of later arguments of the call join the same closure, one
      step each, none of them recording anything for hoisting, and the
      closure stays open to the call. */
  lemma {:induction false} JoinAll(s: PState, tail: Path, c: Path, ix: seq<nat>)
    requires JoinReady(s.tree, tail, c)
    requires forall j | 0 <= j < |ix| :: 1 <= ix[j] < |At(s.tree, c).kids|
    ensures StepsAt(s, Slots(c, ix)).Ok?
    ensures var r := StepsAt(s, Slots(c, ix)).value;
      r.next == s.next + |ix| && r.hoist == s.hoist && JoinReady(r.tree, tail, c)
    decreases |ix|
  {
    if ix == [] {
      assert Slots(c, ix) == [];
    } else {
      var s' := JoinStep(s, tail, c, ix[0]);
      JoinAll(s', tail, c, ix[1..]);
      StepsAtSlots(s, s', c, ix);
    }
  }

  /** ... and the closure gains one parameter per argument, in order and
      numbered on from the counter. */
  lemma {:induction false} JoinAllParams(s: PState, tail: Path, c: Path, ix: seq<nat>)
    requires JoinReady(s.tree, tail, c)
    requires forall j | 0 <= j < |ix| :: 1 <= ix[j] < |At(s.tree, c).kids|
    ensures StepsAt(s, Slots(c, ix)).Ok?
    ensures var w := At(StepsAt(s, Slots(c, ix)).value.tree, tail);
      |w.kids| > 0 && w.kids[1..] == At(s.tree, tail).kids[1..] + Params(s.next, |ix|)
    decreases |ix|
  {
    JoinAll(s, tail, c, ix);
    if ix == [] {
      assert Slots(c, ix) == [];
    } else {
      var s' := JoinStep(s, tail, c, ix[0]);
      JoinAllParams(s', tail, c, ix[1..]);
      StepsAtSlots(s, s', c, ix);
      var r := StepsAt(s', Slots(c, ix[1..])).value;
      ParamsChain(At(s.tree, tail).kids[1..], At(s'.tree, tail).kids[1..], At(r.tree, tail).kids[1..],
        s.next, |ix|, s'.next, |ix[1..]|);
    }
  }

  lemma StepsAtSlots(s: PState, s': PState, c: Path, ix: seq<nat>)
    requires ix != [] && StepAt(s, c + [ix[0]]) == Ok(s')
    ensures StepsAt(s, Slots(c, ix)) == StepsAt(s', Slots(c, ix[1..]))
  {
    assert Slots(c, ix)[0] == c + [ix[0]];
    assert Slots(c, ix)[1..] == Slots(c, ix[1..]);
  }

  // ---------------------------------------------------------------- the first placeholder opens the closure

  /** Wrapping the node at `tail` into a closure moves the way down from
      `tail` to `c` below the closure's `return`; a block and a `return`
      come first, then the nodes that were there, with their kind, size and
      identity. */
  lemma WrapPlain(m: Node, tail: Path, c: Path, param: Node, u: nat, k: nat)
    requires IsPrefix(tail, c) && ValidPath(m, c) && |tail| < k < |c| + 3
    requires forall j | |tail| <= j < |c| :: Plain(At(m, c[..j]).kind)
    ensures Plain(At(Wrap(m, tail, param, u), (tail + [0, 0, 0] + c[|tail|..])[..k]).kind)
  {
    ShellPrefix(tail, c, k);
    PrefixValid(m, c, |tail|);
    assert c[..|tail|] == tail;
    if k <= |tail| + 3 {
      WrapInside(m, tail, param, u);
    } else {
      var d := c[|tail|..k - 3];
      assert tail + d == c[..k - 3];
      WrapBelow(m, tail, param, u, d);
    }
  }

  /** ... and the node at `c` itself, with its kind, size and identity. */
  lemma WrapKeeps(m: Node, tail: Path, c: Path, param: Node, u: nat)
    requires IsPrefix(tail, c) && ValidPath(m, c)
    ensures ValidPath(Wrap(m, tail, param, u), tail + [0, 0, 0] + c[|tail|..])
    ensures Keeps(At(Wrap(m, tail, param, u), tail + [0, 0, 0] + c[|tail|..]), At(m, c))
  {
    PrefixValid(m, c, |tail|);
    assert c[..|tail|] == tail;
    var d := c[|tail|..];
    assert tail + d == c;
    if d == [] {
      assert tail + [0, 0, 0] + d == tail + [0, 0, 0] && c == tail;
      WrapInside(m, tail, param, u);
    } else {
      WrapBelow(m, tail, param, u, d);
      assert ValidPath(m, tail + d);
    }
  }

  /** The chain between the topmost link and the call, before wrapping, is
      plain once the placeholder's id is in place, when no call lies on it. */
  lemma MarkedPlain(t: Node, p: Path, x: Name, j: nat)
    requires ValidPath(t, p) && p != [] && TargetCaller(t, p).Some?
    requires var c := TargetCaller(t, p).value;
      forall k | |TopmostLink(t, c)| <= k < |c| :: !At(t, c[..k]).kind.CallExpression?
    requires var c := TargetCaller(t, p).value; |TopmostLink(t, c)| <= j < |c|
    ensures Plain(At(Marked(t, p, x, false), TargetCaller(t, p).value[..j]).kind)
  {
    var c := TargetCaller(t, p).value;
    assert IsPrefix(c[..j], p) && c[..j] != p;
    MarkedAbove(t, p, x, false, c[..j]);
    assert IsChainLink(t, Parent(c[..j + 1]), c[..j + 1]);
    assert Parent(c[..j + 1]) == c[..j];
  }

  /** The way down from the closure to the call is plain. */
  lemma EnclosedPlain(t: Node, p: Path, x: Name, u: nat)
    requires ValidPath(t, p) && p != [] && TargetCaller(t, p).Some?
    requires var c := TargetCaller(t, p).value;
      forall k | |TopmostLink(t, c)| <= k < |c| :: !At(t, c[..k]).kind.CallExpression?
    ensures var c := TargetCaller(t, p).value; var tail := TopmostLink(t, c);
      var w := Enclose(t, p, c, x, u, false).0; var c' := tail + [0, 0, 0] + c[|tail|..];
      forall k | |tail| < k < |c'| :: Plain(At(w, c'[..k]).kind)
  {
    var c := TargetCaller(t, p).value;
    var tail := TopmostLink(t, c);
    var m := Marked(t, p, x, false);
    var param := ParamNode(t, p, x);
    var c' := tail + [0, 0, 0] + c[|tail|..];
    assert Enclose(t, p, c, x, u, false).0 == Wrap(m, tail, param, u) && IsPrefix(tail, c) && ValidPath(m, c) by {
      EncloseCall(t, p, x, u);
      MarkedAbove(t, p, x, false, c);
    }
    forall j | |tail| <= j < |c| ensures Plain(At(m, c[..j]).kind) {
      MarkedPlain(t, p, x, j);
    }
    forall k | |tail| < k < |c'| ensures Plain(At(Wrap(m, tail, param, u), c'[..k]).kind) {
      WrapPlain(m, tail, c, param, u, k);
    }
  }

  /** After the first placeholder of the call at `c` wraps the chain above
      it at `tail`, the closure is open to the call, now below its `return`,
      when no call lies on the chain between the two; the closure has the
      placeholder's parameter as its only one. */
  lemma EnclosedReady(t: Node, p: Path, x: Name, u: nat)
    requires ValidPath(t, p) && p != [] && TargetCaller(t, p).Some?
    requires var c := TargetCaller(t, p).value;
      forall k | |TopmostLink(t, c)| <= k < |c| :: !At(t, c[..k]).kind.CallExpression?
    ensures var c := TargetCaller(t, p).value; var tail := TopmostLink(t, c);
      var w := Enclose(t, p, c, x, u, false).0; var c' := tail + [0, 0, 0] + c[|tail|..];
      JoinReady(w, tail, c') && |At(w, c').kids| == |At(t, c).kids| &&
      At(w, tail).kids[1..] == [ParamNode(t, p, x)]
  {
    var c := TargetCaller(t, p).value;
    var tail := TopmostLink(t, c);
    var m := Marked(t, p, x, false);
    var param := ParamNode(t, p, x);
    var w := Enclose(t, p, c, x, u, false).0;
    var c' := tail + [0, 0, 0] + c[|tail|..];
    assert IsMarkedArrow(w, tail) && |At(w, tail).kids| == 2 && At(w, tail).kids[1] == param by {
      EncloseArrow(t, p, x, u);
    }
    assert w == Wrap(m, tail, param, u) && IsPrefix(tail, c) && ValidPath(m, c) && Keeps(At(m, c), At(t, c)) by {
      EncloseCall(t, p, x, u);
      MarkedAbove(t, p, x, false, c);
    }
    WrapKeeps(m, tail, c, param, u);
    EnclosedPlain(t, p, x, u);
    ShellShape(tail, c);
    OneParam(At(w, tail).kids, param);
  }

  lemma ShellShape(tail: Path, c: Path)
    requires |tail| <= |c|
    ensures IsPrefix(tail, tail + [0, 0, 0] + c[|tail|..]) && (tail + [0, 0, 0] + c[|tail|..])[|tail|] == 0
  {
    assert (tail + [0, 0, 0] + c[|tail|..])[..|tail|] == tail;
  }

  lemma OneParam(kids: seq<Node>, param: Node)
    requires |kids| == 2 && kids[1] == param
    ensures kids[1..] == [param]
  {
  }

  /** The positions on the way down to the call, once it is below the closure's `return`. */
  lemma ShellPrefix(tail: Path, c: Path, k: nat)
    requires |tail| <= |c| && |tail| < k <= |c| + 3
    ensures k == |tail| + 1 ==> (tail + [0, 0, 0] + c[|tail|..])[..k] == tail + [0]
    ensures k == |tail| + 2 ==> (tail + [0, 0, 0] + c[|tail|..])[..k] == tail + [0, 0]
    ensures k >= |tail| + 3 ==> (tail + [0, 0, 0] + c[|tail|..])[..k] == tail + [0, 0, 0] + c[|tail|..k - 3]
  {
  }

  /** ... and the call's other arguments are below the `return` as they were. */
  lemma EnclosedSiblings(t: Node, p: Path, x: Name, u: nat)
    requires ValidPath(t, p) && p != [] && TargetCaller(t, p).Some?
    ensures var c := TargetCaller(t, p).value; var tail := TopmostLink(t, c);
      var w := Enclose(t, p, c, x, u, false).0; var c' := tail + [0, 0, 0] + c[|tail|..];
      forall j | c + [j] != TargetCallee(t, p).value :: At(w, c' + [j]) == At(t, c + [j])
  {
    var c := TargetCaller(t, p).value;
    forall j | c + [j] != TargetCallee(t, p).value
      ensures At(Enclose(t, p, c, x, u, false).0, TopmostLink(t, c) + [0, 0, 0] + c[|TopmostLink(t, c)|..] + [j]) == At(t, c + [j])
    {
      EnclosedSibling(t, p, x, u, j);
    }
  }

  lemma EnclosedSibling(t: Node, p: Path, x: Name, u: nat, j: nat)
    requires ValidPath(t, p) && p != [] && TargetCaller(t, p).Some?
    requires TargetCaller(t, p).value + [j] != TargetCallee(t, p).value
    ensures var c := TargetCaller(t, p).value; var tail := TopmostLink(t, c);
      At(Enclose(t, p, c, x, u, false).0, tail + [0, 0, 0] + c[|tail|..] + [j]) == At(t, c + [j])
  {
    var c := TargetCaller(t, p).value;
    var tail := TopmostLink(t, c);
    var m := Marked(t, p, x, false);
    var param := ParamNode(t, p, x);
    assert Enclose(t, p, c, x, u, false).0 == Wrap(m, tail, param, u) && ValidPath(m, tail) && IsPrefix(tail, c) by {
      EncloseCall(t, p, x, u);
    }
    ShellSnoc(tail, c, j);
    WrapBelow(m, tail, param, u, c[|tail|..] + [j]);
    assert !IsPrefix(p, c + [j]) && !IsPrefix(c + [j], p) by {
      SiblingBeside(t, p, j);
    }
    MarkedElsewhere(t, p, x, false, c + [j]);
  }

  lemma ShellSnoc(tail: Path, c: Path, j: nat)
    requires IsPrefix(tail, c)
    ensures tail + [0, 0, 0] + c[|tail|..] + [j] == tail + [0, 0, 0] + (c[|tail|..] + [j])
    ensures tail + (c[|tail|..] + [j]) == c + [j]
  {
    assert c == tail + c[|tail|..];
  }

  /** Another argument slot of the placeholder's call lies beside it. */
  lemma SiblingBeside(t: Node, p: Path, j: nat)
    requires p != [] && TargetCaller(t, p).Some?
    requires TargetCaller(t, p).value + [j] != TargetCallee(t, p).value
    ensures var c := TargetCaller(t, p).value; !IsPrefix(p, c + [j]) && !IsPrefix(c + [j], p)
  {
    var c := TargetCaller(t, p).value;
    var e := TargetCallee(t, p).value;
    assert Parent(e) == c;
    assert e == c + [e[|c|]];
    assert p[..|e|] == e;
  }

  // ---------------------------------------------------------------- the placeholders of one call

  /** The first placeholder argument of the call at `c`, with no closure to
      join and no assignment target, wraps the chain above `c` at `tail`: one
      fresh name, one hoist target, and a closure with the placeholder's
      parameter as its only one, open to the call now below its `return`. */
  lemma FirstEncloses(s: PState, p: Path) returns (r: PState)
    requires ValidPath(s.tree, p) && p != [] && Wrapper(s.tree, p, false).None? && TargetAssignment(s.tree, p).None?
    requires TargetCaller(s.tree, p).Some?
    requires var c := TargetCaller(s.tree, p).value;
      forall k | |TopmostLink(s.tree, c)| <= k < |c| :: !At(s.tree, c[..k]).kind.CallExpression?
    ensures StepAt(s, p) == Ok(r)
    ensures var c := TargetCaller(s.tree, p).value; var tail := TopmostLink(s.tree, c);
      var c' := tail + [0, 0, 0] + c[|tail|..];
      r.next == s.next + 1 && r.hoist == s.hoist + [if tail == c then Made(s.next) else At(s.tree, c).uid] &&
      JoinReady(r.tree, tail, c') && |At(r.tree, c').kids| == |At(s.tree, c).kids| &&
      At(r.tree, tail).kids[1..] == [ParamNode(s.tree, p, ArgName(s.next))]
  {
    var c := TargetCaller(s.tree, p).value;
    var e := Enclose(s.tree, p, c, ArgName(s.next), s.next, false);
    r := PState(e.0, s.next + 1, s.hoist + [e.1]);
    StepAtCalled(s, p);
    EncloseArrow(s.tree, p, ArgName(s.next), s.next);
    EnclosedReady(s.tree, p, ArgName(s.next), s.next);
  }

  /** With no closure to join and no assignment target, a placeholder
      takes the call case. */
  lemma StepAtCalled(s: PState, p: Path)
    requires p != [] && Wrapper(s.tree, p, false).None? && TargetAssignment(s.tree, p).None?
    requires TargetCaller(s.tree, p).Some?
    ensures var e := Enclose(s.tree, p, TargetCaller(s.tree, p).value, ArgName(s.next), s.next, false);
      StepAt(s, p) == Ok(PState(e.0, s.next + 1, s.hoist + [e.1]))
  {
    StepAtUnwrapped(s, p);
    UnwrappedCalled(s, p);
    CalledOk(s, p);
  }

  lemma UnwrappedCalled(s: PState, p: Path)
    requires p != [] && TargetAssignment(s.tree, p).None?
    ensures Unwrapped(s, p) == Called(s, p)
  {
  }

  lemma CalledOk(s: PState, p: Path)
    requires p != [] && TargetCaller(s.tree, p).Some?
    ensures var e := Enclose(s.tree, p, TargetCaller(s.tree, p).value, ArgName(s.next), s.next, false);
      Called(s, p) == Ok(PState(e.0, s.next + 1, s.hoist + [e.1]))
  {
  }

  /** `f(_, 1, _, 2, _)`: the first placeholder argument of a call builds the
      closure and each later argument, taken in turn, adds its parameter, so
      that the one closure has a parameter per placeholder, in argument
      order, named from consecutive counter values, and only the first
      records a hoist target. */
  lemma PlaceholdersShareClosure(s: PState, p: Path, ix: seq<nat>)
    requires ValidPath(s.tree, p) && p != [] && Wrapper(s.tree, p, false).None? && TargetAssignment(s.tree, p).None?
    requires TargetCaller(s.tree, p).Some?
    requires var c := TargetCaller(s.tree, p).value;
      forall k | |TopmostLink(s.tree, c)| <= k < |c| :: !At(s.tree, c[..k]).kind.CallExpression?
    requires var c := TargetCaller(s.tree, p).value;
      forall j | 0 <= j < |ix| :: 1 <= ix[j] < |At(s.tree, c).kids|
    ensures var c := TargetCaller(s.tree, p).value; var tail := TopmostLink(s.tree, c);
      var c' := tail + [0, 0, 0] + c[|tail|..];
      StepsAt(s, [p] + Slots(c', ix)).Ok?
    ensures var c := TargetCaller(s.tree, p).value; var tail := TopmostLink(s.tree, c);
      var c' := tail + [0, 0, 0] + c[|tail|..]; var r := StepsAt(s, [p] + Slots(c', ix)).value;
      r.next == s.next + 1 + |ix| && r.hoist == s.hoist + [if tail == c then Made(s.next) else At(s.tree, c).uid] &&
      IsMarkedArrow(r.tree, tail) && |At(r.tree, tail).kids| > 0 &&
      At(r.tree, tail).kids[1..] == [ParamNode(s.tree, p, ArgName(s.next))] + Params(s.next + 1, |ix|)
  {
    var c := TargetCaller(s.tree, p).value;
    var tail := TopmostLink(s.tree, c);
    var c' := tail + [0, 0, 0] + c[|tail|..];
    var s1 := FirstEncloses(s, p);
    JoinAll(s1, tail, c', ix);
    JoinAllParams(s1, tail, c', ix);
    assert StepsAt(s, [p] + Slots(c', ix)) == StepsAt(s1, Slots(c', ix)) by {
      assert ([p] + Slots(c', ix))[0] == p;
      assert ([p] + Slots(c', ix))[1..] == Slots(c', ix);
    }
  }
}
