/** The upward searches the transformers use to decide what to wrap: the
    argument slot a reference sits in, the call that owns it, the chain of
    member/operator/callee links above it, the declaration it initialises,
    and a closure the macro already produced around it. */
module Navigation {
  import opened Tree

  /** The failures a transformer raises. The first four are the macro's own
      errors; the last stands for an error the host throws (a method called on a
      missing path, or a statement parent looked for above the program). */
  datatype Error =
    | PlaceholderMisplaced
    | ImplicitMisplaced
    | LiftNotCalled
    | LiftArity
    | HostError(what: string)

  datatype Result<T> = Ok(value: T) | Err(error: Error)

  function Message(e: Error): string {
    match e
    case PlaceholderMisplaced =>
      "Placeholders must be used as function arguments or the\nright side of a variable declaration, ie. `const eq = _ === _`)"
    case ImplicitMisplaced =>
      "Implicit parameters must be used as function arguments or the\nright side of a variable declaration, ie. `const identity = it`)"
    case LiftNotCalled => "`lift` can only be used as a call expression"
    case LiftArity => "`lift` accepts a single expression as its only argument"
    case HostError(what) => what
  }

  /** A node the macro produced: a placeholder product or an implicit-parameter closure. */
  predicate WasMacro(n: Node) {
    n.meta.wasPlaceholder || n.meta.itName.Some?
  }

  // ---------------------------------------------------------------- argument slots

  predicate IsArgumentSlot(t: Node, q: Path) {
    ListKey(t, q) == Some(Arguments)
  }

  /** An argument slot is a child after the callee of a call or `new` expression. */
  lemma ArgumentSlotShape(t: Node, q: Path)
    ensures IsArgumentSlot(t, q) <==>
      q != [] && Last(q) >= 1 &&
      (At(t, Parent(q)).kind.CallExpression? || At(t, Parent(q)).kind.NewExpression?)
  {
  }

  /** `findTargetCallee`: the nearest ancestor-or-self that is an argument slot. */
  function TargetCallee(t: Node, p: Path): (r: Option<Path>)
    ensures r.Some? ==> IsPrefix(r.value, p) && IsArgumentSlot(t, r.value)
    ensures r.Some? ==> forall k | |r.value| < k <= |p| :: !IsArgumentSlot(t, p[..k])
    ensures r.None? ==> forall k | 0 <= k <= |p| :: !IsArgumentSlot(t, p[..k])
    decreases |p|
  {
    if IsArgumentSlot(t, p) then Some(p)
    else if p == [] then None
    else
      var r := TargetCallee(t, Parent(p));
      assert p[..|p|] == p;
      ParentSlices(p);
      r
  }

  /** An argument slot above `p` with none between is the one `findTargetCallee` finds. */
  lemma TargetCalleeUnique(t: Node, p: Path, q: Path)
    requires IsPrefix(q, p) && IsArgumentSlot(t, q)
    requires forall k | |q| < k <= |p| :: !IsArgumentSlot(t, p[..k])
    ensures TargetCallee(t, p) == Some(q)
  {
    assert p[..|q|] == q;
  }

  /** `findTargetCaller`: the call or `new` expression owning that slot. */
  function TargetCaller(t: Node, p: Path): (r: Option<Path>)
    ensures r.Some? <==> TargetCallee(t, p).Some?
    ensures r.Some? ==> IsPrefix(r.value, p) && |r.value| < |p| && p[|r.value|] >= 1
    ensures r.Some? ==> At(t, r.value).kind.CallExpression? || At(t, r.value).kind.NewExpression?
  {
    match TargetCallee(t, p)
    case None => None
    case Some(q) =>
      ArgumentSlotShape(t, q);
      assert p[|q| - 1] == Last(q);
      Some(Parent(q))
  }

  /** `isPipeline`: a `|>` expression, and `child` (when given) is its right operand. */
  predicate IsPipeline(t: Node, q: Path, child: Option<Path>) {
    At(t, q).kind == BinaryExpression("|>") && (child.None? || child.value == q + [1])
  }

  // ---------------------------------------------------------------- the generic upward walk

  /** What a walk predicate answers for a (parent, link) pair: `true` (stop here),
      another path (redirect), `false` (give up), nothing (keep climbing). */
  datatype Verdict = Stop | Redirect(to: Path) | Block | Continue

  type Pred = (Path, Path) -> Verdict

  /** The link at which the walk from `s` stops climbing: the first link whose
      verdict is not `Continue`, or the root. */
  function StopLink(s: Path, pred: Pred): (l: Path)
    ensures IsPrefix(l, s)
    ensures l == [] || pred(Parent(l), l) != Continue
    ensures forall k | |l| < k <= |s| :: pred(Parent(s[..k]), s[..k]) == Continue
    decreases |s|
  {
    if s == [] then s
    else if pred(Parent(s), s) != Continue then s
    else
      var l := StopLink(Parent(s), pred);
      assert s[..|s|] == s;
      ParentSlices(s);
      l
  }

  /** Two predicates that agree on every link of a walk stop it at the same link. */
  lemma {:induction false} StopLinkAgree(s: Path, p1: Pred, p2: Pred)
    requires forall k | 0 < k <= |s| :: p1(Parent(s[..k]), s[..k]) == p2(Parent(s[..k]), s[..k])
    ensures StopLink(s, p1) == StopLink(s, p2)
    decreases |s|
  {
    if s != [] {
      assert s[..|s|] == s;
      forall k | 0 < k <= |Parent(s)|
        ensures p1(Parent(Parent(s)[..k]), Parent(s)[..k]) == p2(Parent(Parent(s)[..k]), Parent(s)[..k])
      {
        assert Parent(s)[..k] == s[..k];
      }
      StopLinkAgree(Parent(s), p1, p2);
    }
  }

  /** A link whose verdict is not `Continue`, with every link below it
      continuing, is where the walk stops. */
  lemma StopLinkAt(s: Path, pred: Pred, l: Path)
    requires IsPrefix(l, s) && l != [] && pred(Parent(l), l) != Continue
    requires forall k | |l| < k <= |s| :: pred(Parent(s[..k]), s[..k]) == Continue
    ensures StopLink(s, pred) == l
  {
    var l' := StopLink(s, pred);
    assert |l'| >= |l| by {
      assert s[..|l|] == l;
    }
    assert |l'| <= |l| by {
      assert s[..|l'|] == l';
    }
  }

  /** `findParentUntil`: the result of the walk from `s`. */
  function ParentUntil(s: Path, pred: Pred, accumulate: bool): Option<Path> {
    var l := StopLink(s, pred);
    if l == [] then (if accumulate then Some(l) else None)
    else match pred(Parent(l), l)
      case Stop => Some(l)
      case Redirect(to) => Some(to)
      case Block => if accumulate then Some(l) else None
  }

  /** `findParentUntil` as the loop the source runs. */
  method FindParentUntil(s: Path, pred: Pred, accumulate: bool) returns (r: Option<Path>)
    ensures r == ParentUntil(s, pred, accumulate)
  {
    var link := s;
    while link != []
      invariant StopLink(link, pred) == StopLink(s, pred)
      decreases |link|
    {
      var parent := Parent(link);
      var result := pred(parent, link);
      if result == Stop {
        return Some(link);
      }
      if result.Redirect? {
        return Some(result.to);
      }
      if result == Block {
        break;
      }
      link := parent;
    }
    r := if accumulate then Some(link) else None;
  }

  /** Without `accumulate` a walk that reaches the root or is blocked finds
      nothing; with it, it yields the link it stopped at. */
  lemma ParentUntilBlocked(s: Path, pred: Pred, accumulate: bool)
    requires var l := StopLink(s, pred); l == [] || pred(Parent(l), l) == Block
    ensures ParentUntil(s, pred, accumulate) == (if accumulate then Some(StopLink(s, pred)) else None)
  {
  }

  // ---------------------------------------------------------------- findTopmostLink

  /** The links `findTopmostLink` climbs through: any member parent, a binary
      parent other than `|>`, a call of which the link is the callee, and a
      unary operator of which the link is the argument. */
  predicate IsChainLink(t: Node, parent: Path, link: Path) {
    var k := At(t, parent).kind;
    link != [] &&
    (k.MemberExpression? ||
     (k.BinaryExpression? && k.operator != "|>") ||
     (k.CallExpression? && SlotOf(k, Last(link)) == Field(Callee)) ||
     (k.UnaryExpression? && SlotOf(k, Last(link)) == Field(Argument)))
  }

  function ChainVerdict(t: Node, parent: Path, link: Path): Verdict {
    if IsChainLink(t, parent, link) then Continue else Block
  }

  function ChainPred(t: Node): Pred {
    (parent: Path, link: Path) => ChainVerdict(t, parent, link)
  }

  /** `findTopmostLink`: climb the chain from `s` as far as it goes. */
  function TopmostLink(t: Node, s: Path): (r: Path)
    ensures IsPrefix(r, s)
    ensures r == [] || !IsChainLink(t, Parent(r), r)
    ensures forall k | |r| < k <= |s| :: IsChainLink(t, Parent(s[..k]), s[..k])
  {
    var pred := ChainPred(t);
    var l := StopLink(s, pred);
    assert forall k | |l| < k <= |s| :: pred(Parent(s[..k]), s[..k]) == Continue;
    match ParentUntil(s, pred, true)
    case Some(r) => r
  }

  /** The chain depends only on the kinds of the nodes above the start. */
  lemma TopmostLinkKinds(t: Node, u: Node, s: Path)
    requires forall k | 0 <= k < |s| :: At(u, s[..k]).kind == At(t, s[..k]).kind
    ensures TopmostLink(u, s) == TopmostLink(t, s)
  {
    forall k | 0 < k <= |s|
      ensures ChainPred(t)(Parent(s[..k]), s[..k]) == ChainPred(u)(Parent(s[..k]), s[..k])
    {
      assert Parent(s[..k]) == s[..k - 1];
    }
    StopLinkAgree(s, ChainPred(t), ChainPred(u));
    var l := StopLink(s, ChainPred(t));
    if l != [] {
      assert l == s[..|l|];
      assert ChainPred(t)(Parent(l), l) == ChainPred(u)(Parent(l), l);
    }
  }

  // ---------------------------------------------------------------- findTargetAssignment

  function AssignVerdict(t: Node, parent: Path, link: Path): Verdict {
    if IsPipeline(t, parent, Some(link)) then Block
    else if At(t, parent).kind.CallExpression? then Block
    else if At(t, parent).kind.VariableDeclarator? then Redirect(parent + [1])
    else if At(t, parent).kind.AssignmentPattern? then Redirect(parent + [1])
    else Continue
  }

  /** A parent at which the search for an assignment target gives up. */
  predicate AssignBlocks(t: Node, parent: Path, link: Path) {
    IsPipeline(t, parent, Some(link)) || At(t, parent).kind.CallExpression?
  }

  /** A parent whose right-hand side is an assignment target. */
  predicate AssignsRight(t: Node, parent: Path) {
    At(t, parent).kind.VariableDeclarator? || At(t, parent).kind.AssignmentPattern?
  }

  /** `r` is the right-hand side of a declarator or default value met on the
      way up from `top`, with no call, no right side of a `|>` and no other
      assignment target between. */
  predicate IsAssignTarget(t: Node, top: Path, r: Path) {
    |r| >= 1 && Last(r) == 1 && AssignsRight(t, Parent(r)) &&
    IsPrefix(Parent(r), top) && |r| <= |top| &&
    !AssignBlocks(t, Parent(r), top[..|r|]) &&
    forall k | |r| < k <= |top| ::
      !AssignsRight(t, Parent(top[..k])) && !AssignBlocks(t, Parent(top[..k]), top[..k])
  }

  function AssignPred(t: Node): Pred {
    (parent: Path, link: Path) => AssignVerdict(t, parent, link)
  }

  /** `findTargetAssignment`: from the top of the chain above `p`, the nearest
      declarator `init` or default-value `right`, unless a call or the right
      side of a `|>` comes first. */
  function TargetAssignment(t: Node, p: Path): (r: Option<Path>)
    ensures r.Some? ==> IsAssignTarget(t, TopmostLink(t, p), r.value)
    ensures r.None? <==> var l := StopLink(TopmostLink(t, p), AssignPred(t));
      l == [] || AssignBlocks(t, Parent(l), l)
  {
    var top := TopmostLink(t, p);
    AssignWalk(t, top);
    ParentUntil(top, AssignPred(t), false)
  }

  /** The walk for an assignment target from `top`. */
  lemma AssignWalk(t: Node, top: Path)
    ensures var r := ParentUntil(top, AssignPred(t), false);
      r.Some? ==> IsAssignTarget(t, top, r.value)
    ensures var l := StopLink(top, AssignPred(t));
      ParentUntil(top, AssignPred(t), false).None? <==> l == [] || AssignBlocks(t, Parent(l), l)
  {
    var pred := AssignPred(t);
    var l := StopLink(top, pred);
    assert forall k | |l| < k <= |top| :: pred(Parent(top[..k]), top[..k]) == Continue;
  }

  /** A call, or the right side of a `|>`, met before any declarator or default
      value leaves no assignment target. */
  lemma AssignmentBlocked(t: Node, p: Path, k: nat)
    requires var top := TopmostLink(t, p);
      && 0 < k <= |top|
      && AssignBlocks(t, Parent(top[..k]), top[..k])
      && forall j | k < j <= |top| :: !AssignsRight(t, Parent(top[..j]))
    ensures TargetAssignment(t, p).None?
  {
    var top := TopmostLink(t, p);
    var l := StopLink(top, AssignPred(t));
    if |l| < k {
      assert AssignPred(t)(Parent(top[..k]), top[..k]) == Continue;
    } else {
      assert l == top[..|l|];
    }
  }

  // ---------------------------------------------------------------- findWrapper

  /** How many call expressions lie on the positions `s[..k]`, `lo <= k < |s|`. */
  function Calls(t: Node, s: Path, lo: nat): nat
    decreases |s| - lo
  {
    if lo >= |s| then 0
    else (if At(t, s[..lo]).kind.CallExpression? then 1 else 0) + Calls(t, s, lo + 1)
  }

  /** One step up counts the call at the new position, if it is one. */
  lemma CallsUp(t: Node, root: Path, child: Path)
    requires IsPrefix(child, root) && child != []
    ensures CallsFrom(t, root, Parent(child)) ==
      (if At(t, Parent(child)).kind.CallExpression? then 1 else 0) + CallsFrom(t, root, child)
  {
    assert Parent(child) == root[..|child| - 1];
  }

  /** The calls the walk from `root` has passed once it reaches `parent`, inclusive. */
  function CallsFrom(t: Node, root: Path, parent: Path): nat {
    Calls(t, root, |parent|)
  }

  predicate IsMarkedArrow(t: Node, q: Path) {
    At(t, q).kind.ArrowFunctionExpression? && WasMacro(At(t, q))
  }

  /** The pipeline-aware walk (`dist/util.js`): blocked by the right side of a
      `|>` and by the second call crossed; stops at a macro-marked arrow. */
  function WrapperVerdict(t: Node, root: Path, parent: Path, link: Path): Verdict {
    if IsPipeline(t, parent, Some(link)) ||
       (At(t, parent).kind.CallExpression? && CallsFrom(t, root, parent) > 1)
    then Block
    else if IsMarkedArrow(t, parent) then Redirect(parent)
    else Continue
  }

  /** The same walk without the pipeline rule (`src/util.js`). */
  function LoopWrapperVerdict(t: Node, root: Path, parent: Path, link: Path): Verdict {
    if At(t, parent).kind.CallExpression? && CallsFrom(t, root, parent) > 1 then Block
    else if IsMarkedArrow(t, parent) then Redirect(parent)
    else Continue
  }

  /** Where a wrapper search starts: the reference itself, or its argument slot. */
  function WrapperRoot(t: Node, p: Path, noCallee: bool): Option<Path> {
    if noCallee then Some(p) else TargetCallee(t, p)
  }

  /** The nearest macro-marked arrow above `root`, with at most one call crossed
      and, if `pipelines`, no right side of a `|>` left on the way. */
  predicate IsWrapperOf(t: Node, root: Path, w: Path, pipelines: bool) {
    IsPrefix(w, root) && w != root && IsMarkedArrow(t, w) && CallsFrom(t, root, w) <= 1 &&
    (pipelines ==> !IsPipeline(t, w, Some(root[..|w| + 1]))) &&
    forall k | |w| < k < |root| ::
      !IsMarkedArrow(t, root[..k]) && (pipelines ==> !IsPipeline(t, root[..k], Some(root[..k + 1])))
  }

  /** If every call on the way has been passed with at most one call counted,
      at most one call has been passed in all. */
  lemma {:induction false} CallsAtMostOne(t: Node, s: Path, lo: nat)
    requires forall k | lo <= k < |s| :: At(t, s[..k]).kind.CallExpression? ==> Calls(t, s, k) <= 1
    ensures Calls(t, s, lo) <= 1
    decreases |s| - lo
  {
    if lo < |s| && !At(t, s[..lo]).kind.CallExpression? {
      CallsAtMostOne(t, s, lo + 1);
    }
  }

  /** `findWrapper` of `dist/util.js`, used by the placeholder transformer. */
  function Wrapper(t: Node, p: Path, noCallee: bool): Option<Path> {
    match WrapperRoot(t, p, noCallee)
    case None => None
    case Some(root) => ParentUntil(root, (parent: Path, link: Path) => WrapperVerdict(t, root, parent, link), false)
  }

  /** A found wrapper is the nearest macro-marked arrow above the walk's root,
      with at most one call crossed and no `|>` right side left on the way. */
  lemma WrapperFound(t: Node, p: Path, noCallee: bool)
    ensures var r := Wrapper(t, p, noCallee);
      r.Some? ==> WrapperRoot(t, p, noCallee).Some? && IsWrapperOf(t, WrapperRoot(t, p, noCallee).value, r.value, true)
  {
    match WrapperRoot(t, p, noCallee)
    case None =>
    case Some(root) =>
      var pred := (parent: Path, link: Path) => WrapperVerdict(t, root, parent, link);
      if ParentUntil(root, pred, false).Some? {
        WrapperWalkFound(t, root, pred, true);
      }
  }

  lemma WrapperWalkFound(t: Node, root: Path, pred: Pred, pipelines: bool)
    requires forall parent: Path, link: Path ::
      pred(parent, link) == (if pipelines then WrapperVerdict(t, root, parent, link) else LoopWrapperVerdict(t, root, parent, link))
    requires ParentUntil(root, pred, false).Some?
    ensures IsWrapperOf(t, root, ParentUntil(root, pred, false).value, pipelines)
  {
    var l := StopLink(root, pred);
    var w := Parent(l);
    assert pred(w, l).Redirect?;
    assert ParentUntil(root, pred, false).value == w;
    assert l == root[..|w| + 1];
    forall k | |w| <= k < |root|
      ensures At(t, root[..k]).kind.CallExpression? ==> Calls(t, root, k) <= 1
    {
      assert pred(Parent(root[..k + 1]), root[..k + 1]) != Block;
      assert Parent(root[..k + 1]) == root[..k];
    }
    CallsAtMostOne(t, root, |w|);
    forall k | |w| < k < |root|
      ensures !IsMarkedArrow(t, root[..k]) && (pipelines ==> !IsPipeline(t, root[..k], Some(root[..k + 1])))
    {
      assert pred(Parent(root[..k + 1]), root[..k + 1]) == Continue;
      assert Parent(root[..k + 1]) == root[..k];
    }
  }

  /** Conversely, a macro-marked arrow that meets that description is the
      one found: a search that finds nothing means there is none. */
  lemma WrapperComplete(t: Node, p: Path, noCallee: bool, w: Path)
    requires WrapperRoot(t, p, noCallee).Some? && IsWrapperOf(t, WrapperRoot(t, p, noCallee).value, w, true)
    ensures Wrapper(t, p, noCallee) == Some(w)
  {
    var root := WrapperRoot(t, p, noCallee).value;
    var pred := (parent: Path, link: Path) => WrapperVerdict(t, root, parent, link);
    WrapperWalkComplete(t, root, pred, true, w);
  }

  /** The walk stops at the link just below a wrapper meeting the description. */
  lemma WrapperWalkComplete(t: Node, root: Path, pred: Pred, pipelines: bool, w: Path)
    requires forall parent: Path, link: Path ::
      pred(parent, link) == (if pipelines then WrapperVerdict(t, root, parent, link) else LoopWrapperVerdict(t, root, parent, link))
    requires IsWrapperOf(t, root, w, pipelines)
    ensures ParentUntil(root, pred, false) == Some(w)
  {
    var l := root[..|w| + 1];
    assert Parent(l) == w;
    assert pred(w, l) == Redirect(w);
    forall k | |l| < k <= |root|
      ensures pred(Parent(root[..k]), root[..k]) == Continue
    {
      assert Parent(root[..k]) == root[..k - 1];
      CallsFewer(t, root, |w|, k - 1);
      assert !IsMarkedArrow(t, root[..k - 1]);
      assert pipelines ==> !IsPipeline(t, root[..k - 1], Some(root[..k - 1 + 1]));
    }
    StopLinkAt(root, pred, l);
  }

  /** Fewer calls lie above a higher starting position. */
  lemma {:induction false} CallsFewer(t: Node, s: Path, lo: nat, hi: nat)
    requires lo <= hi
    ensures Calls(t, s, hi) <= Calls(t, s, lo)
    decreases hi - lo
  {
    if lo < hi {
      CallsFewer(t, s, lo + 1, hi);
    }
  }

  /** `findWrapper` of `src/util.js`: the loop that counts calls on the way up. */
  function LoopWrapper(t: Node, p: Path, noCallee: bool): Option<Path> {
    match WrapperRoot(t, p, noCallee)
    case None => None
    case Some(root) => ParentUntil(root, (parent: Path, link: Path) => LoopWrapperVerdict(t, root, parent, link), false)
  }

  /** The same description, without the pipeline rule. */
  lemma LoopWrapperFound(t: Node, p: Path, noCallee: bool)
    ensures var r := LoopWrapper(t, p, noCallee);
      r.Some? ==> WrapperRoot(t, p, noCallee).Some? && IsWrapperOf(t, WrapperRoot(t, p, noCallee).value, r.value, false)
  {
    match WrapperRoot(t, p, noCallee)
    case None =>
    case Some(root) =>
      var pred := (parent: Path, link: Path) => LoopWrapperVerdict(t, root, parent, link);
      if ParentUntil(root, pred, false).Some? {
        WrapperWalkFound(t, root, pred, false);
      }
  }

  /** Conversely, a qualifying arrow is the one found. */
  lemma LoopWrapperComplete(t: Node, p: Path, noCallee: bool, w: Path)
    requires WrapperRoot(t, p, noCallee).Some? && IsWrapperOf(t, WrapperRoot(t, p, noCallee).value, w, false)
    ensures LoopWrapper(t, p, noCallee) == Some(w)
  {
    var root := WrapperRoot(t, p, noCallee).value;
    var pred := (parent: Path, link: Path) => LoopWrapperVerdict(t, root, parent, link);
    WrapperWalkComplete(t, root, pred, false, w);
  }

  method FindWrapper(t: Node, p: Path, noCallee: bool) returns (r: Option<Path>)
    ensures r == LoopWrapper(t, p, noCallee)
  {
    var start := WrapperRoot(t, p, noCallee);
    if start.None? {
      return None;
    }
    var root := start.value;
    ghost var pred := (parent: Path, link: Path) => LoopWrapperVerdict(t, root, parent, link);
    var calls := 0;
    var link := root;
    while link != []
      invariant IsPrefix(link, root)
      invariant calls == CallsFrom(t, root, link)
      invariant StopLink(link, pred) == StopLink(root, pred)
      decreases |link|
    {
      ghost var child := link;
      link := Parent(link);
      assert link == root[..|link|];
      CallsUp(t, root, child);
      if At(t, link).kind.CallExpression? {
        calls := calls + 1;
      }
      if calls > 1 {
        assert StopLink(child, pred) == child;
        return None;
      }
      if At(t, link).kind.ArrowFunctionExpression? && WasMacro(At(t, link)) {
        assert StopLink(child, pred) == child;
        return Some(link);
      }
    }
    return None;
  }

  /** Where no `|>` right operand lies on the way up, both `findWrapper`s agree. */
  lemma {:induction false} WrappersAgree(t: Node, p: Path, noCallee: bool)
    requires WrapperRoot(t, p, noCallee).Some?
    requires var root := WrapperRoot(t, p, noCallee).value;
      forall k | 0 < k <= |root| :: !IsPipeline(t, Parent(root[..k]), Some(root[..k]))
    ensures Wrapper(t, p, noCallee) == LoopWrapper(t, p, noCallee)
  {
    var root := WrapperRoot(t, p, noCallee).value;
    var p1 := (parent: Path, link: Path) => WrapperVerdict(t, root, parent, link);
    var p2 := (parent: Path, link: Path) => LoopWrapperVerdict(t, root, parent, link);
    StopLinkAgree(root, p1, p2);
  }

  // ---------------------------------------------------------------- parameters and marks

  /** The name a parameter node binds. */
  function BoundName(param: Node): Option<Name>
    decreases param
  {
    match param.kind
    case Identifier(x) => Some(x)
    case RestElement => if |param.kids| == 1 then BoundName(param.kids[0]) else None
    case _ => None
  }

  /** `getParamNode`: the parameter for a placeholder at `p`, collecting the
      rest of the arguments when the placeholder is spread. */
  function ParamNode(t: Node, p: Path, x: Name): (r: Node)
    requires p != []
    ensures BoundName(r) == Some(x)
    ensures r.kind == RestElement <==> At(t, Parent(p)).kind == SpreadElement
  {
    if At(t, Parent(p)).kind == SpreadElement then Node(RestElement, [IdentNode(x)], NoMeta, Anon)
    else IdentNode(x)
  }

  /** `markPlaceholder`: set the placeholder mark of the position `p`. */
  function MarkPlaceholder(t: Node, p: Path): Node {
    Put(t, p, At(t, p).(meta := At(t, p).meta.(wasPlaceholder := true)))
  }

  /** Marking a position makes it count as macro-made and changes nothing else. */
  lemma MarkPlaceholderEffect(t: Node, p: Path)
    ensures ValidPath(t, p) ==> ValidPath(MarkPlaceholder(t, p), p) && WasMacro(At(MarkPlaceholder(t, p), p))
    ensures ValidPath(t, p) ==> At(MarkPlaceholder(t, p), p) == At(t, p).(meta := At(t, p).meta.(wasPlaceholder := true))
    ensures forall q | !IsPrefix(p, q) && !IsPrefix(q, p) :: At(MarkPlaceholder(t, p), q) == At(t, q)
    ensures forall q | ValidPath(t, p) && IsPrefix(p, q) && q != p ::
      At(MarkPlaceholder(t, p), q) == At(t, q) && (ValidPath(MarkPlaceholder(t, p), q) <==> ValidPath(t, q))
    ensures forall q | ValidPath(t, p) && IsPrefix(q, p) && q != p ::
      ValidPath(MarkPlaceholder(t, p), q) && SameHead(At(MarkPlaceholder(t, p), q), At(t, q))
  {
    MetaEdit(t, p, At(t, p).(meta := At(t, p).meta.(wasPlaceholder := true)));
  }

  /** Changing only the metadata at `p` changes nothing elsewhere. */
  lemma MetaEdit(t: Node, p: Path, m: Node)
    requires m.kids == At(t, p).kids
    ensures ValidPath(t, p) ==> ValidPath(Put(t, p, m), p) && At(Put(t, p, m), p) == m
    ensures forall q | !IsPrefix(p, q) && !IsPrefix(q, p) :: At(Put(t, p, m), q) == At(t, q)
    ensures forall q | ValidPath(t, p) && IsPrefix(p, q) && q != p ::
      At(Put(t, p, m), q) == At(t, q) && (ValidPath(Put(t, p, m), q) <==> ValidPath(t, q))
    ensures forall q | ValidPath(t, p) && IsPrefix(q, p) && q != p ::
      ValidPath(Put(t, p, m), q) && SameHead(At(Put(t, p, m), q), At(t, q))
  {
    if ValidPath(t, p) {
      PutAt(t, p, m);
    }
    forall q | !IsPrefix(p, q) && !IsPrefix(q, p) ensures At(Put(t, p, m), q) == At(t, q) {
      PutElsewhere(t, p, m, q);
    }
    forall q | ValidPath(t, p) && IsPrefix(p, q) && q != p
      ensures At(Put(t, p, m), q) == At(t, q) && (ValidPath(Put(t, p, m), q) <==> ValidPath(t, q))
    {
      PutSameKids(t, p, m, q);
    }
    forall q | ValidPath(t, p) && IsPrefix(q, p) && q != p
      ensures ValidPath(Put(t, p, m), q) && SameHead(At(Put(t, p, m), q), At(t, q))
    {
      PutAbove(t, p, m, q);
    }
  }

  /** Editing at `p` leaves every list key on the way up, and so the argument slot found from `p`, as it was. */
  lemma {:induction false} TargetCalleeAfterPut(t: Node, p: Path, n: Node, q: Path)
    requires ValidPath(t, p) && IsPrefix(q, p)
    ensures TargetCallee(Put(t, p, n), q) == TargetCallee(t, q)
    decreases |q|
  {
    if q != [] {
      PutAbove(t, p, n, Parent(q));
      TargetCalleeAfterPut(t, p, n, Parent(q));
    }
  }

  // ---------------------------------------------------------------- shouldHoist

  const NonHoistTypes: seq<string> :=
    ["Identifier", "ArrayExpression", "ObjectExpression", "FunctionExpression", "ArrowFunctionExpression"]

  /** The host's `isLiteral`: the literal node types and template literals. */
  predicate IsLiteral(k: Kind) {
    k.Literal? || k.TemplateLiteral?
  }

  predicate HasMacroArgs(n: Node) {
    n.kind.CallExpression? && exists i | 1 <= i < |n.kids| :: WasMacro(n.kids[i])
  }

  /** Whether an argument node would be pulled out into a `const`. */
  predicate Hoistable(n: Node) {
    !IsLiteral(n.kind) && TypeName(n.kind) !in NonHoistTypes && !WasMacro(n) && !HasMacroArgs(n)
  }

  /** `shouldHoist` on the argument at `p`, reading its argument slot and the
      slots of its own arguments; it depends on the argument node alone. */
  function ShouldHoist(t: Node, p: Path): (r: bool)
    requires ValidPath(t, p) && IsArgumentSlot(t, p)
    ensures r == Hoistable(At(t, p))
  {
    var n := At(t, p);
    var slot := TargetCallee(t, p);
    var hasMacroArgs := n.kind.CallExpression? &&
      exists i | 1 <= i < |n.kids| :: WasMacro(At(t, p + [i]));
    assert hasMacroArgs == HasMacroArgs(n) by {
      forall i | 1 <= i < |n.kids| ensures At(t, p + [i]) == n.kids[i] {
        AtSnoc(t, p, i);
      }
    }
    !IsLiteral(n.kind) && TypeName(n.kind) !in NonHoistTypes &&
    !WasMacro(At(t, slot.value)) && !hasMacroArgs
  }

  /** Literals and the five listed node types are never hoisted. */
  lemma NonHoistKinds(n: Node)
    requires IsLiteral(n.kind) || n.kind.Identifier? || n.kind.ArrayExpression? ||
      n.kind.ObjectExpression? || n.kind.FunctionExpression? || n.kind.ArrowFunctionExpression?
    ensures !Hoistable(n)
  {
  }

  /** A marked argument, and a call with a marked argument, are never hoisted. */
  lemma MacroNotHoisted(n: Node)
    requires WasMacro(n) || (n.kind.CallExpression? && exists i | 1 <= i < |n.kids| :: WasMacro(n.kids[i]))
    ensures !Hoistable(n)
  {
  }

  /** Calls, `new`, member and operator expressions that carry no macro mark are hoisted. */
  lemma EffectfulHoisted(n: Node)
    requires n.kind.CallExpression? || n.kind.NewExpression? || n.kind.MemberExpression? ||
      n.kind.BinaryExpression? || n.kind.AssignmentExpression? || n.kind.TaggedTemplateExpression?
    requires n.meta == NoMeta
    requires forall i | 1 <= i < |n.kids| :: n.kids[i].meta == NoMeta
    ensures Hoistable(n)
  {
  }

  // ---------------------------------------------------------------- statement and arrow ancestors

  /** A statement that sits in a list (the host's `getStatementParent` target). */
  predicate IsListStatement(t: Node, q: Path) {
    q != [] && IsStatement(At(t, q).kind) && SlotOf(At(t, Parent(q)).kind, Last(q)).Item?
  }

  /** `getStatementParent`: the nearest ancestor-or-self statement in a list;
      `None` where the host throws on reaching the program. */
  function StatementParent(t: Node, p: Path): (r: Option<Path>)
    ensures r.Some? ==> IsPrefix(r.value, p) && IsListStatement(t, r.value)
    ensures r.Some? ==> forall k | |r.value| < k <= |p| :: !IsListStatement(t, p[..k])
    ensures r.None? ==> forall k | 0 <= k <= |p| :: !IsListStatement(t, p[..k])
    decreases |p|
  {
    if IsListStatement(t, p) then Some(p)
    else if p == [] then None
    else
      var r := StatementParent(t, Parent(p));
      assert p[..|p|] == p;
      ParentSlices(p);
      r
  }

  /** `findParent(isArrowFunctionExpression)`: the nearest strict ancestor arrow. */
  function ArrowAbove(t: Node, p: Path): (r: Option<Path>)
    ensures r.Some? ==> IsPrefix(r.value, p) && r.value != p && At(t, r.value).kind.ArrowFunctionExpression?
    ensures r.Some? ==> forall k | |r.value| < k < |p| :: !At(t, p[..k]).kind.ArrowFunctionExpression?
    ensures r.None? ==> forall k | 0 <= k < |p| :: !At(t, p[..k]).kind.ArrowFunctionExpression?
    decreases |p|
  {
    if p == [] then None
    else if At(t, Parent(p)).kind.ArrowFunctionExpression? then Some(Parent(p))
    else
      var r := ArrowAbove(t, Parent(p));
      ParentSlices(p);
      r
  }
}
