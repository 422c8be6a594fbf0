/** Hoisting (`hoistArguments`): the arguments of a call the macro wrapped
    that would be evaluated on every call of the closure are pulled out into
    `const` bindings placed just before the enclosing statement, so that they
    are evaluated once. */
module Hoisting {
  import opened Tree
  import opened Navigation

  /** The fresh name of the `k`-th hoisted binding (`_ref`, `_ref2`, ...). */
  function RefName(k: nat): Name {
    Gen("ref", k)
  }

  /** `const x = init;` where `init` moves under the new declarator. */
  function ConstDecl(x: Name, init: Node): Node {
    var declarator := Node(VariableDeclarator, [IdentNode(x), init.(meta := NoMeta)], NoMeta, Anon);
    Node(VariableDeclaration("const"), [declarator], NoMeta, Anon)
  }

  function CountHoistable(args: seq<Node>): nat
    decreases |args|
  {
    if args == [] then 0
    else CountHoistable(args[..|args| - 1]) + (if Hoistable(args[|args| - 1]) then 1 else 0)
  }

  /** The outcome of treating the arguments in order: the new argument list,
      the declarations to insert, and the next fresh-name counter. */
  datatype Plan = Plan(args: seq<Node>, decls: seq<Node>, next: nat)

  /** Each hoistable argument, in order, becomes a fresh `_ref` identifier bound
      by a declaration of its own; the others are left as they are. */
  function PlanHoist(args: seq<Node>, next: nat): (r: Plan)
    ensures |r.args| == |args| && |r.decls| == CountHoistable(args) && r.next == next + |r.decls|
    decreases |args|
  {
    if args == [] then Plan([], [], next)
    else
      var pre := PlanHoist(args[..|args| - 1], next);
      var a := args[|args| - 1];
      if Hoistable(a) then
        Plan(pre.args + [IdentNode(RefName(pre.next))], pre.decls + [ConstDecl(RefName(pre.next), a)], pre.next + 1)
      else
        Plan(pre.args + [a], pre.decls, pre.next)
  }

  /** Each argument's fate in the plan: a hoistable one is replaced by the
      fresh identifier numbered by the hoistable arguments before it, and its
      original node is the initialiser of the declaration of the same number;
      any other argument is kept. */
  lemma {:induction false} PlanHoistArgs(args: seq<Node>, next: nat)
    ensures var r := PlanHoist(args, next);
      forall i | 0 <= i < |args| && !Hoistable(args[i]) :: r.args[i] == args[i]
    ensures var r := PlanHoist(args, next);
      forall i | 0 <= i < |args| && Hoistable(args[i]) ::
        CountHoistable(args[..i]) < |r.decls| &&
        r.args[i] == IdentNode(RefName(next + CountHoistable(args[..i]))) &&
        r.decls[CountHoistable(args[..i])] == ConstDecl(RefName(next + CountHoistable(args[..i])), args[i])
  {
    forall i | 0 <= i < |args| {
      PlanHoistAt(args, next, i);
    }
  }

  lemma {:induction false} PlanHoistAt(args: seq<Node>, next: nat, i: nat)
    requires i < |args|
    ensures var r := PlanHoist(args, next); var k := CountHoistable(args[..i]);
      && (!Hoistable(args[i]) ==> r.args[i] == args[i])
      && (Hoistable(args[i]) ==>
            k < |r.decls| && r.args[i] == IdentNode(RefName(next + k)) &&
            r.decls[k] == ConstDecl(RefName(next + k), args[i]))
    decreases |args|
  {
    var init := args[..|args| - 1];
    if i < |init| {
      PlanHoistAt(init, next, i);
      assert init[..i] == args[..i];
    } else {
      assert args[..i] == init;
    }
  }

  /** The declarations come in argument order: a later argument's binding
      follows an earlier one's. */
  lemma HoistOrder(args: seq<Node>, i: nat, j: nat)
    requires i < j < |args| && Hoistable(args[i]) && Hoistable(args[j])
    ensures CountHoistable(args[..i]) < CountHoistable(args[..j])
  {
    CountMonotone(args, i + 1, j);
    assert args[..i + 1][..i] == args[..i];
  }

  lemma {:induction false} CountMonotone(args: seq<Node>, i: nat, j: nat)
    requires i <= j <= |args|
    ensures CountHoistable(args[..i]) <= CountHoistable(args[..j])
    decreases j - i
  {
    if i < j {
      CountMonotone(args, i, j - 1);
      assert args[..j][..j - 1] == args[..j - 1];
    }
  }

  /** With nothing hoistable the plan changes nothing. */
  lemma {:induction false} PlanNothingHoistable(args: seq<Node>, next: nat)
    requires forall i | 0 <= i < |args| :: !Hoistable(args[i])
    ensures PlanHoist(args, next) == Plan(args, [], next)
    decreases |args|
  {
    if args != [] {
      PlanNothingHoistable(args[..|args| - 1], next);
      assert args[..|args| - 1] + [args[|args| - 1]] == args;
    }
  }

  // ---------------------------------------------------------------- insertBefore

  /** `insertBefore` on a statement in a list: `decls` go just before it. */
  function Insert(t: Node, q: Path, decls: seq<Node>): Node {
    if q == [] || !ValidPath(t, q) then t
    else
      AtParent(t, q);
      var par := At(t, Parent(q));
      var i := Last(q);
      Put(t, Parent(q), par.(kids := par.kids[..i] + decls + par.kids[i..]))
  }

  /** After an insertion the statement and all below it sit |decls| places further on. */
  lemma InsertShift(t: Node, q: Path, decls: seq<Node>, r: Path)
    requires q != [] && ValidPath(t, q)
    ensures At(Insert(t, q, decls), Parent(q) + [Last(q) + |decls|] + r) == At(t, q + r)
  {
    AtParent(t, q);
    var pp := Parent(q);
    var par := At(t, pp);
    var i := Last(q);
    var np := par.(kids := par.kids[..i] + decls + par.kids[i..]);
    assert Insert(t, q, decls) == Put(t, pp, np);
    assert pp + [i + |decls|] + r == pp + ([i + |decls|] + r);
    PutBelow(t, pp, np, [i + |decls|] + r);
    assert np.kids[i + |decls|] == par.kids[i] == At(t, q);
    assert At(np, [i + |decls|] + r) == At(At(t, q), r);
    AtAppend(t, q, r);
  }

  /** The list holding the statement gains exactly `decls`, just before it. */
  lemma InsertList(t: Node, q: Path, decls: seq<Node>)
    requires q != [] && ValidPath(t, q)
    ensures ValidPath(Insert(t, q, decls), Parent(q))
    ensures Last(q) < |At(t, Parent(q)).kids|
    ensures var i := Last(q); var old_kids := At(t, Parent(q)).kids;
      At(Insert(t, q, decls), Parent(q)).kids == old_kids[..i] + decls + old_kids[i..]
  {
    AtParent(t, q);
    var par := At(t, Parent(q));
    var i := Last(q);
    PutAt(t, Parent(q), par.(kids := par.kids[..i] + decls + par.kids[i..]));
  }

  // ---------------------------------------------------------------- hoistArguments

  predicate IsCallLike(n: Node) {
    n.kind.CallExpression? || n.kind.NewExpression?
  }

  /** A closure of the shape the macro builds: `(...) => { return e; ... }`. */
  predicate ClosureShape(t: Node, c: Path) {
    At(t, c + [0]).kind.BlockStatement? && |At(t, c + [0]).kids| >= 1 &&
    At(t, c + [0, 0]).kind.ReturnStatement? && |At(t, c + [0, 0]).kids| >= 1
  }

  /** Where the arguments of a hoist target are and where their bindings go. */
  datatype Site = NoArgs | Site(call: Path, upper: Path) | Crash(e: Error)

  /** A hoist target is a closure the macro built (its returned expression's
      arguments are hoisted before the closure's statement) or a call inside
      one (hoisted before the statement holding that closure). */
  function HoistSite(t: Node, c: Path): Site {
    var n := At(t, c);
    if n.kind.ArrowFunctionExpression? then
      if !ClosureShape(t, c) then Crash(HostError("closure body has no returned expression"))
      else match StatementParent(t, c)
        case None => Crash(HostError("File/Program node, we can't possibly find a statement parent to this"))
        case Some(u) =>
          var cp := c + [0, 0, 0];
          if IsCallLike(At(t, cp)) && |At(t, cp).kids| > 1 then Site(cp, u) else NoArgs
    else if n.kind.CallExpression? then
      match ArrowAbove(t, c)
      case None => Crash(HostError("no arrow function above the call"))
      case Some(a) =>
        match StatementParent(t, a)
        case None => Crash(HostError("File/Program node, we can't possibly find a statement parent to this"))
        case Some(u) => if |n.kids| > 1 then Site(c, u) else NoArgs
    else NoArgs
  }

  lemma SiteShape(t: Node, c: Path)
    requires ValidPath(t, c) && HoistSite(t, c).Site?
    ensures SiteFacts(t, c, HoistSite(t, c))
  {
    if At(t, c).kind.ArrowFunctionExpression? {
      ClosureSite(t, c);
    } else {
      CallSite(t, c);
    }
  }

  /** What a site at `c` satisfies: the call is at or below `c`, the
      statement list position above it, and the call has arguments. */
  predicate SiteFacts(t: Node, c: Path, s: Site)
    requires s.Site?
  {
    IsPrefix(c, s.call) && IsPrefix(s.upper, c) && s.upper != [] && s.upper != s.call &&
    IsListStatement(t, s.upper) && IsCallLike(At(t, s.call)) && |At(t, s.call).kids| > 1 &&
    ValidPath(t, s.call)
  }

  lemma ClosureSite(t: Node, c: Path)
    requires ValidPath(t, c) && At(t, c).kind.ArrowFunctionExpression? && HoistSite(t, c).Site?
    ensures SiteFacts(t, c, HoistSite(t, c))
  {
    assert HoistSite(t, c).upper != c;
    assert c + [0, 0, 0] == c + [0] + [0] + [0];
    AtSnoc(t, c, 0);
    AtSnoc(t, c + [0], 0);
    assert c + [0] + [0] == c + [0, 0];
    AtSnoc(t, c + [0] + [0], 0);
  }

  lemma CallSite(t: Node, c: Path)
    requires ValidPath(t, c) && !At(t, c).kind.ArrowFunctionExpression? && HoistSite(t, c).Site?
    ensures SiteFacts(t, c, HoistSite(t, c))
  {
  }

  /** The tree after hoisting the arguments at `cp` before the statement `u`. */
  function Commit(t: Node, cp: Path, u: Path, plan: Plan): Node
    requires |At(t, cp).kids| >= 1
  {
    var call := At(t, cp);
    Insert(Put(t, cp, call.(kids := [call.kids[0]] + plan.args)), u, plan.decls)
  }

  /** `hoistArguments` on the target at position `c`. */
  function Hoist(t: Node, next: nat, c: Path): Result<(Node, nat)>
    requires ValidPath(t, c)
  {
    match HoistSite(t, c)
    case NoArgs => Ok((t, next))
    case Crash(e) => Err(e)
    case Site(cp, u) =>
      SiteShape(t, c);
      var plan := PlanHoist(At(t, cp).kids[1..], next);
      Ok((Commit(t, cp, u, plan), plan.next))
  }

  /** `hoistArguments` on the target with identity `target`, wherever it now is. */
  function HoistTarget(t: Node, next: nat, target: Uid): Result<(Node, nat)> {
    match Locate(t, target)
    case None => Ok((t, next))
    case Some(c) => Hoist(t, next, c)
  }

  /** With no arguments (an empty list, or none at all) nothing changes. */
  lemma HoistNoArgs(t: Node, next: nat, c: Path)
    requires ValidPath(t, c)
    requires At(t, c).kind.ArrowFunctionExpression? ==> !IsCallLike(At(t, c + [0, 0, 0])) || |At(t, c + [0, 0, 0]).kids| <= 1
    requires At(t, c).kind.ArrowFunctionExpression? ==> ClosureShape(t, c) && StatementParent(t, c).Some?
    requires At(t, c).kind.CallExpression? ==>
      |At(t, c).kids| <= 1 && ArrowAbove(t, c).Some? && StatementParent(t, ArrowAbove(t, c).value).Some?
    ensures Hoist(t, next, c) == Ok((t, next))
  {
  }

  /** Hoisting at a site is the commit of the plan for the call's arguments. */
  lemma HoistCommits(t: Node, next: nat, c: Path)
    requires ValidPath(t, c) && HoistSite(t, c).Site?
    ensures var s := HoistSite(t, c);
      ValidPath(t, s.call) && |At(t, s.call).kids| >= 1 &&
      var plan := PlanHoist(At(t, s.call).kids[1..], next);
      Hoist(t, next, c) == Ok((Commit(t, s.call, s.upper, plan), plan.next)) &&
      plan.next == next + CountHoistable(At(t, s.call).kids[1..])
  {
    SiteShape(t, c);
  }

  /** Committing a plan inserts its declarations just before the upper
      statement `u`, in plan order, and keeps the rest of the list around it. */
  lemma CommitList(t: Node, cp: Path, u: Path, plan: Plan)
    requires ValidPath(t, cp) && |At(t, cp).kids| >= 1
    requires IsPrefix(u, cp) && u != [] && u != cp
    ensures var before := At(t, Parent(u)).kids;
      var after := At(Commit(t, cp, u, plan), Parent(u)).kids;
      var i := Last(u);
      var n := |plan.decls|;
      i < |before| && |after| == |before| + n &&
      after[..i] == before[..i] && after[i..i + n] == plan.decls && after[i + n + 1..] == before[i + 1..]
  {
    var call := At(t, cp);
    var newCall := call.(kids := [call.kids[0]] + plan.args);
    var t1 := Put(t, cp, newCall);
    PrefixValid(t, cp, |u|);
    assert cp[..|u|] == u;
    PutAbove(t, cp, newCall, u);
    PutAbove(t, cp, newCall, Parent(u));
    AtParent(t, u);
    AtParent(t1, u);
    InsertList(t1, u, plan.decls);
  }

  /** After the commit the call, |decls| places further down the list, has
      the plan's arguments after its callee. */
  lemma CommitMoved(t: Node, cp: Path, u: Path, plan: Plan)
    requires ValidPath(t, cp) && |At(t, cp).kids| >= 1
    requires IsPrefix(u, cp) && u != [] && u != cp
    ensures var call := At(t, cp);
      At(Commit(t, cp, u, plan), Parent(u) + [Last(u) + |plan.decls|] + cp[|u|..]) ==
        call.(kids := [call.kids[0]] + plan.args)
  {
    var call := At(t, cp);
    var newCall := call.(kids := [call.kids[0]] + plan.args);
    var t1 := Put(t, cp, newCall);
    PrefixValid(t, cp, |u|);
    assert cp[..|u|] == u;
    PutAbove(t, cp, newCall, u);
    InsertShift(t1, u, plan.decls, cp[|u|..]);
    assert u + cp[|u|..] == cp;
    PutAt(t, cp, newCall);
  }

  /** `hoistArguments` as the source runs it: the arguments are visited in
      order, each hoistable one getting the next fresh name; the declarations
      and replacements are then committed to the tree. */
  method HoistArguments(ast: Ast, target: Uid) returns (err: Option<Error>)
    modifies ast
    ensures match HoistTarget(old(ast.root), old(ast.next), target)
      case Ok(r) => err.None? && ast.root == r.0 && ast.next == r.1
      case Err(e) => err == Some(e) && ast.root == old(ast.root) && ast.next == old(ast.next)
  {
    var located := Locate(ast.root, target);
    if located.None? {
      return None;
    }
    var c := located.value;
    var site := HoistSite(ast.root, c);
    if site.Crash? {
      return Some(site.e);
    }
    if site.NoArgs? {
      return None;
    }
    SiteShape(ast.root, c);
    HoistCall(ast, site.call, site.upper);
    return None;
  }

  /** The plan for one more argument extends the plan for those before it. */
  lemma PlanHoistStep(args: seq<Node>, i: nat, next: nat)
    requires i < |args|
    ensures var pre := PlanHoist(args[..i], next);
      PlanHoist(args[..i + 1], next) ==
        if Hoistable(args[i]) then
          Plan(pre.args + [IdentNode(RefName(pre.next))], pre.decls + [ConstDecl(RefName(pre.next), args[i])], pre.next + 1)
        else Plan(pre.args + [args[i]], pre.decls, pre.next)
  {
    assert args[..i + 1][..i] == args[..i];
  }

  /** Every argument position of a call is an argument slot. */
  lemma CallArgument(t: Node, cp: Path, j: nat)
    requires ValidPath(t, cp) && IsCallLike(At(t, cp)) && 1 <= j < |At(t, cp).kids|
    ensures ValidPath(t, cp + [j]) && At(t, cp + [j]) == At(t, cp).kids[j] && IsArgumentSlot(t, cp + [j])
  {
    AtSnoc(t, cp, j);
    assert Parent(cp + [j]) == cp;
    ArgumentSlotShape(t, cp + [j]);
  }

  /** Lines 67-76: the arguments of the call at `cp` are visited in order,
      each hoistable one getting the next fresh name; the declarations go
      before the statement `u`. */
  method HoistCall(ast: Ast, cp: Path, u: Path)
    modifies ast
    requires ValidPath(ast.root, cp) && IsCallLike(At(ast.root, cp)) && |At(ast.root, cp).kids| >= 1
    ensures var plan := PlanHoist(At(old(ast.root), cp).kids[1..], old(ast.next));
      ast.root == Commit(old(ast.root), cp, u, plan) && ast.next == plan.next
  {
    var root, start := ast.root, ast.next;
    var args := At(root, cp).kids[1..];
    var newArgs: seq<Node> := [];
    var decls: seq<Node> := [];
    var next := start;
    for i := 0 to |args|
      invariant Plan(newArgs, decls, next) == PlanHoist(args[..i], start)
    {
      PlanHoistStep(args, i, start);
      CallArgument(root, cp, i + 1);
      var hoist := ShouldHoist(root, cp + [i + 1]);
      if hoist {
        var id := RefName(next);
        decls := decls + [ConstDecl(id, args[i])];
        newArgs := newArgs + [IdentNode(id)];
        next := next + 1;
      } else {
        newArgs := newArgs + [args[i]];
      }
    }
    assert args[..|args|] == args;
    ast.root := Commit(root, cp, u, Plan(newArgs, decls, next));
    ast.next := next;
  }
}
