/** The host's syntax tree, as the macro sees it.

    A node has a kind (the host's node type), an ordered list of children, the
    metadata the macro attaches to it, and an identity.  A position in the tree
    is the list of child indices leading to it from the program root; what the
    host calls the `key` or `listKey` of a position is given by `SlotOf`. */
module Tree {

  datatype Option<+T> = None | Some(value: T)

  /** Identifier names: those written in the program, and those the host
      generates from a hint (`arg`, `it`, `ref`) and its fresh-name counter. */
  datatype Name = Src(text: string) | Gen(hint: string, n: nat)

  datatype LiteralType =
    | StringLiteral | NumericLiteral | BooleanLiteral | NullLiteral | RegExpLiteral | BigIntLiteral

  datatype Kind =
    | Program
    | ExpressionStatement
    | VariableDeclaration(declKind: string)
    | BlockStatement
    | ReturnStatement
    | OtherStatement(stmtType: string)
    | VariableDeclarator
    | Identifier(name: Name)
    | Literal(litType: LiteralType, raw: string)
    | TemplateLiteral
    | TaggedTemplateExpression
    | CallExpression
    | NewExpression
    | MemberExpression
    | BinaryExpression(operator: string)
    | UnaryExpression(unaryOperator: string)
    | AssignmentExpression(assignOperator: string)
    | AssignmentPattern
    | ArrowFunctionExpression
    | FunctionExpression
    | SpreadElement
    | RestElement
    | ArrayExpression
    | ObjectExpression
    | Hole                       // an absent child (`null` in the host tree)
    | OtherExpression(exprType: string)

  function LiteralTypeName(lt: LiteralType): string {
    match lt
    case StringLiteral => "StringLiteral"
    case NumericLiteral => "NumericLiteral"
    case BooleanLiteral => "BooleanLiteral"
    case NullLiteral => "NullLiteral"
    case RegExpLiteral => "RegExpLiteral"
    case BigIntLiteral => "BigIntLiteral"
  }

  /** The host's name for a node type, as compared against `nonHoistTypes`. */
  function TypeName(k: Kind): string {
    match k
    case Program => "Program"
    case ExpressionStatement => "ExpressionStatement"
    case VariableDeclaration(_) => "VariableDeclaration"
    case BlockStatement => "BlockStatement"
    case ReturnStatement => "ReturnStatement"
    case OtherStatement(s) => s
    case VariableDeclarator => "VariableDeclarator"
    case Identifier(_) => "Identifier"
    case Literal(lt, _) => LiteralTypeName(lt)
    case TemplateLiteral => "TemplateLiteral"
    case TaggedTemplateExpression => "TaggedTemplateExpression"
    case CallExpression => "CallExpression"
    case NewExpression => "NewExpression"
    case MemberExpression => "MemberExpression"
    case BinaryExpression(_) => "BinaryExpression"
    case UnaryExpression(_) => "UnaryExpression"
    case AssignmentExpression(_) => "AssignmentExpression"
    case AssignmentPattern => "AssignmentPattern"
    case ArrowFunctionExpression => "ArrowFunctionExpression"
    case FunctionExpression => "FunctionExpression"
    case SpreadElement => "SpreadElement"
    case RestElement => "RestElement"
    case ArrayExpression => "ArrayExpression"
    case ObjectExpression => "ObjectExpression"
    case Hole => "Hole"
    case OtherExpression(s) => s
  }

  /** The host's `Statement` alias, restricted to the kinds modelled here. */
  predicate IsStatement(k: Kind) {
    k.ExpressionStatement? || k.VariableDeclaration? || k.BlockStatement? ||
    k.ReturnStatement? || k.OtherStatement?
  }

  /** The out-of-band data the macro attaches to a position: the placeholder
      mark, and the implicit-parameter mark with the generated parameter name
      (the source always sets `it.wasTransformed` and `it.idName` together). */
  datatype Meta = Meta(wasPlaceholder: bool, itName: Option<Name>)

  const NoMeta: Meta := Meta(false, None)

  /** Node identity: nodes of the program carry the host's identity, closures
      built by the macro one drawn from the fresh counter, other built nodes none. */
  datatype Uid = Host(n: nat) | Made(n: nat) | Anon

  datatype Node = Node(kind: Kind, kids: seq<Node>, meta: Meta, uid: Uid)

  /** Where a child sits in its parent: a named field, or an element of a named list. */
  /** The host's names for the fields and lists a child can sit in. */
  datatype Key =
    | Callee | Arguments | Object | Property | Left | Right | Argument | Expression
    | Id | Init | Declarations | Body | Params | Elements | Properties | Expressions
    | Tag | Quasi | Children

  datatype Slot = Field(key: Key) | Item(listKey: Key, index: nat)

  /** The slot of child `i` of a node of kind `k`.  Functions keep their body
      first and their parameters after it. */
  function SlotOf(k: Kind, i: nat): Slot {
    match k
    case CallExpression => if i == 0 then Field(Callee) else Item(Arguments, i - 1)
    case NewExpression => if i == 0 then Field(Callee) else Item(Arguments, i - 1)
    case MemberExpression => if i == 0 then Field(Object) else Field(Property)
    case BinaryExpression(_) => if i == 0 then Field(Left) else Field(Right)
    case AssignmentExpression(_) => if i == 0 then Field(Left) else Field(Right)
    case AssignmentPattern => if i == 0 then Field(Left) else Field(Right)
    case UnaryExpression(_) => Field(Argument)
    case SpreadElement => Field(Argument)
    case RestElement => Field(Argument)
    case ReturnStatement => Field(Argument)
    case ExpressionStatement => Field(Expression)
    case VariableDeclarator => if i == 0 then Field(Id) else Field(Init)
    case VariableDeclaration(_) => Item(Declarations, i)
    case Program => Item(Body, i)
    case BlockStatement => Item(Body, i)
    case ArrowFunctionExpression => if i == 0 then Field(Body) else Item(Params, i - 1)
    case FunctionExpression => if i == 0 then Field(Body) else Item(Params, i - 1)
    case ArrayExpression => Item(Elements, i)
    case ObjectExpression => Item(Properties, i)
    case TemplateLiteral => Item(Expressions, i)
    case TaggedTemplateExpression => if i == 0 then Field(Tag) else Field(Quasi)
    case _ => Item(Children, i)
  }

  // ---------------------------------------------------------------- positions

  type Path = seq<nat>

  function Parent(p: Path): Path
    requires p != []
  {
    p[..|p| - 1]
  }

  function Last(p: Path): nat
    requires p != []
  {
    p[|p| - 1]
  }

  predicate IsPrefix(a: Path, b: Path) {
    |a| <= |b| && b[..|a|] == a
  }

  const HoleNode: Node := Node(Hole, [], NoMeta, Anon)

  predicate ValidPath(t: Node, p: Path)
    decreases |p|
  {
    p == [] || (p[0] < |t.kids| && ValidPath(t.kids[p[0]], p[1..]))
  }

  /** The node at position `p` (an absent child where the path leaves the tree). */
  function At(t: Node, p: Path): Node
    decreases |p|
  {
    if p == [] then t
    else if p[0] < |t.kids| then At(t.kids[p[0]], p[1..])
    else HoleNode
  }

  /** `t` with the node at `p` replaced by `n` (unchanged where `p` leaves the tree). */
  function Put(t: Node, p: Path, n: Node): Node
    decreases |p|
  {
    if p == [] then n
    else if p[0] < |t.kids| then t.(kids := t.kids[p[0] := Put(t.kids[p[0]], p[1..], n)])
    else t
  }

  /** The host's `key`/`listKey` of a position: the list it is an element of, if any. */
  function ListKey(t: Node, p: Path): Option<Key> {
    if p == [] then None
    else match SlotOf(At(t, Parent(p)).kind, Last(p))
      case Item(k, _) => Some(k)
      case Field(_) => None
  }

  /** `path.replaceWith(n)`: the host keeps the data of the position, so the
      replacement carries the metadata of the node it replaces. */
  function ReplaceWith(t: Node, p: Path, n: Node): Node {
    Put(t, p, n.(meta := At(t, p).meta))
  }

  /** Two nodes agree on everything but their children's contents. */
  predicate SameHead(a: Node, b: Node) {
    a.kind == b.kind && |a.kids| == |b.kids| && a.meta == b.meta && a.uid == b.uid
  }

  /** Two nodes agree on kind, number of children and identity (metadata aside). */
  predicate Keeps(a: Node, b: Node) {
    a.kind == b.kind && |a.kids| == |b.kids| && a.uid == b.uid
  }

  // ---------------------------------------------------------------- lemmas on positions

  lemma {:induction false} AtSnoc(t: Node, p: Path, i: nat)
    requires ValidPath(t, p)
    ensures At(t, p + [i]) == (if i < |At(t, p).kids| then At(t, p).kids[i] else HoleNode)
    ensures ValidPath(t, p + [i]) <==> i < |At(t, p).kids|
    decreases |p|
  {
    if p != [] {
      assert (p + [i])[0] == p[0];
      assert (p + [i])[1..] == p[1..] + [i];
      AtSnoc(t.kids[p[0]], p[1..], i);
    }
  }

  lemma {:induction false} AtParent(t: Node, p: Path)
    requires p != [] && ValidPath(t, p)
    ensures ValidPath(t, Parent(p))
    ensures Last(p) < |At(t, Parent(p)).kids|
    ensures At(t, p) == At(t, Parent(p)).kids[Last(p)]
  {
    PrefixValid(t, p, |p| - 1);
    assert Parent(p) + [Last(p)] == p;
    AtSnoc(t, Parent(p), Last(p));
  }

  lemma {:induction false} PrefixValid(t: Node, p: Path, n: nat)
    requires ValidPath(t, p) && n <= |p|
    ensures ValidPath(t, p[..n])
    decreases |p|
  {
    if n > 0 {
      assert p[..n][0] == p[0];
      assert p[..n][1..] == p[1..][..n - 1];
      PrefixValid(t.kids[p[0]], p[1..], n - 1);
    }
  }

  lemma {:induction false} AtAppend(t: Node, p: Path, q: Path)
    requires ValidPath(t, p)
    ensures At(t, p + q) == At(At(t, p), q)
    ensures ValidPath(t, p + q) <==> ValidPath(At(t, p), q)
    decreases |p|
  {
    if p == [] {
      assert p + q == q;
    } else {
      assert (p + q)[0] == p[0];
      assert (p + q)[1..] == p[1..] + q;
      AtAppend(t.kids[p[0]], p[1..], q);
    }
  }

  /** Replacing at `p` puts `n` there. */
  lemma {:induction false} PutAt(t: Node, p: Path, n: Node)
    requires ValidPath(t, p)
    ensures ValidPath(Put(t, p, n), p)
    ensures At(Put(t, p, n), p) == n
    decreases |p|
  {
    if p != [] {
      PutAt(t.kids[p[0]], p[1..], n);
    }
  }

  /** The positions above a parent are the positions above its child. */
  lemma ParentSlices(p: Path)
    requires p != []
    ensures forall k | 0 <= k < |p| :: Parent(p)[..k] == p[..k]
  {
  }

  lemma PrefixCons(p: Path, q: Path)
    requires p != [] && q != [] && p[0] == q[0]
    ensures IsPrefix(p, q) <==> IsPrefix(p[1..], q[1..])
  {
    if |p| <= |q| {
      assert q[..|p|] == [q[0]] + q[1..][..|p| - 1];
      assert p == [p[0]] + p[1..];
    }
  }

  /** A position beside `a` is beside everything below `a`. */
  lemma BesideBelow(q: Path, a: Path, p: Path)
    requires IsPrefix(a, p) && !IsPrefix(a, q) && !IsPrefix(q, a)
    ensures !IsPrefix(p, q) && !IsPrefix(q, p)
  {
    if IsPrefix(q, p) {
      PrefixesMeet(q, a, p);
    }
  }

  /** A position is its prefix followed by the rest. */
  lemma PrefixSplit(a: Path, p: Path)
    requires IsPrefix(a, p)
    ensures a + p[|a|..] == p
  {
  }

  /** Two positions above the same one lie one above the other. */
  lemma PrefixTrans(a: Path, b: Path, c: Path)
    requires IsPrefix(a, b) && IsPrefix(b, c)
    ensures IsPrefix(a, c)
  {
    assert c[..|a|] == c[..|b|][..|a|];
  }

  lemma PrefixesMeet(a: Path, b: Path, p: Path)
    requires IsPrefix(a, p) && IsPrefix(b, p)
    ensures IsPrefix(a, b) || IsPrefix(b, a)
  {
    if |a| <= |b| {
      assert b[..|a|] == p[..|b|][..|a|];
    } else {
      assert a[..|b|] == p[..|a|][..|b|];
    }
  }

  /** Replacing at `p` changes nothing at a position that is neither above nor below `p`. */
  lemma {:induction false} PutElsewhere(t: Node, p: Path, n: Node, q: Path)
    requires !IsPrefix(p, q) && !IsPrefix(q, p)
    ensures At(Put(t, p, n), q) == At(t, q)
    ensures ValidPath(Put(t, p, n), q) <==> ValidPath(t, q)
    decreases |p|
  {
    assert p != [] && q != [];
    if p[0] < |t.kids| && p[0] == q[0] {
      PrefixCons(p, q);
      PrefixCons(q, p);
      PutElsewhere(t.kids[p[0]], p[1..], n, q[1..]);
    }
  }

  /** Replacing at `p` keeps the nodes above `p` as they were, but for the child on the way down. */
  lemma {:induction false} PutAbove(t: Node, p: Path, n: Node, q: Path)
    requires ValidPath(t, p) && IsPrefix(q, p) && q != p
    ensures ValidPath(Put(t, p, n), q)
    ensures SameHead(At(Put(t, p, n), q), At(t, q))
    ensures forall j | 0 <= j < |At(t, q).kids| && j != p[|q|] ::
      At(Put(t, p, n), q).kids[j] == At(t, q).kids[j]
    decreases |q|
  {
    if q != [] {
      PutAbove(t.kids[p[0]], p[1..], n, q[1..]);
    }
  }

  /** Replacing at `p` puts `n`'s subtree below `p`. */
  lemma {:induction false} PutBelow(t: Node, p: Path, n: Node, r: Path)
    requires ValidPath(t, p)
    ensures At(Put(t, p, n), p + r) == At(n, r)
    ensures ValidPath(Put(t, p, n), p + r) <==> ValidPath(n, r)
  {
    PutAt(t, p, n);
    AtAppend(Put(t, p, n), p, r);
  }

  /** Putting back what is there changes nothing. */
  lemma {:induction false} PutSelf(t: Node, p: Path)
    requires ValidPath(t, p)
    ensures Put(t, p, At(t, p)) == t
    decreases |p|
  {
    if p != [] {
      PutSelf(t.kids[p[0]], p[1..]);
      assert t.kids[p[0] := t.kids[p[0]]] == t.kids;
    }
  }

  /** Replacing at `p` keeps every position that is not strictly below `p`. */
  lemma PutValid(t: Node, p: Path, n: Node, q: Path)
    requires ValidPath(t, p) && ValidPath(t, q)
    requires !IsPrefix(p, q) || p == q
    ensures ValidPath(Put(t, p, n), q)
  {
    if IsPrefix(q, p) {
      if q == p {
        PutAt(t, p, n);
      } else {
        PutAbove(t, p, n, q);
      }
    } else {
      PutElsewhere(t, p, n, q);
    }
  }

  /** Replacing a node by one with the same children changes nothing strictly below it. */
  lemma PutSameKids(t: Node, p: Path, n: Node, q: Path)
    requires ValidPath(t, p) && n.kids == At(t, p).kids
    requires IsPrefix(p, q) && q != p
    ensures At(Put(t, p, n), q) == At(t, q)
    ensures ValidPath(Put(t, p, n), q) <==> ValidPath(t, q)
  {
    var r := q[|p|..];
    assert q == p + r;
    PutBelow(t, p, n, r);
    AtAppend(t, p, r);
  }

  /** Appending children to a node changes nothing below its existing children. */
  lemma PutMoreKids(t: Node, p: Path, n: Node, q: Path)
    requires ValidPath(t, p) && |At(t, p).kids| <= |n.kids| && n.kids[..|At(t, p).kids|] == At(t, p).kids
    requires IsPrefix(p, q) && q != p && ValidPath(t, q)
    ensures ValidPath(Put(t, p, n), q) && At(Put(t, p, n), q) == At(t, q)
  {
    var r := q[|p|..];
    assert q == p + r;
    PutBelow(t, p, n, r);
    AtAppend(t, p, r);
    assert n.kids[r[0]] == At(t, p).kids[r[0]];
  }

  /** The list key of a position depends only on the node above it. */
  lemma ListKeyAbove(t: Node, u: Node, p: Path)
    requires p != []
    requires At(t, Parent(p)).kind == At(u, Parent(p)).kind
    ensures ListKey(t, p) == ListKey(u, p)
  {
  }

  // ---------------------------------------------------------------- identity search

  /** The first position, in pre-order, of the node with identity `u`. */
  function Locate(t: Node, u: Uid): (r: Option<Path>)
    ensures r.Some? ==> ValidPath(t, r.value) && At(t, r.value).uid == u
    decreases t, 1
  {
    if t.uid == u then Some([]) else LocateKids(t, 0, u)
  }

  function LocateKids(t: Node, i: nat, u: Uid): (r: Option<Path>)
    ensures r.Some? ==> ValidPath(t, r.value) && At(t, r.value).uid == u
    decreases t, 0, |t.kids| - i
  {
    if i >= |t.kids| then None
    else match Locate(t.kids[i], u)
      case Some(q) => Some([i] + q)
      case None => LocateKids(t, i + 1, u)
  }

  /** `a` comes no later than `b` in a pre-order walk: `a` is above `b`, or
      the two part at a child index where `a`'s is the smaller. */
  predicate NoLaterInPreOrder(a: Path, b: Path)
    decreases |a|
  {
    a == [] || (b != [] && (a[0] < b[0] || (a[0] == b[0] && NoLaterInPreOrder(a[1..], b[1..]))))
  }

  /** Every node with identity `u` is found, and what is found is the first
      such node in pre-order: a search that finds nothing means no node of
      the tree has that identity. */
  lemma {:induction false} LocateFirst(t: Node, u: Uid, q: Path)
    requires ValidPath(t, q) && At(t, q).uid == u
    ensures Locate(t, u).Some? && NoLaterInPreOrder(Locate(t, u).value, q)
    decreases t, 1
  {
    if t.uid != u {
      LocateKidsFirst(t, 0, u, q);
    }
  }

  lemma {:induction false} LocateKidsFirst(t: Node, i: nat, u: Uid, q: Path)
    requires ValidPath(t, q) && At(t, q).uid == u && q != [] && i <= q[0]
    ensures LocateKids(t, i, u).Some? && NoLaterInPreOrder(LocateKids(t, i, u).value, q)
    decreases t, 0, |t.kids| - i
  {
    match Locate(t.kids[i], u)
    case Some(q') =>
      if i == q[0] {
        LocateFirst(t.kids[i], u, q[1..]);
      }
      assert ([i] + q')[1..] == q';
    case None =>
      if i == q[0] {
        LocateFirst(t.kids[i], u, q[1..]);
      } else {
        LocateKidsFirst(t, i + 1, u, q);
      }
  }

  // ---------------------------------------------------------------- renaming

  /** Every identifier named `from` in the subtree, renamed to `to`. */
  function Rename(t: Node, from: Name, to: Name): (r: Node)
    ensures |r.kids| == |t.kids| && r.meta == t.meta && r.uid == t.uid
    ensures r.kind == (if t.kind == Identifier(from) then Identifier(to) else t.kind)
    ensures forall i | 0 <= i < |t.kids| :: r.kids[i] == Rename(t.kids[i], from, to)
  {
    Node(if t.kind == Identifier(from) then Identifier(to) else t.kind,
         seq(|t.kids|, i requires 0 <= i < |t.kids| => Rename(t.kids[i], from, to)),
         t.meta, t.uid)
  }

  /** Renaming keeps what kind of node it is, and so the slots of its children. */
  lemma RenameSlots(t: Node, from: Name, to: Name, i: nat)
    ensures SlotOf(Rename(t, from, to).kind, i) == SlotOf(t.kind, i)
  {
  }

  /** Whether an identifier named `x` occurs in the subtree. */
  predicate Occurs(t: Node, x: Name) {
    t.kind == Identifier(x) || exists i | 0 <= i < |t.kids| :: Occurs(t.kids[i], x)
  }

  /** After renaming, the old name is gone from the subtree. */
  lemma {:induction false} RenameRemoves(t: Node, from: Name, to: Name)
    requires from != to
    ensures !Occurs(Rename(t, from, to), from)
  {
    var r := Rename(t, from, to);
    forall i | 0 <= i < |r.kids| ensures !Occurs(r.kids[i], from) {
      RenameRemoves(t.kids[i], from, to);
    }
  }

  /** Every occurrence of the old name now reads the new one, at the same position. */
  lemma {:induction false} RenameAt(t: Node, from: Name, to: Name, p: Path)
    requires ValidPath(t, p)
    ensures ValidPath(Rename(t, from, to), p)
    ensures At(Rename(t, from, to), p) == Rename(At(t, p), from, to)
    decreases |p|
  {
    if p != [] {
      RenameAt(t.kids[p[0]], from, to, p[1..]);
    }
  }

  /** Renaming a name to itself changes nothing. */
  lemma {:induction false} RenameSame(t: Node, x: Name)
    ensures Rename(t, x, x) == t
  {
    var r := Rename(t, x, x);
    forall i | 0 <= i < |t.kids| ensures r.kids[i] == t.kids[i] {
      RenameSame(t.kids[i], x);
    }
    assert r.kids == t.kids;
  }

  // ---------------------------------------------------------------- node factory

  function IdentNode(x: Name): Node {
    Node(Identifier(x), [], NoMeta, Anon)
  }

  /** `(params) => { return body; }`; the body is moved under a new parent and so
      leaves its position's data behind. */
  function Closure(params: seq<Node>, body: Node, uid: Uid): (r: Node)
    ensures r.kind == ArrowFunctionExpression && |r.kids| == 1 + |params| && r.kids[1..] == params
    ensures r.meta == NoMeta && r.uid == uid
  {
    var ret := Node(ReturnStatement, [body.(meta := NoMeta)], NoMeta, Anon);
    Node(ArrowFunctionExpression, [Node(BlockStatement, [ret], NoMeta, Anon)] + params, NoMeta, uid)
  }

  /** The closure's `return` holds its body, without the body's old position data. */
  lemma ClosureReturn(params: seq<Node>, body: Node, uid: Uid, m: Meta)
    ensures ValidPath(Closure(params, body, uid).(meta := m), [0, 0, 0])
    ensures At(Closure(params, body, uid).(meta := m), [0, 0, 0]) == body.(meta := NoMeta)
  {
    var f := Closure(params, body, uid).(meta := m);
    assert [0, 0, 0][1..] == [0, 0] && [0, 0][1..] == [0] && [0][1..] == [];
    assert At(f.kids[0].kids[0], [0]) == body.(meta := NoMeta);
    assert ValidPath(f.kids[0].kids[0], [0]);
  }

  /** Below the closure's `{ return ... }` lies the subtree of its body. */
  lemma ClosureBody(params: seq<Node>, body: Node, uid: Uid, m: Meta, d: Path)
    requires d != []
    ensures At(Closure(params, body, uid).(meta := m), [0, 0, 0] + d) == At(body, d)
    ensures ValidPath(Closure(params, body, uid).(meta := m), [0, 0, 0] + d) <==> ValidPath(body, d)
  {
    var f := Closure(params, body, uid).(meta := m);
    var block := f.kids[0];
    var ret := block.kids[0];
    var b := ret.kids[0];
    assert b.kids == body.kids;
    assert ([0, 0, 0] + d)[1..] == [0, 0] + d;
    assert ([0, 0] + d)[1..] == [0] + d;
    assert ([0] + d)[1..] == d;
    assert At(ret, [0] + d) == At(b, d) == At(body, d);
    assert At(block, [0, 0] + d) == At(ret, [0] + d);
    assert ValidPath(ret, [0] + d) == ValidPath(b, d) == ValidPath(body, d);
    assert ValidPath(block, [0, 0] + d) == ValidPath(ret, [0] + d);
  }

  // ---------------------------------------------------------------- the host tree

  /** The host-owned tree the transformers edit in place, with the host's
      fresh-name counter. */
  class Ast {
    var root: Node
    var next: nat

    constructor (root: Node, next: nat)
      ensures this.root == root && this.next == next
    {
      this.root := root;
      this.next := next;
    }
  }
}
