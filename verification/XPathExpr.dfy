/** XPath expressions and what they evaluate to in a document. */
module XPathExpr {
  import opened Wrappers
  import opened DocumentOrder
  import opened XPathAxes
  import opened Translation

  /** A tree node by its number in document order, an attribute of one, or no node. */
  datatype XNode = TreeNode(i: nat) | AttrNode(owner: nat, k: nat) | NoNode

  datatype Type = NodeSetType | NumberType | StringType | BooleanType

  datatype Number = NaN | Infinite(negative: bool) | Finite(r: real)

  datatype Value = NodeSetV(s: set<XNode>) | NumberV(n: Number) | StringV(t: string) | BooleanV(b: bool)

  datatype Axis = Attribute | Child | Self | Descendant | DescendantOrSelf | OtherAxis(id: nat)

  datatype Test = NameTest(name: string) | AnyNode | OtherTest(id: nat)

  /** How a predicate is evaluated. */
  datatype Class = Default | PositionFree | Constant

  /** Call stands for every operator and function not listed; the only one that makes a node set is id(). */
  datatype Expr =
    | NumberConst(n: Number) | StringConst(s: string) | Variable(name: string, ty: Type)
    | Position | Last
    | Equal(l: Expr, r: Expr)
    | TranslateCall(arg: Expr, from: Expr, to: Expr)
    | Call(fn: string, ty: Type, args: seq<Expr>)
    | Root
    | Step(left: Option<Expr>, axis: Axis, test: Test, preds: seq<Pred>)
    | Filter(base: Expr, pred: Pred)
    | Union(l: Expr, r: Expr)
    | TranslateTable(arg: Expr, table: Table)
    | CompareAttribute(attr: string, value: Expr)

  datatype Pred = Pred(expr: Expr, mode: Class)

  /** The document and all that evaluation takes from outside; ordered lists a set in document order, raw in any order. */
  datatype World = World(doc: Numbering, attrs: nat -> seq<(string, string)>,
                         treeTest: (Test, nat) -> bool, attrTest: (Test, string) -> bool, reserved: string -> bool,
                         other: (nat, Test, XNode) -> seq<XNode>,
                         strval: XNode -> string, toNumber: string -> Number, toText: Number -> string,
                         vars: (string, Type) -> Value, call: (string, Type, seq<Value>) -> Value,
                         ordered: set<XNode> -> seq<XNode>, raw: set<XNode> -> seq<XNode>)

  datatype Context = Context(node: XNode, pos: nat, size: nat)

  function TypeOf(v: Value): Type {
    match v
    case NodeSetV(_) => NodeSetType
    case NumberV(_) => NumberType
    case StringV(_) => StringType
    case BooleanV(_) => BooleanType
  }

  ghost predicate Lists(s: set<XNode>, l: seq<XNode>) {
    forall x :: x in s <==> x in l
  }

  ghost predicate GoodWorld(w: World) {
    && Nested(w.doc)
    && (forall i :: w.treeTest(AnyNode, i))
    && (forall n, ty :: TypeOf(w.vars(n, ty)) == ty)
    && (forall f, ty, args :: TypeOf(w.call(f, ty, args)) == ty)
    && (forall s :: Lists(s, w.ordered(s)) && Lists(s, w.raw(s)))
  }

  // ----- conversions -----

  predicate NumberEqual(a: Number, b: Number) {
    a != NaN && a == b
  }

  ghost function ToBool(w: World, v: Value): bool {
    match v
    case NodeSetV(s) => s != {}
    case NumberV(n) => n != NaN && n != Finite(0.0)
    case StringV(t) => t != ""
    case BooleanV(b) => b
  }

  ghost function ToText(w: World, v: Value): string {
    match v
    case NodeSetV(s) => if s == {} then "" else w.strval(FirstOf(w.ordered(s)))
    case NumberV(n) => w.toText(n)
    case StringV(t) => t
    case BooleanV(b) => if b then "true" else "false"
  }

  function FirstOf(l: seq<XNode>): XNode {
    if l == [] then NoNode else l[0]
  }

  ghost function ToNumber(w: World, v: Value): Number {
    match v
    case NumberV(n) => n
    case BooleanV(b) => Finite(if b then 1.0 else 0.0)
    case _ => w.toNumber(ToText(w, v))
  }

  /** '=' on values: on node sets, some node must compare equal. */
  ghost function Compare(w: World, a: Value, b: Value): bool {
    if a.NodeSetV? && b.NodeSetV? then exists x, y :: x in a.s && y in b.s && w.strval(x) == w.strval(y)
    else if a.NodeSetV? then CompareSet(w, a.s, b)
    else if b.NodeSetV? then CompareSet(w, b.s, a)
    else if a.BooleanV? || b.BooleanV? then ToBool(w, a) == ToBool(w, b)
    else if a.NumberV? || b.NumberV? then NumberEqual(ToNumber(w, a), ToNumber(w, b))
    else a == b
  }

  ghost function CompareSet(w: World, s: set<XNode>, b: Value): bool {
    match b
    case BooleanV(v) => (s != {}) == v
    case NumberV(n) => exists x :: x in s && NumberEqual(w.toNumber(w.strval(x)), n)
    case StringV(t) => exists x :: x in s && w.strval(x) == t
    case NodeSetV(_) => false
  }

  // ----- steps -----

  ghost function TreeList(w: World, test: Test, s: seq<nat>): seq<XNode> {
    if s == [] then [] else
      TreeList(w, test, s[..|s| - 1]) + (if w.treeTest(test, s[|s| - 1]) then [TreeNode(s[|s| - 1])] else [])
  }

  ghost function ChildList(d: Numbering, i: nat, s: seq<nat>): seq<nat> {
    if s == [] then [] else
      ChildList(d, i, s[..|s| - 1]) + (if s[|s| - 1] < |d.up| && d.up[s[|s| - 1]] == i then [s[|s| - 1]] else [])
  }

  /** The place of the first attribute with the name. */
  ghost function AttrPlace(a: seq<(string, string)>, name: string, from: nat): Option<nat>
    decreases |a| - from
  {
    if from >= |a| then None else if a[from].0 == name then Some(from) else AttrPlace(a, name, from + 1)
  }

  ghost function AttrList(w: World, test: Test, i: nat, n: nat): seq<XNode> {
    var a := w.attrs(i);
    if n == 0 || n > |a| then [] else
      AttrList(w, test, i, n - 1) + (if w.attrTest(test, a[n - 1].0) && !w.reserved(a[n - 1].0) then [AttrNode(i, n - 1)] else [])
  }

  /** A named attribute step stops at the first attribute with that name. */
  ghost function AttributeStep(w: World, test: Test, i: nat): seq<XNode> {
    if test.NameTest? then
      var p := AttrPlace(w.attrs(i), test.name, 0);
      if p.Some? && !w.reserved(test.name) then [AttrNode(i, p.value)] else []
    else AttrList(w, test, i, |w.attrs(i)|)
  }

  /** The nodes an axis reaches from x that pass the test, in axis order. */
  ghost function StepList(w: World, axis: Axis, test: Test, x: XNode): seq<XNode> {
    if axis.OtherAxis? then w.other(axis.id, test, x)
    else match x
      case NoNode => []
      case AttrNode(_, _) => if (axis == Self || axis == DescendantOrSelf) && test == AnyNode then [x] else []
      case TreeNode(i) =>
        if i >= |w.doc.node| || i >= |w.doc.end| then []
        else match axis
          case Attribute => AttributeStep(w, test, i)
          case Child => TreeList(w, test, ChildList(w.doc, i, Range(i + 1, w.doc.end[i])))
          case Self => TreeList(w, test, [i])
          case Descendant => TreeList(w, test, Range(i + 1, w.doc.end[i]))
          case _ => TreeList(w, test, Range(i, w.doc.end[i]))
  }

  // ----- evaluation -----

  /** A number keeps the node at that position; anything else is taken as a condition. */
  ghost predicate Holds(w: World, v: Value, pos: nat) {
    if v.NumberV? then v.n == Finite(pos as real) else ToBool(w, v)
  }

  ghost function Eval(w: World, e: Expr, c: Context): Value
    decreases e, 3
  {
    match e
    case NumberConst(n) => NumberV(n)
    case StringConst(s) => StringV(s)
    case Variable(name, ty) => w.vars(name, ty)
    case Position => NumberV(Finite(c.pos as real))
    case Last => NumberV(Finite(c.size as real))
    case Equal(l, r) => BooleanV(Compare(w, Eval(w, l, c), Eval(w, r, c)))
    case TranslateCall(arg, from, to) =>
      StringV(Translate(ToText(w, Eval(w, arg, c)), ToText(w, Eval(w, from, c)), ToText(w, Eval(w, to, c))))
    case Call(fn, ty, args) => if ty == NodeSetType then NodeSetV({}) else w.call(fn, ty, EvalAll(w, args, c, |args|))
    case Root => NodeSetV({TreeNode(0)})
    case Step(left, axis, test, preds) =>
      var base := if left.None? then {c.node} else NodesOf(Eval(w, left.value, c));
      NodeSetV(set x, y | x in base && y in ApplyAll(w, StepList(w, axis, test, x), preds, |preds|) :: y)
    case Filter(base, pred) =>
      var s := NodesOf(Eval(w, base, c));
      var kept := Apply(w, if pred.mode == PositionFree then w.raw(s) else w.ordered(s), pred);
      NodeSetV(set y | y in kept)
    case Union(l, r) => NodeSetV(NodesOf(Eval(w, l, c)) + NodesOf(Eval(w, r, c)))
    case TranslateTable(arg, table) =>
      if IsTable(table) then StringV(UseTable(ToText(w, Eval(w, arg, c)), table)) else StringV("")
    case CompareAttribute(attr, value) => BooleanV(HasAttribute(w, c.node, attr, ToText(w, Eval(w, value, c))))
  }

  function NodesOf(v: Value): set<XNode> {
    if v.NodeSetV? then v.s else {}
  }

  /** The node's first attribute of that name has the value. */
  ghost function HasAttribute(w: World, x: XNode, name: string, value: string): bool {
    && x.TreeNode? && x.i < |w.doc.node| && x.i < |w.doc.end|
    && var p := AttrPlace(w.attrs(x.i), name, 0);
       p.Some? && w.strval(AttrNode(x.i, p.value)) == value && !w.reserved(name)
  }

  ghost function EvalAll(w: World, args: seq<Expr>, c: Context, n: nat): seq<Value>
    decreases args, 0, n
  {
    if n == 0 || n > |args| then [] else EvalAll(w, args, c, n - 1) + [Eval(w, args[n - 1], c)]
  }

  ghost function ApplyAll(w: World, l: seq<XNode>, preds: seq<Pred>, n: nat): seq<XNode>
    decreases preds, 0, n
  {
    if n == 0 || n > |preds| then l else Apply(w, ApplyAll(w, l, preds, n - 1), preds[n - 1])
  }

  ghost function Apply(w: World, l: seq<XNode>, p: Pred): seq<XNode>
    decreases p, 2
  {
    if p.mode == Constant then Pick(l, Eval(w, p.expr, Context(NoNode, 1, |l|)))
    else Keep(w, l, p.expr, |l|, |l|)
  }

  /** The nodes for which e holds, among the first n of a list of the given size. */
  ghost function Keep(w: World, l: seq<XNode>, e: Expr, size: nat, n: nat): seq<XNode>
    decreases e, 4, n
  {
    if n == 0 || n > |l| then [] else
      Keep(w, l, e, size, n - 1) + (if Holds(w, Eval(w, e, Context(l[n - 1], n, size)), n) then [l[n - 1]] else [])
  }

  /** The one node at a constant position. */
  ghost function Pick(l: seq<XNode>, v: Value): seq<XNode> {
    if v.NumberV? && v.n.Finite? && 1.0 <= v.n.r <= |l| as real && v.n.r.Floor as real == v.n.r then [l[v.n.r.Floor - 1]] else []
  }
}
