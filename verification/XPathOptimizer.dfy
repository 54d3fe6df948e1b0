/** The query optimizer, and that no rewrite changes what a query means. */
module XPathOptimizer {
  import opened Wrappers
  import opened DocumentOrder
  import opened XPathAxes
  import opened Translation
  import opened XPathExpr

  function RetType(e: Expr): Type {
    match e
    case NumberConst(_) => NumberType
    case StringConst(_) => StringType
    case Variable(_, ty) => ty
    case Position => NumberType
    case Last => NumberType
    case Equal(_, _) => BooleanType
    case TranslateCall(_, _, _) => StringType
    case Call(_, ty, _) => ty
    case Root => NodeSetType
    case Step(_, _, _, _) => NodeSetType
    case Filter(_, _) => NodeSetType
    case Union(_, _) => NodeSetType
    case TranslateTable(_, _) => StringType
    case CompareAttribute(_, _) => BooleanType
  }

  /** What the parser guarantees: steps, filters and unions stand on node sets, and nothing is classified or rewritten yet. */
  predicate WellFormed(e: Expr) {
    match e
    case Equal(l, r) => WellFormed(l) && WellFormed(r)
    case TranslateCall(arg, from, to) =>
      WellFormed(arg) && WellFormed(from) && WellFormed(to)
      && (from.StringConst? ==> '\0' !in from.s) && (to.StringConst? ==> '\0' !in to.s)
    case Call(_, _, args) => forall k :: 0 <= k < |args| ==> WellFormed(args[k])
    case Step(left, _, _, preds) =>
      && (left.Some? ==> WellFormed(left.value) && RetType(left.value) == NodeSetType)
      && (forall k :: 0 <= k < |preds| ==> preds[k].mode == Default && WellFormed(preds[k].expr))
    case Filter(base, pred) => WellFormed(base) && RetType(base) == NodeSetType && pred.mode == Default && WellFormed(pred.expr)
    case Union(l, r) => WellFormed(l) && WellFormed(r) && RetType(l) == NodeSetType && RetType(r) == NodeSetType
    case TranslateTable(_, _) => false
    case CompareAttribute(_, _) => false
    case _ => true
  }

  // ----- the optimizer -----

  /** Whether the value cannot depend on the position or size of the context. */
  predicate IsPositionFree(e: Expr) {
    match e
    case Position => false
    case Last => false
    case NumberConst(_) => true
    case StringConst(_) => true
    case Variable(_, _) => true
    case Root => true
    case Step(_, _, _, _) => true
    case Filter(_, _) => true
    case Equal(l, r) => IsPositionFree(l) && IsPositionFree(r)
    case TranslateCall(arg, from, to) => IsPositionFree(arg) && IsPositionFree(from) && IsPositionFree(to)
    case Call(_, _, args) => forall k :: 0 <= k < |args| ==> IsPositionFree(args[k])
    case Union(l, r) => IsPositionFree(l) && IsPositionFree(r)
    case TranslateTable(arg, _) => IsPositionFree(arg)
    case CompareAttribute(_, value) => IsPositionFree(value)
  }

  /** [position()=e] becomes [e]. */
  function DropPosition(e: Expr): Expr {
    if e.Equal? && e.l.Position? && RetType(e.r) == NumberType then e.r else e
  }

  function Classify(e: Expr): Class {
    if RetType(e) == NumberType && (e.NumberConst? || e.Variable? || e.Last?) then Constant
    else if RetType(e) != NumberType && IsPositionFree(e) then PositionFree
    else Default
  }

  function OptimizePred(e: Expr): Pred {
    Pred(DropPosition(e), Classify(DropPosition(e)))
  }

  predicate Mergeable(axis: Axis) {
    axis == Child || axis == Self || axis == Descendant || axis == DescendantOrSelf
  }

  function MergedAxis(axis: Axis): Axis {
    if axis == Child || axis == Descendant then Descendant else DescendantOrSelf
  }

  predicate IsSlashSlash(e: Expr) {
    e.Step? && e.axis == DescendantOrSelf && e.test == AnyNode && e.preds == []
  }

  /** One node whose operands are already optimized. */
  function OptimizeSelf(e: Expr): Expr {
    match e
    case Step(left, axis, test, preds) =>
      if Mergeable(axis) && left.Some? && IsSlashSlash(left.value) && forall k :: 0 <= k < |preds| ==> preds[k].mode == PositionFree
      then Step(left.value.left, MergedAxis(axis), test, preds)
      else e
    case TranslateCall(arg, from, to) =>
      if from.StringConst? && to.StringConst? && TableFor(from.s, to.s).Some? then TranslateTable(arg, TableFor(from.s, to.s).value)
      else e
    case Equal(l, r) =>
      if l.Step? && l.axis == Attribute && l.test.NameTest? && l.left.None? && l.preds == []
         && (r.StringConst? || (r.Variable? && r.ty == StringType))
      then CompareAttribute(l.test.name, r) else e
    case _ => e
  }

  /** Every node is rewritten once, operands first. */
  function Optimize(e: Expr): Expr {
    match e
    case Equal(l, r) => OptimizeSelf(Equal(Optimize(l), Optimize(r)))
    case TranslateCall(arg, from, to) => OptimizeSelf(TranslateCall(Optimize(arg), Optimize(from), Optimize(to)))
    case Call(fn, ty, args) => Call(fn, ty, seq(|args|, k requires 0 <= k < |args| => Optimize(args[k])))
    case Step(left, axis, test, preds) =>
      OptimizeSelf(Step(if left.None? then None else Some(Optimize(left.value)), axis, test,
                        seq(|preds|, k requires 0 <= k < |preds| => OptimizePred(Optimize(preds[k].expr)))))
    case Filter(base, pred) => Filter(Optimize(base), OptimizePred(Optimize(pred.expr)))
    case Union(l, r) => Union(Optimize(l), Optimize(r))
    case _ => e
  }

  // ----- the rewrites that it is for are made -----

  function SlashSlash(left: Option<Expr>): Expr {
    Step(left, DescendantOrSelf, AnyNode, [])
  }

  function AttributeIs(name: string, value: Expr): Expr {
    Equal(Step(None, Attribute, NameTest(name), []), value)
  }

  predicate IsText(value: Expr) {
    value.StringConst? || (value.Variable? && value.ty == StringType)
  }

  lemma SlashSlashStays(left: Option<Expr>)
    ensures var u := Optimize(SlashSlash(left)); u.Step? && u == SlashSlash(u.left)
  {
    NoPredicate(left, DescendantOrSelf, AnyNode);
  }

  /** @name='value' and @name=$value become one comparison, which is a position-free condition. */
  lemma AttributeMade(name: string, value: Expr)
    requires IsText(value)
    ensures Optimize(AttributeIs(name, value)) == CompareAttribute(name, value)
    ensures OptimizePred(Optimize(AttributeIs(name, value))) == Pred(CompareAttribute(name, value), PositionFree)
  {
    NoPredicate(None, Attribute, NameTest(name));
    assert IsPositionFree(value) && Optimize(value) == value;
  }

  /** //x becomes one step, also with such a condition. */
  lemma MergeMade(left: Option<Expr>, axis: Axis, test: Test, name: string, value: Expr)
    requires axis in {Child, Self, Descendant, DescendantOrSelf} && IsText(value)
    ensures var u, merged := Optimize(SlashSlash(left)), if axis in {Child, Descendant} then Descendant else DescendantOrSelf;
            && u.Step? && Optimize(Step(Some(SlashSlash(left)), axis, test, [])) == Step(u.left, merged, test, [])
            && Optimize(Step(Some(SlashSlash(left)), axis, test, [Pred(AttributeIs(name, value), Default)]))
               == Step(u.left, merged, test, [Pred(CompareAttribute(name, value), PositionFree)])
  {
    hide Optimize, OptimizePred, AttributeIs;
    SlashSlashStays(left);
    NoPredicate(Some(SlashSlash(left)), axis, test);
    OnePredicate(Some(SlashSlash(left)), axis, test, AttributeIs(name, value));
    AttributeMade(name, value);
  }

  /** //x[position()=n] stays two steps; only the predicate is shortened. */
  lemma PositionMade(left: Option<Expr>, axis: Axis, test: Test, n: Number)
    ensures Optimize(Step(Some(SlashSlash(left)), axis, test, [Pred(Equal(Position, NumberConst(n)), Default)]))
            == Step(Some(Optimize(SlashSlash(left))), axis, test, [Pred(NumberConst(n), Constant)])
  {
    hide Optimize;
    OnePredicate(Some(SlashSlash(left)), axis, test, Equal(Position, NumberConst(n)));
    PositionDropped(n);
    var preds := [Pred(NumberConst(n), Constant)];
    assert preds[0].mode != PositionFree;
  }

  lemma PositionDropped(n: Number)
    ensures OptimizePred(Optimize(Equal(Position, NumberConst(n)))) == Pred(NumberConst(n), Constant)
  {}

  /** translate() with constant arguments in ASCII uses a table. */
  lemma TableMade(arg: Expr, from: string, to: string)
    requires forall k :: 0 <= k < |from| ==> 0 < from[k] as int < 128 && (k < |to| ==> 0 < to[k] as int < 128)
    ensures var e := Optimize(TranslateCall(arg, StringConst(from), StringConst(to)));
            e.TranslateTable? && e.arg == Optimize(arg) && TableOf(e.table, from, to)
  {
    hide TableFor, TableOf;
    TableForAscii(from, to);
    TableForIsTable(from, to);
  }

  lemma TableForAscii(from: string, to: string)
    requires forall k :: 0 <= k < |from| ==> 0 < from[k] as int < 128 && (k < |to| ==> 0 < to[k] as int < 128)
    ensures TableFor(from, to).Some?
  {}

  ghost function OptimizedLeft(left: Option<Expr>): Option<Expr> {
    if left.None? then None else Some(Optimize(left.value))
  }

  lemma NoPredicate(left: Option<Expr>, axis: Axis, test: Test)
    ensures Optimize(Step(left, axis, test, [])) == OptimizeSelf(Step(OptimizedLeft(left), axis, test, []))
  {
    hide OptimizeSelf;
    var e := Step(left, axis, test, []);
    assert seq(|e.preds|, k requires 0 <= k < |e.preds| => OptimizePred(Optimize(e.preds[k].expr))) == [];
  }

  lemma OnePredicate(left: Option<Expr>, axis: Axis, test: Test, p: Expr)
    ensures Optimize(Step(left, axis, test, [Pred(p, Default)]))
            == OptimizeSelf(Step(OptimizedLeft(left), axis, test, [OptimizePred(Optimize(p))]))
  {
    hide OptimizeSelf, OptimizePred;
    var e := Step(left, axis, test, [Pred(p, Default)]);
    assert seq(|e.preds|, k requires 0 <= k < |e.preds| => OptimizePred(Optimize(e.preds[k].expr))) == [OptimizePred(Optimize(p))];
  }

  // ----- what holds of well-formed and of optimized expressions -----

  /** Values have the declared type. */
  lemma Typed(w: World, e: Expr, c: Context)
    requires GoodWorld(w)
    ensures TypeOf(Eval(w, e, c)) == RetType(e)
  {}

  ghost predicate SoundPred(p: Pred) {
    && Sound(p.expr)
    && (p.mode == PositionFree ==> RetType(p.expr) != NumberType && IsPositionFree(p.expr))
    && (p.mode == Constant ==> RetType(p.expr) == NumberType && (p.expr.NumberConst? || p.expr.Variable? || p.expr.Last?))
  }

  ghost predicate Sound(e: Expr) {
    match e
    case Equal(l, r) => Sound(l) && Sound(r)
    case TranslateCall(arg, from, to) => Sound(arg) && Sound(from) && Sound(to)
    case Call(_, _, args) => forall k :: 0 <= k < |args| ==> Sound(args[k])
    case Step(left, _, _, preds) =>
      && (left.Some? ==> Sound(left.value) && RetType(left.value) == NodeSetType)
      && (forall k :: 0 <= k < |preds| ==> SoundPred(preds[k]))
    case Filter(base, pred) => Sound(base) && RetType(base) == NodeSetType && SoundPred(pred)
    case Union(l, r) => Sound(l) && Sound(r) && RetType(l) == NodeSetType && RetType(r) == NodeSetType
    case TranslateTable(arg, _) => Sound(arg)
    case CompareAttribute(_, value) => Sound(value)
    case _ => true
  }

  lemma SelfSound(e: Expr)
    requires Sound(e)
    ensures Sound(OptimizeSelf(e)) && RetType(OptimizeSelf(e)) == RetType(e)
  {}

  lemma PredSound(e: Expr)
    requires Sound(e)
    ensures SoundPred(OptimizePred(e))
  {}

  lemma {:induction false} OptimizeSound(e: Expr)
    requires WellFormed(e)
    ensures Sound(Optimize(e)) && RetType(Optimize(e)) == RetType(e)
  {
    match e
    case Equal(l, r) =>
      OptimizeSound(l);
      OptimizeSound(r);
      SelfSound(Equal(Optimize(l), Optimize(r)));
    case TranslateCall(arg, from, to) =>
      OptimizeSound(arg);
      OptimizeSound(from);
      OptimizeSound(to);
      SelfSound(TranslateCall(Optimize(arg), Optimize(from), Optimize(to)));
    case Call(fn, ty, args) =>
      forall k | 0 <= k < |args| ensures Sound(Optimize(args[k])) {
        OptimizeSound(args[k]);
      }
    case Step(left, axis, test, preds) =>
      if left.Some? { OptimizeSound(left.value); }
      forall k | 0 <= k < |preds| ensures SoundPred(OptimizePred(Optimize(preds[k].expr))) {
        OptimizeSound(preds[k].expr);
        PredSound(Optimize(preds[k].expr));
      }
      SelfSound(Step(if left.None? then None else Some(Optimize(left.value)), axis, test,
                     seq(|preds|, k requires 0 <= k < |preds| => OptimizePred(Optimize(preds[k].expr)))));
    case Filter(base, pred) =>
      OptimizeSound(base);
      OptimizeSound(pred.expr);
      PredSound(Optimize(pred.expr));
    case Union(l, r) =>
      OptimizeSound(l);
      OptimizeSound(r);
    case _ =>
  }

  // ----- position-free expressions -----

  /** A node set never depends on the position: only its context node matters. */
  lemma {:induction false} NodeSetFree(w: World, e: Expr, c: Context, c': Context)
    requires GoodWorld(w) && Sound(e) && RetType(e) == NodeSetType && c.node == c'.node
    ensures Eval(w, e, c) == Eval(w, e, c')
  {
    match e
    case Step(left, _, _, _) =>
      if left.Some? { NodeSetFree(w, left.value, c, c'); }
    case Filter(base, _) => NodeSetFree(w, base, c, c');
    case Union(l, r) =>
      NodeSetFree(w, l, c, c');
      NodeSetFree(w, r, c, c');
    case _ =>
  }

  lemma {:induction false} PositionFreeValue(w: World, e: Expr, c: Context, c': Context)
    requires GoodWorld(w) && Sound(e) && IsPositionFree(e) && c.node == c'.node
    ensures Eval(w, e, c) == Eval(w, e, c')
    decreases e, 1
  {
    match e
    case Equal(l, r) =>
      PositionFreeValue(w, l, c, c');
      PositionFreeValue(w, r, c, c');
    case TranslateCall(arg, from, to) =>
      PositionFreeValue(w, arg, c, c');
      PositionFreeValue(w, from, c, c');
      PositionFreeValue(w, to, c, c');
    case Call(_, _, args) => PositionFreeAll(w, args, c, c', |args|);
    case Step(_, _, _, _) => NodeSetFree(w, e, c, c');
    case Filter(_, _) => NodeSetFree(w, e, c, c');
    case Union(_, _) => NodeSetFree(w, e, c, c');
    case TranslateTable(arg, _) => PositionFreeValue(w, arg, c, c');
    case CompareAttribute(_, value) => PositionFreeValue(w, value, c, c');
    case _ =>
  }

  lemma {:induction false} PositionFreeAll(w: World, args: seq<Expr>, c: Context, c': Context, n: nat)
    requires GoodWorld(w) && n <= |args| && forall k :: 0 <= k < |args| ==> Sound(args[k]) && IsPositionFree(args[k])
    requires c.node == c'.node
    ensures EvalAll(w, args, c, n) == EvalAll(w, args, c', n)
    decreases args, 0, n
  {
    if n > 0 {
      PositionFreeAll(w, args, c, c', n - 1);
      PositionFreeValue(w, args[n - 1], c, c');
    }
  }

  /** A position-free predicate is a condition on the node alone. */
  ghost predicate True(w: World, e: Expr, x: XNode) {
    ToBool(w, Eval(w, e, Context(x, 1, 1)))
  }

  lemma {:induction false} KeepHolds(w: World, l: seq<XNode>, e: Expr, size: nat, n: nat, y: XNode)
    requires GoodWorld(w) && Sound(e) && IsPositionFree(e) && RetType(e) != NumberType && n <= |l|
    ensures y in Keep(w, l, e, size, n) <==> y in l[..n] && True(w, e, y)
  {
    hide Eval, Sound, IsPositionFree, RetType;
    if n > 0 {
      KeepHolds(w, l, e, size, n - 1, y);
      assert l[..n] == l[..n - 1] + [l[n - 1]];
      Typed(w, e, Context(l[n - 1], n, size));
      PositionFreeValue(w, e, Context(l[n - 1], n, size), Context(l[n - 1], 1, 1));
    }
  }

  lemma {:induction false} ApplyAllHolds(w: World, l: seq<XNode>, preds: seq<Pred>, n: nat, y: XNode)
    requires GoodWorld(w) && n <= |preds| && forall k :: 0 <= k < |preds| ==> SoundPred(preds[k]) && preds[k].mode == PositionFree
    ensures y in ApplyAll(w, l, preds, n) <==> y in l && forall k :: 0 <= k < n ==> True(w, preds[k].expr, y)
    decreases n
  {
    hide True, Keep, Sound, IsPositionFree, RetType;
    if n > 0 {
      ApplyAllHolds(w, l, preds, n - 1, y);
      var m := ApplyAll(w, l, preds, n - 1);
      PredParts(preds[n - 1]);
      KeepHolds(w, m, preds[n - 1].expr, |m|, |m|, y);
      assert m[..|m|] == m;
    }
  }

  lemma PredParts(p: Pred)
    requires SoundPred(p) && p.mode == PositionFree
    ensures Sound(p.expr) && IsPositionFree(p.expr) && RetType(p.expr) != NumberType
  {}

  // ----- the axes of // -----

  lemma {:induction false} TreeListHolds(w: World, test: Test, s: seq<nat>, y: XNode)
    ensures y in TreeList(w, test, s) <==> y.TreeNode? && y.i in s && w.treeTest(test, y.i)
  {
    if s != [] {
      TreeListHolds(w, test, s[..|s| - 1], y);
      assert s == s[..|s| - 1] + [s[|s| - 1]];
    }
  }

  lemma {:induction false} ChildListHolds(d: Numbering, i: nat, s: seq<nat>, x: nat)
    ensures x in ChildList(d, i, s) <==> x in s && x < |d.up| && d.up[x] == i
  {
    if s != [] {
      ChildListHolds(d, i, s[..|s| - 1], x);
      assert s == s[..|s| - 1] + [s[|s| - 1]];
    }
  }

  /** What a step reaches, for the axes that are merged. */
  lemma StepHolds(w: World, axis: Axis, test: Test, i: nat, y: XNode)
    requires GoodWorld(w) && Mergeable(axis) && i < |w.doc.node|
    ensures y in StepList(w, axis, test, TreeNode(i)) <==>
            && y.TreeNode? && w.treeTest(test, y.i)
            && (match axis
                case Child => i < y.i < w.doc.end[i] && w.doc.up[y.i] == i
                case Self => y.i == i
                case Descendant => i < y.i < w.doc.end[i]
                case _ => i <= y.i < w.doc.end[i])
  {
    hide StepList, TreeList, ChildList, Range;
    var d := w.doc;
    StepIs(w, axis, test, i);
    TreeListHolds(w, test, StepNumbers(d, axis, i), y);
    if y.TreeNode? {
      ChildListHolds(d, i, Range(i + 1, d.end[i]), y.i);
      RangeHolds(i + 1, d.end[i], y.i);
      RangeHolds(i, d.end[i], y.i);
    }
  }

  ghost function StepNumbers(d: Numbering, axis: Axis, i: nat): seq<nat>
    requires i < |d.end|
  {
    if axis == Child then ChildList(d, i, Range(i + 1, d.end[i]))
    else if axis == Self then [i]
    else if axis == Descendant then Range(i + 1, d.end[i])
    else Range(i, d.end[i])
  }

  lemma StepIs(w: World, axis: Axis, test: Test, i: nat)
    requires GoodWorld(w) && Mergeable(axis) && i < |w.doc.node|
    ensures i < |w.doc.end| && StepList(w, axis, test, TreeNode(i)) == TreeList(w, test, StepNumbers(w.doc, axis, i))
  {
    hide TreeList, ChildList, Range;
  }

  /** A step of the merged axis reaches what the step reaches from some node on descendant-or-self::node(). */
  lemma MergedStep(w: World, axis: Axis, test: Test, x: XNode, y: XNode)
    requires GoodWorld(w) && Mergeable(axis)
    ensures y in StepList(w, MergedAxis(axis), test, x) <==>
            exists z :: z in StepList(w, DescendantOrSelf, AnyNode, x) && y in StepList(w, axis, test, z)
  {
    hide StepList, TreeList, ChildList;
    if x.TreeNode? && x.i < |w.doc.node| {
      MergedTreeStep(w, axis, test, x.i, y);
    } else {
      OtherSteps(w, axis, test, x);
    }
  }

  lemma OtherSteps(w: World, axis: Axis, test: Test, x: XNode)
    requires GoodWorld(w) && Mergeable(axis) && (x.TreeNode? ==> x.i >= |w.doc.node|)
    ensures forall y :: y in StepList(w, MergedAxis(axis), test, x) <==>
                        exists z :: z in StepList(w, DescendantOrSelf, AnyNode, x) && y in StepList(w, axis, test, z)
  {
    var l := StepList(w, DescendantOrSelf, AnyNode, x);
    assert l == [] || l == [x];
    assert l == [x] ==> x in l;
  }

  lemma MergedTreeStep(w: World, axis: Axis, test: Test, i: nat, y: XNode)
    requires GoodWorld(w) && Mergeable(axis) && i < |w.doc.node|
    ensures y in StepList(w, MergedAxis(axis), test, TreeNode(i)) <==>
            exists z :: z in StepList(w, DescendantOrSelf, AnyNode, TreeNode(i)) && y in StepList(w, axis, test, z)
  {
    hide StepList;
    var d := w.doc;
    StepHolds(w, MergedAxis(axis), test, i, y);
    if y in StepList(w, MergedAxis(axis), test, TreeNode(i)) {
      var k: int := if axis == Child then d.up[y.i] else if axis == Descendant then i else y.i;
      if axis == Child { AboveParent(d, i, y.i); }
      var z := TreeNode(k);
      StepHolds(w, DescendantOrSelf, AnyNode, i, z);
      StepHolds(w, axis, test, k, y);
      assert z in StepList(w, DescendantOrSelf, AnyNode, TreeNode(i));
    }
    if exists z :: z in StepList(w, DescendantOrSelf, AnyNode, TreeNode(i)) && y in StepList(w, axis, test, z) {
      var z :| z in StepList(w, DescendantOrSelf, AnyNode, TreeNode(i)) && y in StepList(w, axis, test, z);
      StepHolds(w, DescendantOrSelf, AnyNode, i, z);
      InsideEnds(d, i, z.i);
      StepHolds(w, axis, test, z.i, y);
    }
  }

  // ----- constant positions -----

  /** When the value is the same at every position, only the node at that position is kept. */
  lemma {:induction false} KeepConstant(w: World, l: seq<XNode>, e: Expr, size: nat, n: nat, v: Value)
    requires n <= |l| && v.NumberV? && forall x, k: nat :: Eval(w, e, Context(x, k, size)) == v
    ensures Keep(w, l, e, size, n) == if PickPlace(v, n) > 0 then [l[PickPlace(v, n) - 1]] else []
    decreases n
  {
    hide Eval, PickPlace;
    PickPlaceStep(v, n);
    if n > 0 {
      KeepConstant(w, l, e, size, n - 1, v);
      assert Eval(w, e, Context(l[n - 1], n, size)) == v;
    }
  }

  lemma PickPlaceStep(v: Value, n: nat)
    requires v.NumberV?
    ensures n == 0 ==> PickPlace(v, n) == 0
    ensures n > 0 ==> PickPlace(v, n) == if v.n == Finite(n as real) then n else PickPlace(v, n - 1)
    ensures n > 0 && v.n == Finite(n as real) ==> PickPlace(v, n - 1) == 0
  {}

  /** The position that a number names among the first n, or 0. */
  function PickPlace(v: Value, n: nat): (p: nat)
    requires v.NumberV?
    ensures p <= n
  {
    if v.n.Finite? && 1.0 <= v.n.r <= n as real && v.n.r.Floor as real == v.n.r then v.n.r.Floor else 0
  }

  lemma PickIsKeep(w: World, l: seq<XNode>, e: Expr)
    requires GoodWorld(w) && RetType(e) == NumberType && (e.NumberConst? || e.Variable? || e.Last?)
    ensures Pick(l, Eval(w, e, Context(NoNode, 1, |l|))) == Keep(w, l, e, |l|, |l|)
  {
    hide Eval, Keep;
    var v := Eval(w, e, Context(NoNode, 1, |l|));
    Typed(w, e, Context(NoNode, 1, |l|));
    forall x, k: nat ensures Eval(w, e, Context(x, k, |l|)) == v {
      ConstantValue(w, e, x, k, |l|);
    }
    KeepConstant(w, l, e, |l|, |l|, v);
  }

  lemma ConstantValue(w: World, e: Expr, x: XNode, k: nat, size: nat)
    requires e.NumberConst? || e.Variable? || e.Last?
    ensures Eval(w, e, Context(x, k, size)) == Eval(w, e, Context(NoNode, 1, size))
  {}

  // ----- predicates -----

  lemma {:induction false} KeepSame(w: World, l: seq<XNode>, e: Expr, e': Expr, size: nat, n: nat)
    requires forall x, k: nat :: Holds(w, Eval(w, e, Context(x, k, size)), k) == Holds(w, Eval(w, e', Context(x, k, size)), k)
    ensures Keep(w, l, e, size, n) == Keep(w, l, e', size, n)
    decreases n
  {
    hide Eval, Holds;
    if n > 0 && n <= |l| {
      KeepSame(w, l, e, e', size, n - 1);
      var x, k := l[n - 1], n;
      assert Holds(w, Eval(w, e, Context(x, k, size)), k) == Holds(w, Eval(w, e', Context(x, k, size)), k);
    }
  }

  /** [position()=e] keeps the same nodes as [e]. */
  lemma DropPositionHolds(w: World, e: Expr, x: XNode, k: nat, size: nat)
    requires GoodWorld(w)
    ensures Holds(w, Eval(w, DropPosition(e), Context(x, k, size)), k) == Holds(w, Eval(w, e, Context(x, k, size)), k)
  {
    if DropPosition(e) != e {
      Typed(w, e.r, Context(x, k, size));
    }
  }

  /** A predicate keeps the same nodes, in the same order, once it is rewritten and classified. */
  lemma PredSame(w: World, p: Pred, e: Expr, l: seq<XNode>)
    requires GoodWorld(w) && p.mode == Default && forall c :: Eval(w, e, c) == Eval(w, p.expr, c)
    ensures Apply(w, l, OptimizePred(e)) == Apply(w, l, p)
  {
    hide Eval, Keep, Holds, Pick;
    var e2 := DropPosition(e);
    forall x, k: nat ensures Holds(w, Eval(w, e2, Context(x, k, |l|)), k) == Holds(w, Eval(w, p.expr, Context(x, k, |l|)), k) {
      DropPositionHolds(w, e, x, k, |l|);
    }
    KeepSame(w, l, e2, p.expr, |l|, |l|);
    if Classify(e2) == Constant {
      PickIsKeep(w, l, e2);
    }
  }

  lemma {:induction false} PredsSame(w: World, preds: seq<Pred>, preds': seq<Pred>, l: seq<XNode>, n: nat)
    requires GoodWorld(w) && |preds'| == |preds| && n <= |preds|
    requires forall k, m :: 0 <= k < |preds| ==> Apply(w, m, preds'[k]) == Apply(w, m, preds[k])
    ensures ApplyAll(w, l, preds', n) == ApplyAll(w, l, preds, n)
    decreases n
  {
    hide Apply;
    if n > 0 {
      PredsSame(w, preds, preds', l, n - 1);
    }
  }

  // ----- rewriting one node -----

  ghost function BaseOf(w: World, left: Option<Expr>, c: Context): set<XNode> {
    if left.None? then {c.node} else NodesOf(Eval(w, left.value, c))
  }

  lemma StepNodes(w: World, left: Option<Expr>, axis: Axis, test: Test, preds: seq<Pred>, c: Context)
    ensures var v := Eval(w, Step(left, axis, test, preds), c);
            v.NodeSetV? && forall y :: y in v.s <==>
              exists x :: x in BaseOf(w, left, c) && y in ApplyAll(w, StepList(w, axis, test, x), preds, |preds|)
  {}

  lemma SlashSlashNodes(w: World, left: Option<Expr>, c: Context)
    ensures forall z :: z in BaseOf(w, Some(Step(left, DescendantOrSelf, AnyNode, [])), c) <==>
                        exists x :: x in BaseOf(w, left, c) && z in StepList(w, DescendantOrSelf, AnyNode, x)
  {
    hide StepList;
    StepNodes(w, left, DescendantOrSelf, AnyNode, [], c);
  }

  /** One node of a merged step: it is reached through some node of descendant-or-self::node(), and back. */
  lemma MergeMember(w: World, axis: Axis, test: Test, preds: seq<Pred>, x: XNode, y: XNode)
    requires GoodWorld(w) && Mergeable(axis)
    requires forall k :: 0 <= k < |preds| ==> SoundPred(preds[k]) && preds[k].mode == PositionFree
    ensures y in ApplyAll(w, StepList(w, MergedAxis(axis), test, x), preds, |preds|) <==>
            exists z :: z in StepList(w, DescendantOrSelf, AnyNode, x) && y in ApplyAll(w, StepList(w, axis, test, z), preds, |preds|)
  {
    hide StepList, True, SoundPred, ApplyAll, GoodWorld;
    ApplyAllHolds(w, StepList(w, MergedAxis(axis), test, x), preds, |preds|, y);
    MergedStep(w, axis, test, x, y);
    if y in ApplyAll(w, StepList(w, MergedAxis(axis), test, x), preds, |preds|) {
      var z :| z in StepList(w, DescendantOrSelf, AnyNode, x) && y in StepList(w, axis, test, z);
      ApplyAllHolds(w, StepList(w, axis, test, z), preds, |preds|, y);
    }
    if z :| z in StepList(w, DescendantOrSelf, AnyNode, x) && y in ApplyAll(w, StepList(w, axis, test, z), preds, |preds|) {
      ApplyAllHolds(w, StepList(w, axis, test, z), preds, |preds|, y);
    }
  }

  /** //x: descendant-or-self::node() followed by a step is one step of the merged axis, when no predicate counts. */
  lemma MergeSame(w: World, left: Option<Expr>, axis: Axis, test: Test, preds: seq<Pred>, c: Context)
    requires GoodWorld(w) && Mergeable(axis)
    requires forall k :: 0 <= k < |preds| ==> SoundPred(preds[k]) && preds[k].mode == PositionFree
    ensures Eval(w, Step(left, MergedAxis(axis), test, preds), c)
            == Eval(w, Step(Some(Step(left, DescendantOrSelf, AnyNode, [])), axis, test, preds), c)
  {
    hide StepList, SoundPred, ApplyAll, Eval, BaseOf, GoodWorld;
    var inner := Some(Step(left, DescendantOrSelf, AnyNode, []));
    StepNodes(w, left, MergedAxis(axis), test, preds, c);
    StepNodes(w, inner, axis, test, preds, c);
    SlashSlashNodes(w, left, c);
    var a, b := Eval(w, Step(left, MergedAxis(axis), test, preds), c), Eval(w, Step(inner, axis, test, preds), c);
    forall y ensures y in a.s <==> y in b.s {
      if y in a.s {
        var x :| x in BaseOf(w, left, c) && y in ApplyAll(w, StepList(w, MergedAxis(axis), test, x), preds, |preds|);
        MergeMember(w, axis, test, preds, x, y);
        var z :| z in StepList(w, DescendantOrSelf, AnyNode, x) && y in ApplyAll(w, StepList(w, axis, test, z), preds, |preds|);
        assert z in BaseOf(w, inner, c);
      }
      if y in b.s {
        var z :| z in BaseOf(w, inner, c) && y in ApplyAll(w, StepList(w, axis, test, z), preds, |preds|);
        var x :| x in BaseOf(w, left, c) && z in StepList(w, DescendantOrSelf, AnyNode, x);
        MergeMember(w, axis, test, preds, x, y);
      }
    }
    assert a.s == b.s;
  }

  /** @attr = 'value' looks at the same attribute as the comparison of the attribute step. */
  lemma AttributeSame(w: World, name: string, value: Expr, c: Context)
    requires GoodWorld(w) && (value.StringConst? || (value.Variable? && value.ty == StringType))
    ensures Eval(w, CompareAttribute(name, value), c) == Eval(w, Equal(Step(None, Attribute, NameTest(name), []), value), c)
  {
    var l := Step(None, Attribute, NameTest(name), []);
    var v := Eval(w, value, c);
    Typed(w, value, c);
    StepNodes(w, None, Attribute, NameTest(name), [], c);
    var s := NodesOf(Eval(w, l, c));
    assert BaseOf(w, None, c) == {c.node};
    var list := StepList(w, Attribute, NameTest(name), c.node);
    forall y ensures y in s <==> y in list {
      assert ApplyAll(w, list, [], 0) == list;
    }
    assert list == [] || (|list| == 1 && list[0] in list);
  }

  lemma TranslateSame(w: World, arg: Expr, from: string, to: string, c: Context)
    requires TableFor(from, to).Some?
    ensures Eval(w, TranslateTable(arg, TableFor(from, to).value), c) == Eval(w, TranslateCall(arg, StringConst(from), StringConst(to)), c)
  {
    hide TableFor, IsAscii, Translate, UseTable;
    TableForIsTable(from, to);
    TableIsTranslate(ToText(w, Eval(w, arg, c)), from, to, TableFor(from, to).value);
  }

  lemma SelfSame(w: World, e: Expr, c: Context)
    requires GoodWorld(w) && Sound(e)
    ensures Eval(w, OptimizeSelf(e), c) == Eval(w, e, c)
  {
    match e
    case Step(left, axis, test, preds) =>
      if OptimizeSelf(e) != e {
        var inner := left.value;
        assert inner == Step(inner.left, DescendantOrSelf, AnyNode, []);
        MergeSame(w, inner.left, axis, test, preds, c);
      }
    case TranslateCall(arg, from, to) =>
      if OptimizeSelf(e) != e { TranslateSame(w, arg, from.s, to.s, c); }
    case Equal(l, r) =>
      if OptimizeSelf(e) != e {
        assert l == Step(None, Attribute, NameTest(l.test.name), []);
        AttributeSame(w, l.test.name, r, c);
      }
    case _ =>
  }

  // ----- the main result -----

  /** Filtering by a condition on the node does not depend on the order in which the set is listed. */
  lemma FilterSame(w: World, s: set<XNode>, p: Pred)
    requires GoodWorld(w) && SoundPred(p) && p.mode == PositionFree
    ensures forall y :: y in Apply(w, w.raw(s), p) <==> y in Apply(w, w.ordered(s), p)
  {
    hide Keep, True, Sound, IsPositionFree, RetType;
    PredParts(p);
    var a, b := w.raw(s), w.ordered(s);
    assert Lists(s, a) && Lists(s, b);
    forall y ensures y in Apply(w, a, p) <==> y in Apply(w, b, p) {
      KeepHolds(w, a, p.expr, |a|, |a|, y);
      KeepHolds(w, b, p.expr, |b|, |b|, y);
      assert a[..|a|] == a && b[..|b|] == b;
    }
  }

  lemma {:induction false} ArgsSame(w: World, args: seq<Expr>, args': seq<Expr>, c: Context, n: nat)
    requires |args'| == |args| && n <= |args| && forall k :: 0 <= k < |args| ==> Eval(w, args'[k], c) == Eval(w, args[k], c)
    ensures EvalAll(w, args', c, n) == EvalAll(w, args, c, n)
    decreases n
  {
    hide Eval;
    if n > 0 {
      ArgsSame(w, args, args', c, n - 1);
    }
  }

  lemma StepSame(w: World, left: Option<Expr>, left': Option<Expr>, axis: Axis, test: Test, preds: seq<Pred>, preds': seq<Pred>, c: Context)
    requires GoodWorld(w) && |preds'| == |preds| && BaseOf(w, left', c) == BaseOf(w, left, c)
    requires forall k, m :: 0 <= k < |preds| ==> Apply(w, m, preds'[k]) == Apply(w, m, preds[k])
    ensures Eval(w, Step(left', axis, test, preds'), c) == Eval(w, Step(left, axis, test, preds), c)
  {
    hide StepList, Apply, Eval, BaseOf, ApplyAll;
    StepNodes(w, left', axis, test, preds', c);
    StepNodes(w, left, axis, test, preds, c);
    forall x ensures ApplyAll(w, StepList(w, axis, test, x), preds', |preds'|) == ApplyAll(w, StepList(w, axis, test, x), preds, |preds|) {
      PredsSame(w, preds, preds', StepList(w, axis, test, x), |preds|);
    }
    var a, b := Eval(w, Step(left', axis, test, preds'), c), Eval(w, Step(left, axis, test, preds), c);
    assert a.s == b.s;
  }

  /** The optimized query means what the query means: the same node set, number, string or boolean for every document,
      every context and every query. */
  lemma {:induction false} OptimizePreserves(w: World, e: Expr, c: Context)
    requires GoodWorld(w) && WellFormed(e)
    ensures Eval(w, Optimize(e), c) == Eval(w, e, c)
    decreases e
  {
    hide StepList, ApplyAll, Apply, Sound, GoodWorld, OptimizeSelf;
    OptimizeSound(e);
    match e
    case Equal(l, r) =>
      OptimizePreserves(w, l, c);
      OptimizePreserves(w, r, c);
      OperandsSound(e);
      SelfSame(w, Equal(Optimize(l), Optimize(r)), c);
    case TranslateCall(arg, from, to) =>
      OptimizePreserves(w, arg, c);
      OptimizePreserves(w, from, c);
      OptimizePreserves(w, to, c);
      OperandsSound(e);
      SelfSame(w, TranslateCall(Optimize(arg), Optimize(from), Optimize(to)), c);
    case Call(fn, ty, args) =>
      var args' := seq(|args|, k requires 0 <= k < |args| => Optimize(args[k]));
      forall k | 0 <= k < |args| ensures Eval(w, args'[k], c) == Eval(w, args[k], c) {
        OptimizePreserves(w, args[k], c);
      }
      ArgsSame(w, args, args', c, |args|);
    case Step(left, axis, test, preds) =>
      var left' := if left.None? then None else Some(Optimize(left.value));
      var preds' := seq(|preds|, k requires 0 <= k < |preds| => OptimizePred(Optimize(preds[k].expr)));
      if left.Some? { OptimizePreserves(w, left.value, c); }
      forall k, m | 0 <= k < |preds| ensures Apply(w, m, preds'[k]) == Apply(w, m, preds[k]) {
        forall c0 ensures Eval(w, Optimize(preds[k].expr), c0) == Eval(w, preds[k].expr, c0) {
          OptimizePreserves(w, preds[k].expr, c0);
        }
        PredSame(w, preds[k], Optimize(preds[k].expr), m);
      }
      StepSame(w, left, left', axis, test, preds, preds', c);
      OperandsSound(e);
      SelfSame(w, Step(left', axis, test, preds'), c);
    case Filter(base, pred) =>
      OptimizePreserves(w, base, c);
      forall c0 ensures Eval(w, Optimize(pred.expr), c0) == Eval(w, pred.expr, c0) {
        OptimizePreserves(w, pred.expr, c0);
      }
      FilterPreserves(w, Optimize(base), base, Optimize(pred.expr), pred, c);
    case Union(l, r) =>
      OptimizePreserves(w, l, c);
      OptimizePreserves(w, r, c);
    case _ =>
  }

  lemma FilterPreserves(w: World, base': Expr, base: Expr, e: Expr, pred: Pred, c: Context)
    requires GoodWorld(w) && pred.mode == Default && Eval(w, base', c) == Eval(w, base, c)
    requires (forall c0 :: Eval(w, e, c0) == Eval(w, pred.expr, c0)) && SoundPred(OptimizePred(e))
    ensures Eval(w, Filter(base', OptimizePred(e)), c) == Eval(w, Filter(base, pred), c)
  {
    hide Apply, Eval, SoundPred, OptimizePred, GoodWorld;
    var s, p := NodesOf(Eval(w, base, c)), OptimizePred(e);
    PredSame(w, pred, e, w.ordered(s));
    if p.mode == PositionFree {
      FilterSame(w, s, p);
    }
    FilterNodes(w, base', p, c);
    FilterNodes(w, base, pred, c);
    var a, b := Eval(w, Filter(base', p), c), Eval(w, Filter(base, pred), c);
    assert a.s == b.s;
  }

  lemma FilterNodes(w: World, base: Expr, p: Pred, c: Context)
    ensures var v, s := Eval(w, Filter(base, p), c), NodesOf(Eval(w, base, c));
            v.NodeSetV? && forall y :: y in v.s <==> y in Apply(w, if p.mode == PositionFree then w.raw(s) else w.ordered(s), p)
  {
    hide Apply;
  }

  /** The node with optimized operands, before it is rewritten itself, is sound. */
  lemma OperandsSound(e: Expr)
    requires WellFormed(e)
    ensures e.Equal? ==> Sound(Equal(Optimize(e.l), Optimize(e.r)))
    ensures e.TranslateCall? ==> Sound(TranslateCall(Optimize(e.arg), Optimize(e.from), Optimize(e.to)))
    ensures e.Step? ==> Sound(Step(if e.left.None? then None else Some(Optimize(e.left.value)), e.axis, e.test,
                                   seq(|e.preds|, k requires 0 <= k < |e.preds| => OptimizePred(Optimize(e.preds[k].expr)))))
    ensures e.Filter? ==> SoundPred(OptimizePred(Optimize(e.pred.expr)))
  {
    match e
    case Equal(l, r) =>
      OptimizeSound(l);
      OptimizeSound(r);
    case TranslateCall(arg, from, to) =>
      OptimizeSound(arg);
      OptimizeSound(from);
      OptimizeSound(to);
    case Step(left, _, _, preds) =>
      if left.Some? { OptimizeSound(left.value); }
      forall k | 0 <= k < |preds| ensures SoundPred(OptimizePred(Optimize(preds[k].expr))) {
        OptimizeSound(preds[k].expr);
        PredSound(Optimize(preds[k].expr));
      }
    case Filter(_, pred) =>
      OptimizeSound(pred.expr);
      PredSound(Optimize(pred.expr));
    case _ =>
  }
}
