/** The optimizer as it runs: over linked nodes that are rewritten where they are. */
module XPathTree {
  import opened Wrappers
  import opened Translation
  import opened XPathExpr
  import opened XPathOptimizer

  datatype Kind =
    | KNumber | KString | KVariable | KPosition | KLast | KEqual | KTranslate | KCall(fn: string) | KRoot
    | KStep | KPredicate | KFilter | KUnion | KTranslateTable | KCompareAttribute

  /** What a node holds besides its links; a field that its kind does not use is arbitrary. */
  datatype Info = Info(kind: Kind, ret: Type, axis: Axis, test: Test, mode: Class, number: Number, text: string, table: Table)

  datatype Ast = Ast(info: Info, left: int, right: int, next: int)

  const NULL: int := -1

  /** The tree that links spell out: at is where its node is. */
  datatype Tree = Leaf | Tree(at: nat, info: Info, left: Tree, right: Tree, next: Tree)

  ghost predicate Linked(h: seq<Ast>, p: int, t: Tree)
    decreases t
  {
    match t
    case Leaf => p == NULL
    case Tree(at, info, left, right, next) =>
      p == at < |h| && h[at].info == info && Linked(h, h[at].left, left) && Linked(h, h[at].right, right) && Linked(h, h[at].next, next)
  }

  ghost function Foot(t: Tree): set<nat> {
    match t
    case Leaf => {}
    case Tree(at, _, left, right, next) => {at} + Foot(left) + Foot(right) + Foot(next)
  }

  /** The operands that the parser always gives. */
  predicate Operands(k: Kind, left: Tree, right: Tree) {
    && (k == KEqual ==> left.Tree? && right.Tree?)
    && (k == KTranslate ==> right.Tree? && right.next.Tree?)
    && (k == KFilter || k == KPredicate ==> right.Tree?)
  }

  /** No node is in two places, string constants contain no NUL, and operators have their operands. */
  ghost predicate Proper(t: Tree) {
    match t
    case Leaf => true
    case Tree(at, info, left, right, next) =>
      && at !in Foot(left) && at !in Foot(right) && at !in Foot(next)
      && Foot(left) !! Foot(right) && Foot(left) !! Foot(next) && Foot(right) !! Foot(next)
      && (info.kind == KString ==> '\0' !in info.text) && Operands(info.kind, left, right)
      && Proper(left) && Proper(right) && Proper(next)
  }

  lemma {:induction false} LinkedFrame(h: seq<Ast>, h': seq<Ast>, p: int, t: Tree)
    requires Linked(h, p, t) && |h'| == |h| && forall q :: q in Foot(t) && q < |h| ==> h'[q] == h[q]
    ensures Linked(h', p, t)
    decreases t
  {
    if t.Tree? {
      LinkedFrame(h, h', h[t.at].left, t.left);
      LinkedFrame(h, h', h[t.at].right, t.right);
      LinkedFrame(h, h', h[t.at].next, t.next);
    }
  }

  // ----- the optimizer on trees -----

  /** Whether nothing in the expression looks at the position or size of the context. */
  predicate PosInv(t: Tree)
    requires t.Tree?
    decreases t, 1
  {
    match t.info.kind
    case KPosition => false
    case KLast => false
    case KString => true
    case KNumber => true
    case KVariable => true
    case KStep => true
    case KRoot => true
    case KPredicate => true
    case KFilter => true
    case _ => (t.left.Leaf? || PosInv(t.left)) && PosInvAll(t.right)
  }

  predicate PosInvAll(t: Tree)
    decreases t, 2
  {
    t.Leaf? || (PosInv(t) && PosInvAll(t.next))
  }

  predicate PosInvStep(t: Tree) {
    t.Leaf? || (t.info.mode == PositionFree && PosInvStep(t.next))
  }

  predicate IsBracket(t: Tree) {
    t.Tree? && (t.info.kind == KFilter || t.info.kind == KPredicate) && t.right.Tree?
  }

  function DropPositionTree(t: Tree): Tree {
    if IsBracket(t) && t.right.info.kind == KEqual && t.right.left.Tree? && t.right.left.info.kind == KPosition
       && t.right.right.Tree? && t.right.right.info.ret == NumberType
    then t.(right := t.right.right) else t
  }

  function ClassOf(t: Tree): Class
    requires t.Tree?
  {
    if t.info.kind == KNumber && t.info.number == Finite(1.0) then Constant
    else if t.info.ret == NumberType && (t.info.kind == KNumber || t.info.kind == KVariable || t.info.kind == KLast) then Constant
    else if t.info.ret != NumberType && PosInv(t) then PositionFree
    else Default
  }

  /** The class of a bracket; one that none applies to keeps the class it has. */
  function ClassifyTree(t: Tree): Tree {
    if IsBracket(t) && ClassOf(t.right) != Default then t.(info := t.info.(mode := ClassOf(t.right))) else t
  }

  function MergeTree(t: Tree): Tree {
    if t.Tree? && t.info.kind == KStep && Mergeable(t.info.axis)
       && t.left.Tree? && t.left.info.kind == KStep && t.left.info.axis == DescendantOrSelf && t.left.info.test == AnyNode && t.left.right.Leaf?
       && PosInvStep(t.right)
    then t.(info := t.info.(axis := MergedAxis(t.info.axis)), left := t.left.left) else t
  }

  function TableTree(t: Tree): Tree {
    if t.Tree? && t.info.kind == KTranslate && t.right.Tree? && t.right.info.kind == KString
       && t.right.next.Tree? && t.right.next.info.kind == KString && TableFor(t.right.info.text, t.right.next.info.text).Some?
    then t.(info := t.info.(kind := KTranslateTable, table := TableFor(t.right.info.text, t.right.next.info.text).value)) else t
  }

  function CompareTree(t: Tree): Tree {
    if t.Tree? && t.info.kind == KEqual && t.left.Tree? && t.right.Tree?
       && t.left.info.kind == KStep && t.left.info.axis == Attribute && t.left.info.test.NameTest? && t.left.left.Leaf? && t.left.right.Leaf?
       && (t.right.info.kind == KString || (t.right.info.kind == KVariable && t.right.info.ret == StringType))
    then t.(info := t.info.(kind := KCompareAttribute)) else t
  }

  function SelfTree(t: Tree): Tree {
    CompareTree(TableTree(MergeTree(ClassifyTree(DropPositionTree(t)))))
  }

  function OptTree(t: Tree): Tree {
    match t
    case Leaf => Leaf
    case Tree(at, info, left, right, next) => SelfTree(Tree(at, info, OptTree(left), OptTree(right), OptTree(next)))
  }

  lemma SelfProper(t: Tree)
    requires Proper(t)
    ensures Proper(SelfTree(t)) && Foot(SelfTree(t)) <= Foot(t)
    ensures t.Tree? ==> SelfTree(t).Tree? && SelfTree(t).at == t.at && SelfTree(t).next == t.next
  {
    hide DropPositionTree, ClassifyTree, MergeTree, TableTree, CompareTree;
    var a := DropPositionTree(t);
    var b := ClassifyTree(a);
    var c := MergeTree(b);
    DropProper(t);
    RelabelProper(a);
    MergeProper(b);
    RelabelProper(c);
    RelabelProper(TableTree(c));
    SelfPlace(t);
  }

  /** Rewrites that change no link. */
  lemma RelabelProper(t: Tree)
    requires Proper(t)
    ensures Proper(ClassifyTree(t)) && Foot(ClassifyTree(t)) == Foot(t)
    ensures Proper(TableTree(t)) && Foot(TableTree(t)) == Foot(t)
    ensures Proper(CompareTree(t)) && Foot(CompareTree(t)) == Foot(t)
  {
    hide ClassOf, TableFor;
  }

  lemma SelfPlace(t: Tree)
    ensures SelfTree(t).Leaf? <==> t.Leaf?
    ensures t.Tree? ==> SelfTree(t).at == t.at && SelfTree(t).next == t.next
  {
    hide ClassOf, TableFor, PosInvStep;
  }

  lemma DropProper(t: Tree)
    requires Proper(t)
    ensures Proper(DropPositionTree(t)) && Foot(DropPositionTree(t)) <= Foot(t)
  {}

  lemma MergeProper(t: Tree)
    requires Proper(t)
    ensures Proper(MergeTree(t)) && Foot(MergeTree(t)) <= Foot(t)
  {}

  /** A node stays proper when its operands and list are replaced by proper ones that take no more room. */
  lemma Replaced(t: Tree, left: Tree, right: Tree, next: Tree)
    requires t.Tree? && Proper(t) && Proper(left) && Proper(right) && Proper(next)
    requires Foot(left) <= Foot(t.left) && Foot(right) <= Foot(t.right) && Foot(next) <= Foot(t.next)
    requires (left.Leaf? <==> t.left.Leaf?) && (right.Leaf? <==> t.right.Leaf?)
    requires t.right.Tree? && t.right.next.Tree? ==> right.next.Tree?
    ensures var s := Tree(t.at, t.info, left, right, next); Proper(s) && Foot(s) <= Foot(t)
  {}

  lemma {:induction false} OptProper(t: Tree)
    requires Proper(t)
    ensures Proper(OptTree(t)) && Foot(OptTree(t)) <= Foot(t) && (OptTree(t).Leaf? <==> t.Leaf?)
    ensures t.Tree? ==> OptTree(t).at == t.at && OptTree(t).next == OptTree(t.next)
    decreases t, 1
  {
    hide SelfTree, Operands;
    if t.Tree? {
      AroundProper(t);
      SelfProper(Tree(t.at, t.info, OptTree(t.left), OptTree(t.right), OptTree(t.next)));
    }
  }

  lemma {:induction false} AroundProper(t: Tree)
    requires t.Tree? && Proper(t)
    ensures var s := Tree(t.at, t.info, OptTree(t.left), OptTree(t.right), OptTree(t.next)); Proper(s) && Foot(s) <= Foot(t)
    decreases t, 0
  {
    OperandsAt(t);
    hide Proper, Foot, SelfTree;
    OptProper(t.left);
    OptProper(t.right);
    OptProper(t.next);
    if t.right.Tree? {
      OperandsAt(t.right);
      OptProper(t.right.next);
    }
    Replaced(t, OptTree(t.left), OptTree(t.right), OptTree(t.next));
  }

  // ----- what a tree means -----

  /** t is the linked form of e; the next link belongs to the list that t may be in. */
  ghost predicate Encodes(t: Tree, e: Expr)
    decreases e, 3
  {
    && t.Tree? && t.info.ret == RetType(e)
    && match e
       case NumberConst(n) => t.info.kind == KNumber && t.info.number == n
       case StringConst(s) => t.info.kind == KString && t.info.text == s
       case Variable(name, _) => t.info.kind == KVariable && t.info.text == name
       case Position => t.info.kind == KPosition
       case Last => t.info.kind == KLast
       case Root => t.info.kind == KRoot
       case Equal(l, r) => t.info.kind == KEqual && Encodes(t.left, l) && Encodes(t.right, r) && t.right.next.Leaf?
       case TranslateCall(arg, from, to) =>
         t.info.kind == KTranslate && Encodes(t.left, arg)
         && Encodes(t.right, from) && Encodes(t.right.next, to) && t.right.next.next.Leaf?
       case Call(fn, _, args) =>
         t.info.kind == KCall(fn)
         && (if args == [] then t.left.Leaf? && t.right.Leaf? else Encodes(t.left, args[0]) && EncodesArgs(t.right, args, 1))
       case Step(left, axis, test, preds) =>
         t.info.kind == KStep && t.info.axis == axis && t.info.test == test
         && (if left.None? then t.left.Leaf? else Encodes(t.left, left.value)) && EncodesPreds(t.right, preds, 0)
       case Filter(base, pred) =>
         t.info.kind == KFilter && Encodes(t.left, base) && t.info.mode == pred.mode && Encodes(t.right, pred.expr)
       case Union(l, r) => t.info.kind == KUnion && Encodes(t.left, l) && Encodes(t.right, r) && t.right.next.Leaf?
       case TranslateTable(arg, table) =>
         t.info.kind == KTranslateTable && t.info.table == table && Encodes(t.left, arg) && AllStrings(t.right)
       case CompareAttribute(attr, value) =>
         t.info.kind == KCompareAttribute && t.left.Tree? && t.left.info.kind == KStep && t.left.info.test == NameTest(attr)
         && Encodes(t.right, value) && t.right.next.Leaf?
  }

  ghost predicate EncodesArgs(t: Tree, args: seq<Expr>, k: nat)
    decreases args, 2, |args| - k
  {
    if k >= |args| then t.Leaf? else t.Tree? && Encodes(t, args[k]) && EncodesArgs(t.next, args, k + 1)
  }

  ghost predicate EncodesPreds(t: Tree, preds: seq<Pred>, k: nat)
    decreases preds, 2, |preds| - k
  {
    if k >= |preds| then t.Leaf?
    else t.Tree? && EncodesPred(t, preds[k]) && EncodesPreds(t.next, preds, k + 1)
  }

  ghost predicate EncodesPred(t: Tree, p: Pred)
    requires t.Tree?
    decreases p, 2
  {
    t.info.kind == KPredicate && t.left.Leaf? && t.info.mode == p.mode && Encodes(t.right, p.expr)
  }

  ghost predicate AllStrings(t: Tree) {
    t.Leaf? || (t.info.kind == KString && AllStrings(t.next))
  }

  // ----- the tree optimizer means the same as the one on expressions -----

  predicate Operator(k: Kind) {
    k == KEqual || k == KTranslate || k.KCall? || k == KUnion || k == KTranslateTable || k == KCompareAttribute
  }

  lemma PosInvOperator(t: Tree)
    requires t.Tree? && Operator(t.info.kind)
    ensures PosInv(t) == ((t.left.Leaf? || PosInv(t.left)) && PosInvAll(t.right))
    ensures t.right.Tree? ==> PosInvAll(t.right) == (PosInv(t.right) && PosInvAll(t.right.next))
    ensures t.right.Tree? && t.right.next.Tree? ==> PosInvAll(t.right.next) == (PosInv(t.right.next) && PosInvAll(t.right.next.next))
    ensures PosInvAll(Leaf)
  {}

  lemma {:induction false} PosInvIs(t: Tree, e: Expr)
    requires Encodes(t, e)
    ensures PosInv(t) == IsPositionFree(e)
    decreases e, 1
  {
    if Operator(t.info.kind) {
      PosInvOperator(t);
      PosInvIsOperator(t, e);
    }
  }

  lemma {:induction false} PosInvIsOperator(t: Tree, e: Expr)
    requires Encodes(t, e) && Operator(t.info.kind)
    ensures PosInv(t) == IsPositionFree(e)
    decreases e, 0
  {
    PosInvOperator(t);
    hide PosInv, PosInvAll, RetType;
    match e
    case Equal(l, r) =>
      PosInvIs(t.left, l);
      PosInvIs(t.right, r);
    case TranslateCall(arg, from, to) =>
      PosInvIs(t.left, arg);
      PosInvIs(t.right, from);
      PosInvIs(t.right.next, to);
    case Call(_, _, args) =>
      if args != [] {
        PosInvIs(t.left, args[0]);
        PosInvArgs(t.right, args, 1);
      }
    case Union(l, r) =>
      PosInvIs(t.left, l);
      PosInvIs(t.right, r);
    case TranslateTable(arg, _) =>
      PosInvIs(t.left, arg);
      StringsFree(t.right);
    case CompareAttribute(_, value) => PosInvIs(t.right, value);
  }

  lemma {:induction false} PosInvArgs(t: Tree, args: seq<Expr>, k: nat)
    requires EncodesArgs(t, args, k)
    ensures PosInvAll(t) <==> forall j :: k <= j < |args| ==> IsPositionFree(args[j])
    decreases args, 0, |args| - k
  {
    if k < |args| {
      PosInvIs(t, args[k]);
      PosInvArgs(t.next, args, k + 1);
    }
  }

  lemma {:induction false} StringsFree(t: Tree)
    requires AllStrings(t)
    ensures PosInvAll(t)
  {
    if t.Tree? { StringsFree(t.next); }
  }

  lemma {:induction false} PosInvStepIs(t: Tree, preds: seq<Pred>, k: nat)
    requires EncodesPreds(t, preds, k)
    ensures PosInvStep(t) <==> forall j :: k <= j < |preds| ==> preds[j].mode == PositionFree
    decreases |preds| - k
  {
    if k < |preds| { PosInvStepIs(t.next, preds, k + 1); }
  }

  /** The right operand of position() = e stands for e wherever it is put. */
  lemma DropIs(t: Tree, e: Expr)
    requires IsBracket(t) && Encodes(t.right, e)
    ensures IsBracket(DropPositionTree(t)) && Encodes(DropPositionTree(t).right, DropPosition(e))
    ensures DropPositionTree(t) == t.(right := DropPositionTree(t).right)
  {}

  lemma ClassIs(t: Tree, e: Expr)
    requires Encodes(t, e)
    ensures ClassOf(t) == Classify(e)
  {
    PosInvIs(t, e);
    hide PosInv, IsPositionFree;
  }

  /** A bracket whose expression is optimized is rewritten as the predicate is. */
  lemma BracketIs(t: Tree, e: Expr)
    requires IsBracket(t) && Encodes(t.right, e) && t.info.mode == Default
    ensures var s := SelfTree(t);
      && s.Tree? && s.info == t.info.(mode := OptimizePred(e).mode) && s.left == t.left && s.next == t.next
      && Encodes(s.right, OptimizePred(e).expr)
  {
    DropIs(t, e);
    var a := DropPositionTree(t);
    ClassIs(a.right, DropPosition(e));
    hide DropPositionTree, ClassOf, Classify, DropPosition, Encodes, PosInvStep, TableFor;
  }

  /** A node that is no bracket, its operands optimized. */
  lemma SelfIs(t: Tree, e: Expr)
    requires Encodes(t, e) && !e.Filter?
    ensures Encodes(SelfTree(t), OptimizeSelf(e))
  {
    hide DropPositionTree, ClassifyTree, MergeTree, TableTree, CompareTree, Encodes, OptimizeSelf;
    KindIs(t, e);
    NotBracket(t);
    if e.Step? {
      StepIsMerged(t, e);
    } else if e.TranslateCall? {
      TranslateIsTable(t, e);
    } else if e.Equal? {
      EqualIsCompare(t, e);
    } else {
      OthersStay(t);
      SelfStays(e);
    }
  }

  lemma SelfStays(e: Expr)
    requires !e.Step? && !e.TranslateCall? && !e.Equal?
    ensures OptimizeSelf(e) == e
  {}

  lemma KindIs(t: Tree, e: Expr)
    requires Encodes(t, e)
    ensures t.Tree? && (e.Filter? <==> t.info.kind == KFilter) && t.info.kind != KPredicate
    ensures (e.Step? <==> t.info.kind == KStep) && (e.TranslateCall? <==> t.info.kind == KTranslate) && (e.Equal? <==> t.info.kind == KEqual)
  {}

  lemma NotBracket(t: Tree)
    requires t.Tree? && t.info.kind != KFilter && t.info.kind != KPredicate
    ensures DropPositionTree(t) == t && ClassifyTree(t) == t
  {}

  lemma OthersStay(t: Tree)
    requires t.Tree? && t.info.kind != KStep && t.info.kind != KTranslate && t.info.kind != KEqual
    ensures MergeTree(t) == t && TableTree(t) == t && CompareTree(t) == t
  {}

  lemma StepParts(t: Tree, e: Expr)
    requires Encodes(t, e) && e.Step?
    ensures t.info.kind == KStep && t.info.axis == e.axis && t.info.test == e.test && t.info.ret == NodeSetType
    ensures if e.left.None? then t.left.Leaf? else Encodes(t.left, e.left.value) && t.left.Tree?
    ensures EncodesPreds(t.right, e.preds, 0) && (t.right.Leaf? <==> e.preds == [])
  {}

  lemma StepWhole(t: Tree, left: Option<Expr>, axis: Axis, test: Test, preds: seq<Pred>)
    requires t.Tree? && t.info.kind == KStep && t.info.axis == axis && t.info.test == test && t.info.ret == NodeSetType
    requires if left.None? then t.left.Leaf? else Encodes(t.left, left.value)
    requires EncodesPreds(t.right, preds, 0)
    ensures Encodes(t, Step(left, axis, test, preds))
  {}

  lemma StepIsMerged(t: Tree, e: Expr)
    requires Encodes(t, e) && e.Step?
    ensures TableTree(MergeTree(t)) == MergeTree(t) && CompareTree(MergeTree(t)) == MergeTree(t) && Encodes(MergeTree(t), OptimizeSelf(e))
  {
    StepParts(t, e);
    PosInvStepIs(t.right, e.preds, 0);
    if e.left.Some? {
      KindIs(t.left, e.left.value);
      if e.left.value.Step? { StepParts(t.left, e.left.value); }
    }
    hide PosInvStep, TableFor, Encodes;
    var m := MergeTree(t);
    if m != t {
      StepWhole(m, e.left.value.left, MergedAxis(e.axis), e.test, e.preds);
    }
  }

  lemma TranslateIsTable(t: Tree, e: Expr)
    requires Encodes(t, e) && e.TranslateCall?
    ensures MergeTree(t) == t && CompareTree(TableTree(t)) == TableTree(t) && Encodes(TableTree(t), OptimizeSelf(e))
  {
    StringIs(t.right, e.from);
    StringIs(t.right.next, e.to);
    hide TableFor;
    if t.right.info.kind == KString && t.right.next.info.kind == KString {
      assert AllStrings(t.right.next.next) && AllStrings(t.right.next);
    }
  }

  lemma StringIs(t: Tree, e: Expr)
    requires Encodes(t, e)
    ensures t.info.kind == KString <==> e.StringConst?
    ensures e.StringConst? ==> t.info.text == e.s
    ensures t.info.kind == KVariable <==> e.Variable?
    ensures t.info.ret == RetType(e)
  {}

  lemma EqualIsCompare(t: Tree, e: Expr)
    requires Encodes(t, e) && e.Equal?
    ensures MergeTree(t) == t && TableTree(t) == t && Encodes(CompareTree(t), OptimizeSelf(e))
  {
    KindIs(t.left, e.l);
    if e.l.Step? { StepParts(t.left, e.l); }
    StringIs(t.right, e.r);
    hide TableFor, PosInvStep;
  }

  /** Optimizing the linked form of e gives the linked form of e optimized. */
  lemma {:induction false} OptTreeIs(t: Tree, e: Expr)
    requires Encodes(t, e) && WellFormed(e)
    ensures Encodes(OptTree(t), Optimize(e)) && OptTree(t).next == OptTree(t.next)
    decreases e, 3
  {
    hide SelfTree, OptimizeSelf, WithOptimized, OptimizePred;
    var s := Tree(t.at, t.info, OptTree(t.left), OptTree(t.right), OptTree(t.next));
    SelfPlace(s);
    if e.Filter? {
      OptTreeIs(t.left, e.base);
      OptTreeIs(t.right, e.pred.expr);
      BracketIs(s, Optimize(e.pred.expr));
    } else {
      OperandsOpt(t, e);
      OptimizeParts(e);
      SelfIs(s, WithOptimized(e));
    }
  }

  /** e with its operands optimized. */
  function WithOptimized(e: Expr): Expr {
    match e
    case Equal(l, r) => Equal(Optimize(l), Optimize(r))
    case TranslateCall(arg, from, to) => TranslateCall(Optimize(arg), Optimize(from), Optimize(to))
    case Call(fn, ty, args) => Call(fn, ty, seq(|args|, k requires 0 <= k < |args| => Optimize(args[k])))
    case Step(left, axis, test, preds) =>
      Step(if left.None? then None else Some(Optimize(left.value)), axis, test,
           seq(|preds|, k requires 0 <= k < |preds| => OptimizePred(Optimize(preds[k].expr))))
    case Union(l, r) => Union(Optimize(l), Optimize(r))
    case _ => e
  }

  lemma OptimizeParts(e: Expr)
    requires !e.Filter?
    ensures Optimize(e) == OptimizeSelf(WithOptimized(e)) && RetType(WithOptimized(e)) == RetType(e)
    ensures WithOptimized(e).Filter? <==> e.Filter?
  {}

  lemma {:induction false} OperandsOpt(t: Tree, e: Expr)
    requires Encodes(t, e) && WellFormed(e) && !e.Filter?
    ensures Encodes(Tree(t.at, t.info, OptTree(t.left), OptTree(t.right), OptTree(t.next)), WithOptimized(e))
    decreases e, 2
  {
    hide SelfTree, OptimizeSelf, OptimizePred, RetType;
    OptimizeParts(e);
    match e
    case Equal(l, r) =>
      OptTreeIs(t.left, l);
      OptTreeIs(t.right, r);
    case TranslateCall(arg, from, to) =>
      OptTreeIs(t.left, arg);
      OptTreeIs(t.right, from);
      OptTreeIs(t.right.next, to);
    case Call(_, _, args) =>
      if args != [] {
        OptTreeIs(t.left, args[0]);
        OptArgs(t.right, args, 1);
      }
    case Step(left, _, _, preds) =>
      if left.Some? { OptTreeIs(t.left, left.value); }
      OptPreds(t.right, preds, 0);
    case Union(l, r) =>
      OptTreeIs(t.left, l);
      OptTreeIs(t.right, r);
    case _ =>
  }

  lemma {:induction false} OptArgs(t: Tree, args: seq<Expr>, k: nat)
    requires EncodesArgs(t, args, k) && forall j :: 0 <= j < |args| ==> WellFormed(args[j])
    ensures EncodesArgs(OptTree(t), seq(|args|, j requires 0 <= j < |args| => Optimize(args[j])), k)
    decreases args, 1, |args| - k
  {
    if k < |args| {
      OptTreeIs(t, args[k]);
      OptArgs(t.next, args, k + 1);
    }
  }

  lemma {:induction false} OptPreds(t: Tree, preds: seq<Pred>, k: nat)
    requires EncodesPreds(t, preds, k) && forall j :: 0 <= j < |preds| ==> preds[j].mode == Default && WellFormed(preds[j].expr)
    ensures EncodesPreds(OptTree(t), seq(|preds|, j requires 0 <= j < |preds| => OptimizePred(Optimize(preds[j].expr))), k)
    decreases preds, 1, |preds| - k
  {
    hide SelfTree;
    if k < |preds| {
      OptPred(t, preds[k]);
      OptPreds(t.next, preds, k + 1);
    }
  }

  lemma {:induction false} OptPred(t: Tree, p: Pred)
    requires t.Tree? && EncodesPred(t, p) && p.mode == Default && WellFormed(p.expr)
    ensures OptTree(t).Tree? && EncodesPred(OptTree(t), OptimizePred(Optimize(p.expr))) && OptTree(t).next == OptTree(t.next)
    decreases p, 2
  {
    hide SelfTree;
    OptTreeIs(t.right, p.expr);
    BracketIs(Tree(t.at, t.info, OptTree(t.left), OptTree(t.right), OptTree(t.next)), Optimize(p.expr));
  }

  // ----- in place -----

  /** One node written, its subtrees as they were. */
  lemma Rewritten(h: seq<Ast>, p: nat, a: Ast, t: Tree)
    requires p < |h| && t.Tree? && t.at == p && Proper(t) && a.info == t.info
    requires Linked(h, a.left, t.left) && Linked(h, a.right, t.right) && Linked(h, a.next, t.next)
    ensures Linked(h[p := a], p, t)
  {
    LinkedFrame(h, h[p := a], a.left, t.left);
    LinkedFrame(h, h[p := a], a.right, t.right);
    LinkedFrame(h, h[p := a], a.next, t.next);
  }

  /** What is known of one node. */
  lemma NodeAt(h: seq<Ast>, p: int, t: Tree)
    requires Linked(h, p, t)
    ensures p == NULL <==> t.Leaf?
    ensures t.Tree? ==> p == t.at < |h| && h[p].info == t.info
    ensures t.Tree? ==> Linked(h, h[p].left, t.left) && Linked(h, h[p].right, t.right) && Linked(h, h[p].next, t.next)
  {}

  lemma OperandsAt(t: Tree)
    requires t.Tree? && Proper(t)
    ensures Proper(t.left) && Proper(t.right) && Proper(t.next) && Operands(t.info.kind, t.left, t.right)
    ensures t.info.kind == KString ==> '\0' !in t.info.text
  {}

  /** A node and its operands. */
  lemma NodeAndOperands(h: seq<Ast>, p: int, t: Tree)
    requires t.Tree? && Linked(h, p, t) && Proper(t)
    ensures p == t.at < |h| && h[p].info == t.info
    ensures Linked(h, h[p].left, t.left) && Linked(h, h[p].right, t.right) && Linked(h, h[p].next, t.next)
    ensures Proper(t.left) && Proper(t.right) && Proper(t.next) && Operands(t.info.kind, t.left, t.right)
    ensures h[p].left == (if t.left.Tree? then t.left.at else NULL)
    ensures h[p].right == (if t.right.Tree? then t.right.at else NULL)
    ensures h[p].next == (if t.next.Tree? then t.next.at else NULL)
    ensures t.info.kind == KString ==> '\0' !in t.info.text
  {
    hide Linked, Proper;
    NodeAt(h, p, t);
    NodeAt(h, h[p].left, t.left);
    NodeAt(h, h[p].right, t.right);
    NodeAt(h, h[p].next, t.next);
    OperandsAt(t);
  }

  ghost predicate Elsewhere(h: seq<Ast>, h': seq<Ast>, s: set<nat>) {
    |h'| == |h| && forall q: nat :: q < |h| && q !in s ==> h'[q] == h[q]
  }

  lemma FrameElsewhere(h: seq<Ast>, h': seq<Ast>, s: set<nat>, p: int, t: Tree)
    requires Linked(h, p, t) && Elsewhere(h, h', s) && Foot(t) !! s
    ensures Linked(h', p, t)
  {
    LinkedFrame(h, h', p, t);
  }

  lemma ElsewhereThen(h0: seq<Ast>, h1: seq<Ast>, h2: seq<Ast>, s: set<nat>, s': set<nat>, all: set<nat>)
    requires Elsewhere(h0, h1, s) && Elsewhere(h1, h2, s') && s <= all && s' <= all
    ensures Elsewhere(h0, h2, all)
  {}

  lemma ElsewhereKept(h: seq<Ast>, h': seq<Ast>, s: set<nat>, p: nat)
    requires Elsewhere(h, h', s) && p < |h| && p !in s
    ensures p < |h'| && h'[p] == h[p]
  {}

  lemma Feet(t: Tree)
    requires t.Tree? && Proper(t)
    ensures t.at !in Foot(t.left) && t.at !in Foot(t.right) && t.at !in Foot(t.next)
    ensures Foot(t.left) !! Foot(t.right) && Foot(t.left) !! Foot(t.next) && Foot(t.right) !! Foot(t.next)
    ensures Foot(t.left) <= Foot(t) && Foot(t.right) <= Foot(t) && Foot(t.next) <= Foot(t) && t.at in Foot(t)
  {}

  lemma ElsewhereSame(h: seq<Ast>, s: set<nat>)
    ensures Elsewhere(h, h, {}) && Elsewhere(h, h, s)
  {}

  /** What the rest of a node's tree is like after its left operand is rewritten. */
  lemma Kept(h: seq<Ast>, h': seq<Ast>, s: set<nat>, t: Tree)
    requires t.Tree? && t.at < |h| && Elsewhere(h, h', s) && t.at !in s && Foot(t.right) !! s && Foot(t.next) !! s
    requires Linked(h, h[t.at].right, t.right) && Linked(h, h[t.at].next, t.next)
    ensures |h'| == |h| && h'[t.at] == h[t.at] && Linked(h', h'[t.at].right, t.right) && Linked(h', h'[t.at].next, t.next)
  {
    FrameElsewhere(h, h', s, h[t.at].right, t.right);
    FrameElsewhere(h, h', s, h[t.at].next, t.next);
  }

  lemma NothingLeft(t: Tree)
    ensures t.Leaf? ==> OptTree(t) == t
  {}

  /** A node whose operands and list are optimized. */
  lemma OptimizedAround(h: seq<Ast>, p: nat, t: Tree)
    requires t.Tree? && Proper(t) && t.at == p < |h| && h[p].info == t.info
    requires Linked(h, h[p].left, OptTree(t.left)) && Linked(h, h[p].right, OptTree(t.right)) && Linked(h, h[p].next, OptTree(t.next))
    ensures var s := Tree(p, t.info, OptTree(t.left), OptTree(t.right), OptTree(t.next));
            Linked(h, p, s) && Proper(s) && SelfTree(s) == OptTree(t)
  {
    hide SelfTree, Proper;
    AroundProper(t);
  }

  class Query {
    var nodes: seq<Ast>

    method IsPosInvExpr(p: nat, ghost t: Tree) returns (free: bool)
      requires t.Tree? && Linked(nodes, p, t)
      ensures free == PosInv(t)
      decreases t
    {
      var kind := nodes[p].info.kind;
      if kind == KPosition || kind == KLast {
        return false;
      }
      if kind == KString || kind == KNumber || kind == KVariable || kind == KStep || kind == KRoot || kind == KPredicate || kind == KFilter {
        return true;
      }
      if nodes[p].left != NULL {
        free := IsPosInvExpr(nodes[p].left, t.left);
        if !free {
          return;
        }
      }
      var n := nodes[p].right;
      ghost var rest := t.right;
      while n != NULL
        invariant Linked(nodes, n, rest) && rest < t && PosInvAll(t.right) == PosInvAll(rest)
        decreases rest
      {
        free := IsPosInvExpr(n, rest);
        if !free {
          return;
        }
        n := nodes[n].next;
        rest := rest.next;
      }
      return true;
    }

    method IsPosInvStep(p: nat, ghost t: Tree) returns (free: bool)
      requires t.Tree? && Linked(nodes, p, t)
      ensures free == PosInvStep(t.right)
    {
      var n := nodes[p].right;
      ghost var rest := t.right;
      while n != NULL
        invariant Linked(nodes, n, rest) && PosInvStep(t.right) == PosInvStep(rest)
        decreases rest
      {
        if nodes[n].info.mode != PositionFree {
          return false;
        }
        n := nodes[n].next;
        rest := rest.next;
      }
      return true;
    }

    /** [position()=e] becomes [e]. */
    method DropPosition(p: nat, ghost t: Tree)
      requires t.Tree? && Linked(nodes, p, t) && Proper(t)
      modifies this
      ensures Elsewhere(old(nodes), nodes, {p}) && Linked(nodes, p, DropPositionTree(t))
    {
      hide Linked, Proper;
      NodeAndOperands(nodes, p, t);
      DropProper(t);
      var a := nodes[p];
      if (a.info.kind == KFilter || a.info.kind == KPredicate) && a.right != NULL {
        NodeAndOperands(nodes, a.right, t.right);
        var r := nodes[a.right];
        if r.info.kind == KEqual {
          NodeAndOperands(nodes, r.left, t.right.left);
          NodeAndOperands(nodes, r.right, t.right.right);
        }
        if r.info.kind == KEqual && nodes[r.left].info.kind == KPosition && nodes[r.right].info.ret == NumberType {
          Rewritten(nodes, p, a.(right := r.right), DropPositionTree(t));
          nodes := nodes[p := a.(right := r.right)];
        }
      }
    }

    /** Brackets are classified once. */
    method Classify(p: nat, ghost t: Tree)
      requires t.Tree? && Linked(nodes, p, t) && Proper(t)
      modifies this
      ensures Elsewhere(old(nodes), nodes, {p}) && Linked(nodes, p, ClassifyTree(t))
    {
      hide Linked, Proper, PosInv;
      NodeAndOperands(nodes, p, t);
      RelabelProper(t);
      var a := nodes[p];
      if (a.info.kind == KFilter || a.info.kind == KPredicate) && a.right != NULL {
        NodeAndOperands(nodes, a.right, t.right);
        var r := nodes[a.right].info;
        var free := IsPosInvExpr(a.right, t.right);
        var mode := a.info.mode;
        if r.kind == KNumber && r.number == Finite(1.0) {
          mode := Constant;
        } else if r.ret == NumberType && (r.kind == KNumber || r.kind == KVariable || r.kind == KLast) {
          mode := Constant;
        } else if r.ret != NumberType && free {
          mode := PositionFree;
        }
        Rewritten(nodes, p, a.(info := a.info.(mode := mode)), ClassifyTree(t));
        nodes := nodes[p := a.(info := a.info.(mode := mode))];
      }
    }

    /** descendant-or-self::node() in front of a step goes into its axis. */
    method Merge(p: nat, ghost t: Tree)
      requires t.Tree? && Linked(nodes, p, t) && Proper(t)
      modifies this
      ensures Elsewhere(old(nodes), nodes, {p}) && Linked(nodes, p, MergeTree(t))
    {
      hide Linked, Proper, PosInvStep, Mergeable, MergedAxis;
      NodeAndOperands(nodes, p, t);
      MergeProper(t);
      var a := nodes[p];
      if a.info.kind == KStep && Mergeable(a.info.axis) && a.left != NULL {
        NodeAndOperands(nodes, a.left, t.left);
        var l := nodes[a.left];
        var free := IsPosInvStep(p, t);
        if l.info.kind == KStep && l.info.axis == DescendantOrSelf && l.info.test == AnyNode && l.right == NULL && free {
          var b := a.(info := a.info.(axis := MergedAxis(a.info.axis)), left := l.left);
          Rewritten(nodes, p, b, MergeTree(t));
          nodes := nodes[p := b];
        }
      }
    }

    /** translate() with constant tables is looked up. */
    method UseTable(p: nat, ghost t: Tree)
      requires t.Tree? && Linked(nodes, p, t) && Proper(t)
      modifies this
      ensures Elsewhere(old(nodes), nodes, {p}) && Linked(nodes, p, TableTree(t))
    {
      hide Linked, Proper, TableFor;
      NodeAndOperands(nodes, p, t);
      RelabelProper(t);
      var a := nodes[p];
      if a.info.kind == KTranslate {
        NodeAndOperands(nodes, a.right, t.right);
        NodeAndOperands(nodes, nodes[a.right].next, t.right.next);
      }
      if a.info.kind == KTranslate && a.right != NULL && nodes[a.right].info.kind == KString
         && nodes[nodes[a.right].next].info.kind == KString {
        var table := TranslateTableGenerate(nodes[a.right].info.text, nodes[nodes[a.right].next].info.text);
        if table.Some? {
          var b := a.(info := a.info.(kind := KTranslateTable, table := table.value));
          Rewritten(nodes, p, b, TableTree(t));
          nodes := nodes[p := b];
        }
      }
    }

    /** @a = 'v' is looked up on the node. */
    method CompareFast(p: nat, ghost t: Tree)
      requires t.Tree? && Linked(nodes, p, t) && Proper(t)
      modifies this
      ensures Elsewhere(old(nodes), nodes, {p}) && Linked(nodes, p, CompareTree(t))
    {
      hide Linked, Proper;
      NodeAndOperands(nodes, p, t);
      RelabelProper(t);
      var a := nodes[p];
      if a.info.kind == KEqual && a.left != NULL && a.right != NULL {
        NodeAndOperands(nodes, a.left, t.left);
        NodeAndOperands(nodes, a.right, t.right);
        var l, r := nodes[a.left], nodes[a.right];
        if l.info.kind == KStep && l.info.axis == Attribute && l.info.test.NameTest? && l.left == NULL && l.right == NULL
           && (r.info.kind == KString || (r.info.kind == KVariable && r.info.ret == StringType)) {
          var b := a.(info := a.info.(kind := KCompareAttribute));
          Rewritten(nodes, p, b, CompareTree(t));
          nodes := nodes[p := b];
        }
      }
    }

    method OptimizeSelf(p: nat, ghost t: Tree)
      requires t.Tree? && Linked(nodes, p, t) && Proper(t)
      modifies this
      ensures Elsewhere(old(nodes), nodes, {p}) && Linked(nodes, p, SelfTree(t))
    {
      hide Linked, Proper, DropPositionTree, ClassifyTree, MergeTree, TableTree, CompareTree;
      ghost var a := DropPositionTree(t);
      ghost var b := ClassifyTree(a);
      ghost var c := MergeTree(b);
      ghost var d := TableTree(c);
      StagesProper(t);
      DropPosition(p, t);
      Classify(p, a);
      Merge(p, b);
      UseTable(p, c);
      CompareFast(p, d);
    }

    /** Operands and list first, then the node itself. */
    method Optimize(p: nat, ghost t: Tree)
      requires t.Tree? && Linked(nodes, p, t) && Proper(t)
      modifies this
      ensures Elsewhere(old(nodes), nodes, Foot(t)) && Linked(nodes, p, OptTree(t))
      decreases t
    {
      hide Linked, Proper, SelfTree, OptTree, Foot, Elsewhere;
      ghost var h := nodes;
      NodeAndOperands(h, p, t);
      Feet(t);
      OptProper(t.left);
      OptProper(t.right);
      ElsewhereSame(h, Foot(t));
      if nodes[p].left != NULL {
        Optimize(nodes[p].left, t.left);
        Kept(h, nodes, Foot(t.left), t);
        ElsewhereThen(h, h, nodes, {}, Foot(t.left), Foot(t));
      }
      ghost var h1 := nodes;
      NothingLeft(t.left);
      if nodes[p].right != NULL {
        Optimize(nodes[p].right, t.right);
        ElsewhereKept(h1, nodes, Foot(t.right), p);
        FrameElsewhere(h1, nodes, Foot(t.right), h1[p].next, t.next);
        FrameElsewhere(h1, nodes, Foot(t.right), h1[p].left, OptTree(t.left));
        ElsewhereThen(h, h1, nodes, Foot(t), Foot(t.right), Foot(t));
      }
      ghost var h2 := nodes;
      NothingLeft(t.right);
      if nodes[p].next != NULL {
        Optimize(nodes[p].next, t.next);
        ElsewhereKept(h2, nodes, Foot(t.next), p);
        FrameElsewhere(h2, nodes, Foot(t.next), h2[p].left, OptTree(t.left));
        FrameElsewhere(h2, nodes, Foot(t.next), h2[p].right, OptTree(t.right));
        ElsewhereThen(h, h2, nodes, Foot(t), Foot(t.next), Foot(t));
      }
      NothingLeft(t.next);
      OptimizedAround(nodes, p, t);
      ghost var h3 := nodes;
      OptimizeSelf(p, Tree(p, t.info, OptTree(t.left), OptTree(t.right), OptTree(t.next)));
      ElsewhereThen(h, h3, nodes, Foot(t), {p}, Foot(t));
    }

    /** The whole query: optimized where it is, it is the linked form of the optimized expression, and evaluates to the same. */
    method OptimizeQuery(p: nat, ghost t: Tree, ghost e: Expr)
      requires t.Tree? && Linked(nodes, p, t) && Proper(t) && Encodes(t, e) && WellFormed(e)
      modifies this
      ensures Linked(nodes, p, OptTree(t)) && Encodes(OptTree(t), XPathOptimizer.Optimize(e))
      ensures forall w: World, c: Context :: GoodWorld(w) ==> Eval(w, XPathOptimizer.Optimize(e), c) == Eval(w, e, c)
    {
      hide *;
      Optimize(p, t);
      OptTreeIs(t, e);
      forall w: World, c: Context | GoodWorld(w) ensures Eval(w, XPathOptimizer.Optimize(e), c) == Eval(w, e, c) {
        OptimizePreserves(w, e, c);
      }
    }
  }

  lemma StagesProper(t: Tree)
    requires t.Tree? && Proper(t)
    ensures var a := DropPositionTree(t); var b := ClassifyTree(a); var c := MergeTree(b); var d := TableTree(c);
      && a.Tree? && b.Tree? && c.Tree? && d.Tree? && Proper(a) && Proper(b) && Proper(c) && Proper(d)
  {
    var a := DropPositionTree(t);
    var b := ClassifyTree(a);
    var c := MergeTree(b);
    DropProper(t);
    RelabelProper(a);
    MergeProper(b);
    RelabelProper(c);
    StagesPlace(t);
  }

  lemma StagesPlace(t: Tree)
    requires t.Tree?
    ensures var a := DropPositionTree(t); var b := ClassifyTree(a); var c := MergeTree(b); var d := TableTree(c);
      a.Tree? && b.Tree? && c.Tree? && d.Tree?
  {
    hide ClassOf, TableFor, PosInvStep;
  }
}
