/** Conditions as they can be written, NOT, a minus sign in front, a single equals sign and qualified
    names included, and exactly when compiling and running one keeps its meaning. */
module Conditions {
  import opened Tokens
  import opened ShuntingYard

  /** A written condition: Group stands for a pair of parentheses in the text, Infix for a single
      equals sign or the dot of a qualified name. */
  datatype Cond =
    | Atom(tok: Token)
    | Combine(op: Token, left: Cond, right: Cond)
    | Group(inner: Cond)
    | Prefix(kw: Token, operand: Cond)
    | Infix(mark: Token, before: Cond, after: Cond)

  predicate IsMark(tok: Token) {
    tok.typ == ASSIGN || tok.typ == DOT
  }

  predicate IsCondition(c: Cond) {
    match c
    case Atom(tok) => tok.IsOperand()
    case Combine(op, l, r) => op.IsOperator() && IsCondition(l) && IsCondition(r)
    case Group(x) => IsCondition(x)
    case Prefix(kw, x) => (kw.typ == NOT || kw.typ == MINUS) && IsCondition(x)
    case Infix(mark, l, r) => IsMark(mark) && IsCondition(l) && IsCondition(r)
  }

  function CondText(c: Cond): seq<Token> {
    match c
    case Atom(tok) => [tok]
    case Combine(op, l, r) => CondText(l) + [op] + CondText(r)
    case Group(x) => [OPEN] + CondText(x) + [CLOSE]
    case Prefix(kw, x) => [kw] + CondText(x)
    case Infix(mark, l, r) => CondText(l) + [mark] + CondText(r)
  }

  /** What was meant, for a meaning of the leaves, of the operators with the equals sign and the
      dot among them, and of the prefixes NOT and minus. */
  function Meant<V>(c: Cond, leaf: Token -> V, apply: (Token, V, V) -> V, prefix: (Token, V) -> V): V {
    match c
    case Atom(tok) => leaf(tok)
    case Combine(op, l, r) => apply(op, Meant(l, leaf, apply, prefix), Meant(r, leaf, apply, prefix))
    case Group(x) => Meant(x, leaf, apply, prefix)
    case Prefix(kw, x) => prefix(kw, Meant(x, leaf, apply, prefix))
    case Infix(mark, l, r) => apply(mark, Meant(l, leaf, apply, prefix), Meant(r, leaf, apply, prefix))
  }

  /** Running the code leaves what was meant by the condition, and nothing else. */
  ghost predicate Keeps<V>(post: seq<Token>, c: Cond, leaf: Token -> V, apply: (Token, V, V) -> V,
                           prefix: (Token, V) -> V)
  {
    Evaluate(post, leaf, apply, []) == Values([Meant(c, leaf, apply, prefix)])
  }

  /** The code keeps the condition's meaning under all meanings of leaves, operators and prefixes. */
  ghost predicate KeepsAll(post: seq<Token>, c: Cond) {
    forall leaf: Token -> Cond, apply: (Token, Cond, Cond) -> Cond, prefix: (Token, Cond) -> Cond ::
      Keeps(post, c, leaf, apply, prefix)
  }

  function Compiled(c: Cond): seq<Token> {
    Postfix(CondText(c))
  }

  /** No NOT, no minus sign in front of an operand, no single equals sign and no qualified name. */
  predicate Plain(c: Cond) {
    match c
    case Atom(_) => true
    case Combine(_, l, r) => Plain(l) && Plain(r)
    case Group(x) => Plain(x)
    case Prefix(_, _) => false
    case Infix(_, _, _) => false
  }

  function AsExpr(c: Cond): Expr
    requires Plain(c)
  {
    match c
    case Atom(tok) => Leaf(tok)
    case Combine(op, l, r) => Bin(op, AsExpr(l), AsExpr(r))
    case Group(x) => Paren(AsExpr(x))
  }

  // ---------- plain conditions ----------

  lemma {:induction false} PlainIsExpr(c: Cond)
    requires IsCondition(c) && Plain(c)
    ensures WellFormed(AsExpr(c)) && CondText(c) == Flat(AsExpr(c))
  {
    match c
    case Atom(_) =>
    case Combine(_, l, r) =>
      PlainIsExpr(l);
      PlainIsExpr(r);
    case Group(x) =>
      PlainIsExpr(x);
  }

  lemma {:induction false} PlainMeansValue<V>(c: Cond, leaf: Token -> V, apply: (Token, V, V) -> V,
                                              prefix: (Token, V) -> V)
    requires Plain(c)
    ensures Meant(c, leaf, apply, prefix) == Value(AsExpr(c), leaf, apply)
  {
    match c
    case Atom(_) =>
    case Combine(_, l, r) =>
      PlainMeansValue(l, leaf, apply, prefix);
      PlainMeansValue(r, leaf, apply, prefix);
    case Group(x) =>
      PlainMeansValue(x, leaf, apply, prefix);
  }

  // ---------- a meaning that tells all conditions apart ----------

  function FreeLeaf(): Token -> Cond {
    (t: Token) => Atom(t)
  }

  function FreeApply(): (Token, Cond, Cond) -> Cond {
    (t: Token, l: Cond, r: Cond) => if IsMark(t) then Infix(t, l, r) else Combine(t, l, r)
  }

  function FreePrefix(): (Token, Cond) -> Cond {
    (t: Token, c: Cond) => Prefix(t, c)
  }

  /** Its meanings show whether a prefix or a mark was written. */
  lemma {:induction false} FreeMeantPlain(c: Cond)
    requires IsCondition(c)
    ensures Plain(Meant(c, FreeLeaf(), FreeApply(), FreePrefix())) <==> Plain(c)
  {
    match c
    case Atom(_) =>
    case Combine(_, l, r) =>
      FreeMeantPlain(l);
      FreeMeantPlain(r);
    case Group(x) =>
      FreeMeantPlain(x);
    case Prefix(_, _) =>
    case Infix(_, _, _) =>
  }

  lemma {:induction false} FreeValueBare(e: Expr)
    requires WellFormed(e)
    ensures var v := Value(e, FreeLeaf(), FreeApply()); Plain(v) && AsExpr(v) == Bare(e)
  {
    match e
    case Leaf(_) =>
    case Bin(_, l, r) =>
      FreeValueBare(l);
      FreeValueBare(r);
    case Paren(x) =>
      FreeValueBare(x);
  }

  predicate AllPlain(stack: seq<Cond>) {
    forall i :: 0 <= i < |stack| ==> Plain(stack[i])
  }

  /** The evaluator applies operators only, so no prefix and no mark comes out of it. */
  lemma {:induction false} FreeRunIsPlain(post: seq<Token>, stack: seq<Cond>)
    requires AllPlain(stack)
    ensures var o := Evaluate(post, FreeLeaf(), FreeApply(), stack); o.Values? ==> AllPlain(o.stack)
    decreases |post|
  {
    if post != [] {
      var tok, n := post[0], |stack|;
      if tok.IsOperand() {
        FreeRunIsPlain(post[1..], stack + [FreeLeaf()(tok)]);
      } else if !tok.IsOperator() {
        FreeRunIsPlain(post[1..], stack);
      } else if n >= 2 {
        FreeRunIsPlain(post[1..], stack[..n - 2] + [FreeApply()(tok, stack[n - 2], stack[n - 1])]);
      }
    }
  }

  // ---------- the main results ----------

  /** A sufficiently parenthesised condition without prefixes and marks keeps its
      meaning, whatever the operators mean. */
  lemma MeaningKept<V>(c: Cond, leaf: Token -> V, apply: (Token, V, V) -> V, prefix: (Token, V) -> V)
    requires IsCondition(c) && Plain(c) && Sufficient(AsExpr(c))
    ensures Keeps(Compiled(c), c, leaf, apply, prefix)
  {
    PlainIsExpr(c);
    PlainMeansValue(c, leaf, apply, prefix);
    MeaningPreserved(AsExpr(c), leaf, apply);
  }

  /** The last value a run leaves, if it leaves any, is not v. */
  ghost predicate EndsElsewhere<V>(outcome: Outcome<V>, v: V) {
    outcome.Values? && outcome.stack != [] ==> outcome.stack[|outcome.stack| - 1] != v
  }

  /** Every other condition loses it under the meaning that tells all conditions apart: what was
      meant does not even come out last. */
  lemma MeaningNotKept(c: Cond)
    requires IsCondition(c) && !(Plain(c) && Sufficient(AsExpr(c)))
    ensures EndsElsewhere(Evaluate(Compiled(c), FreeLeaf(), FreeApply(), []),
                          Meant(c, FreeLeaf(), FreeApply(), FreePrefix()))
    ensures !Keeps(Compiled(c), c, FreeLeaf(), FreeApply(), FreePrefix())
  {
    if Plain(c) {
      var e, f := AsExpr(c), Reparse(AsExpr(c));
      PlainIsExpr(c);
      PlainMeansValue(c, FreeLeaf(), FreeApply(), FreePrefix());
      ReparseIsSufficient(e);
      MeaningPreserved(f, FreeLeaf(), FreeApply());
      FreeValueBare(e);
      FreeValueBare(f);
      if Bare(e) == Bare(f) {
        SameTextSameTree(e, f);
      }
    } else {
      FreeRunIsPlain(Postfix(CondText(c)), []);
      FreeMeantPlain(c);
      var v := Meant(c, FreeLeaf(), FreeApply(), FreePrefix());
      assert [v][0] == v;
    }
  }

  /** A written condition keeps its meaning under all meanings of leaves, operators and prefixes if
      and only if it has no NOT, no minus sign in front of an operand, no single equals sign, no
      qualified name, and enough parentheses. */
  lemma MeaningKeptExactly(c: Cond)
    requires IsCondition(c)
    ensures KeepsAll(Compiled(c), c) <==> Plain(c) && Sufficient(AsExpr(c))
  {
    if Plain(c) && Sufficient(AsExpr(c)) {
      forall leaf: Token -> Cond, apply: (Token, Cond, Cond) -> Cond, prefix: (Token, Cond) -> Cond
        ensures Keeps(Compiled(c), c, leaf, apply, prefix)
      {
        MeaningKept(c, leaf, apply, prefix);
      }
    } else {
      MeaningNotKept(c);
    }
  }

  /** A row's verdict is whether what was meant is true. */
  ghost predicate Decides<V>(post: seq<Token>, c: Cond, leaf: Token -> V, apply: (Token, V, V) -> V,
                             prefix: (Token, V) -> V, truth: V -> bool)
  {
    Passes(Evaluate(post, leaf, apply, []), truth) == truth(Meant(c, leaf, apply, prefix))
  }

  ghost predicate DecidesAll(post: seq<Token>, c: Cond) {
    forall leaf: Token -> Cond, apply: (Token, Cond, Cond) -> Cond, prefix: (Token, Cond) -> Cond,
           truth: Cond -> bool ::
      Decides(post, c, leaf, apply, prefix, truth)
  }

  /** The verdict on a row is right under all meanings of leaves, operators, prefixes and truth under
      exactly the same condition. */
  lemma VerdictRightExactly(c: Cond)
    requires IsCondition(c)
    ensures DecidesAll(Compiled(c), c) <==> Plain(c) && Sufficient(AsExpr(c))
  {
    if Plain(c) && Sufficient(AsExpr(c)) {
      forall leaf: Token -> Cond, apply: (Token, Cond, Cond) -> Cond, prefix: (Token, Cond) -> Cond,
             truth: Cond -> bool
        ensures Decides(Compiled(c), c, leaf, apply, prefix, truth)
      {
        MeaningKept(c, leaf, apply, prefix);
      }
    } else {
      VerdictWrong(c);
    }
  }

  /** Some truth tells what was meant from what came out. */
  lemma VerdictWrong(c: Cond)
    requires IsCondition(c) && !(Plain(c) && Sufficient(AsExpr(c)))
    ensures !DecidesAll(Compiled(c), c)
  {
    hide Evaluate, Meant, Compiled;
    MeaningNotKept(c);
    var m, o := Meant(c, FreeLeaf(), FreeApply(), FreePrefix()), Evaluate(Compiled(c), FreeLeaf(), FreeApply(), []);
    var truth := (v: Cond) => (v == m) != (o.Values? && o.stack == []);
    assert !Decides(Compiled(c), c, FreeLeaf(), FreeApply(), FreePrefix(), truth);
  }

  // ---------- what happens instead ----------

  /** A negated condition passes exactly the rows it was meant to refuse. */
  lemma NegationPassesTheOpposite<V>(kw: Token, e: Expr, leaf: Token -> V, apply: (Token, V, V) -> V, truth: V -> bool)
    requires kw.typ == NOT && WellFormed(e) && Sufficient(e)
    ensures Passes(Evaluate(Postfix([kw] + Flat(e)), leaf, apply, []), truth) == truth(Value(e, leaf, apply))
  {
    NotIsDropped([], kw, Flat(e));
    assert [] + [kw] + Flat(e) == [kw] + Flat(e) && [] + Flat(e) == Flat(e);
    MeaningPreserved(e, leaf, apply);
  }

  lemma EqualsPostfix(x: Token, eq: Token, e: Expr)
    requires x.IsOperand() && eq.typ == ASSIGN && WellFormed(e) && Sufficient(e)
    ensures Postfix([x, eq] + Flat(e)) == [x] + PostOrder(e)
  {
    hide PopWhile, FeedAll, Done, Pending, PostOrder, Flat;
    NotIsDropped([x], eq, Flat(e));
    assert [x] + [eq] + Flat(e) == [x, eq] + Flat(e);
    FeedOperandFirst(x, Flat(e));
    ReadsExpr(e, Yard([], [x]), if e.Bin? then e.op.Precedence() else 0);
    PopsRun([], Pending(e), [x] + Done(e), Anything());
    DonePlusPending(e);
    Assoc([x], Done(e), Reversed(Pending(e)));
  }

  lemma FeedOperandFirst(x: Token, toks: seq<Token>)
    requires x.IsOperand()
    ensures FeedAll(Yard([], []), [x] + toks) == FeedAll(Yard([], [x]), toks)
  {
    FeedConcat(Yard([], []), [x], toks);
    FeedOne(Yard([], []), x);
    assert [] + [x] == [x];
  }

  /** A column set equal to an expression leaves two values, of which the last decides: the
      column is not looked at. */
  lemma EqualsIgnoresTheColumn<V>(x: Token, eq: Token, e: Expr, leaf: Token -> V, apply: (Token, V, V) -> V,
                                  truth: V -> bool)
    requires x.IsOperand() && eq.typ == ASSIGN && WellFormed(e) && Sufficient(e)
    ensures Evaluate(Postfix([x, eq] + Flat(e)), leaf, apply, []) == Values([leaf(x), Value(e, leaf, apply)])
    ensures Passes(Evaluate(Postfix([x, eq] + Flat(e)), leaf, apply, []), truth) == truth(Value(e, leaf, apply))
  {
    EqualsPostfix(x, eq, e);
    LeafThenTree(x, e, leaf, apply);
  }

  lemma LeafThenTree<V>(x: Token, e: Expr, leaf: Token -> V, apply: (Token, V, V) -> V)
    requires x.IsOperand() && WellFormed(e)
    ensures Evaluate([x] + PostOrder(e), leaf, apply, []) == Values([leaf(x), Value(e, leaf, apply)])
  {
    EvaluateTree(e, [], leaf, apply, [leaf(x)]);
    assert PostOrder(e) + [] == PostOrder(e);
    assert ([x] + PostOrder(e))[1..] == PostOrder(e) && [] + [leaf(x)] == [leaf(x)];
  }

  /** NOT x passes the rows where x is true. */
  lemma NotWitness<V>(x: Token, leaf: Token -> V, apply: (Token, V, V) -> V, truth: V -> bool)
    requires x.IsOperand()
    ensures var kw := Token(NOT, "NOT");
      && CondText(Prefix(kw, Atom(x))) == [kw, x]
      && Passes(Evaluate(Postfix([kw, x]), leaf, apply, []), truth) == truth(leaf(x))
      && !KeepsAll(Compiled(Prefix(kw, Atom(x))), Prefix(kw, Atom(x)))
  {
    hide Postfix, Evaluate, KeepsAll;
    var kw := Token(NOT, "NOT");
    NegationPassesTheOpposite(kw, Leaf(x), leaf, apply, truth);
    assert [kw] + Flat(Leaf(x)) == [kw, x];
    MeaningKeptExactly(Prefix(kw, Atom(x)));
  }

  /** x = c passes the rows where c is true, whatever x is. */
  lemma EqualsWitness<V>(x: Token, c: Token, leaf: Token -> V, apply: (Token, V, V) -> V, truth: V -> bool)
    requires x.IsOperand() && c.IsOperand()
    ensures var eq := Token(ASSIGN, "=");
      && CondText(Infix(eq, Atom(x), Atom(c))) == [x, eq, c]
      && Passes(Evaluate(Postfix([x, eq, c]), leaf, apply, []), truth) == truth(leaf(c))
      && !KeepsAll(Compiled(Infix(eq, Atom(x), Atom(c))), Infix(eq, Atom(x), Atom(c)))
  {
    hide Postfix, Evaluate, KeepsAll;
    var eq := Token(ASSIGN, "=");
    EqualsIgnoresTheColumn(x, eq, Leaf(c), leaf, apply, truth);
    assert [x, eq] + Flat(Leaf(c)) == [x, eq, c];
    MeaningKeptExactly(Infix(eq, Atom(x), Atom(c)));
  }

  /** So between rows that give c the same value, as every two rows do when c is a constant, x = c
      does not tell. */
  lemma EqualsTellsNoRowsApart<V>(x: Token, c: Token, leaf: Token -> V, leaf': Token -> V, apply: (Token, V, V) -> V,
                                  truth: V -> bool)
    requires x.IsOperand() && c.IsOperand() && leaf(c) == leaf'(c)
    ensures var post := Postfix([x, Token(ASSIGN, "="), c]);
      Passes(Evaluate(post, leaf, apply, []), truth) == Passes(Evaluate(post, leaf', apply, []), truth)
  {
    hide Postfix, Evaluate;
    EqualsWitness(x, c, leaf, apply, truth);
    EqualsWitness(x, c, leaf', apply, truth);
  }

  lemma FeedFour(y: Yard, a: Token, b: Token, c: Token, d: Token)
    ensures FeedAll(y, [a, b, c, d]) == Feed(Feed(Feed(Feed(y, a), b), c), d)
  {
    hide Feed;
    assert [a, b, c, d][1..] == [b, c, d] && [b, c, d][1..] == [c, d] && [c, d][1..] == [d];
    FeedOne(Feed(Feed(Feed(y, a), b), c), d);
    assert FeedAll(Feed(Feed(y, a), b), [c, d]) == FeedAll(Feed(Feed(Feed(y, a), b), c), [d]);
  }

  lemma MinusPostfix(x: Token, cmp: Token, minus: Token, c: Token)
    requires x.IsOperand() && c.IsOperand() && minus.typ == MINUS && InLayer(cmp.typ, 3)
    ensures Postfix([x, cmp, minus, c]) == [x, c, minus, cmp]
  {
    hide Feed, FeedAll, PopWhile;
    LayerOfOperator(cmp, 3);
    FeedFour(Yard([], []), x, cmp, minus, c);
    FeedLeaf(Yard([], []), x);
    FeedHeld(Yard([], [] + [x]), cmp);
    FeedHeld(Yard([] + [cmp], [] + [x]), minus);
    FeedLeaf(Yard([] + [cmp] + [minus], [] + [x]), c);
    assert [] + [cmp] + [minus] == [] + [cmp, minus];
    PopsRun([], [cmp, minus], [] + [x] + [c], Anything());
    ReversedTwo(cmp, minus);
    assert [] + [x] + [c] + [minus, cmp] == [x, c, minus, cmp];
  }

  lemma ReversedTwo(a: Token, b: Token)
    ensures Reversed([a, b]) == [b, a]
  {
    assert [a, b][1..] == [b];
    assert Reversed([b]) == [] + [b];
  }

  lemma FeedLeaf(y: Yard, x: Token)
    requires x.IsOperand()
    ensures Feed(y, x) == Yard(y.stack, y.out + [x])
  {
  }

  /** An operator that binds tighter than the top of the stack is pushed onto it. */
  lemma FeedHeld(y: Yard, op: Token)
    requires op.IsOperator() && (y.stack != [] ==> y.stack[|y.stack| - 1].Precedence() < op.Precedence())
    ensures Feed(y, op) == Yard(y.stack + [op], y.out)
  {
    FeedOperator(y, op);
    if y.stack != [] {
      YieldsByPrecedence(y.stack[|y.stack| - 1], op);
    }
  }

  /** Two values for two operators: the second one finds too few. */
  lemma TwoOperatorsUnderflow<V>(x: Token, c: Token, op: Token, op': Token, leaf: Token -> V,
                                 apply: (Token, V, V) -> V)
    requires x.IsOperand() && c.IsOperand() && op.IsOperator() && op'.IsOperator()
    ensures Evaluate([x, c, op, op'], leaf, apply, []) == Underflow
  {
    var e := Bin(op, Leaf(x), Leaf(c));
    assert PostOrder(e) == [x] + [c] + [op];
    assert PostOrder(e) + [op'] == [x, c, op, op'];
    hide PostOrder, Value, Evaluate;
    EvaluateTree(e, [op'], leaf, apply, []);
    OneValueUnderflows(op', Value(e, leaf, apply), leaf, apply);
  }

  lemma OneValueUnderflows<V>(op: Token, v: V, leaf: Token -> V, apply: (Token, V, V) -> V)
    requires op.IsOperator()
    ensures Evaluate([op], leaf, apply, [] + [v]) == Underflow
  {
  }

  /** x compared with a negative number passes no row: the minus sign takes x for its left operand
      and leaves the comparison one value short. */
  lemma MinusWitness<V>(x: Token, cmp: Token, minus: Token, c: Token, leaf: Token -> V, apply: (Token, V, V) -> V,
                        truth: V -> bool)
    requires x.IsOperand() && c.IsOperand() && minus.typ == MINUS && InLayer(cmp.typ, 3)
    ensures var cond := Combine(cmp, Atom(x), Prefix(minus, Atom(c)));
      && CondText(cond) == [x, cmp, minus, c]
      && !Passes(Evaluate(Postfix([x, cmp, minus, c]), leaf, apply, []), truth)
      && !KeepsAll(Compiled(cond), cond)
  {
    hide KeepsAll, Postfix, Evaluate;
    var cond := Combine(cmp, Atom(x), Prefix(minus, Atom(c)));
    assert CondText(Prefix(minus, Atom(c))) == [minus, c];
    assert [x] + [cmp] + [minus, c] == [x, cmp, minus, c];
    LayerOfOperator(cmp, 3);
    MinusPostfix(x, cmp, minus, c);
    TwoOperatorsUnderflow(x, c, minus, cmp, leaf, apply);
    MeaningKeptExactly(cond);
  }

  lemma DotPostfix(x: Token, op: Token, t: Token, dot: Token, a: Token)
    requires x.IsOperand() && t.IsOperand() && a.IsOperand() && op.IsOperator() && dot.typ == DOT
    ensures Postfix([x, op, t, dot, a]) == [x, t, a, op]
  {
    hide Feed, FeedAll, PopWhile;
    NotIsDropped([x, op, t], dot, [a]);
    assert [x, op, t] + [dot] + [a] == [x, op, t, dot, a] && [x, op, t] + [a] == [x, op, t, a];
    FeedFour(Yard([], []), x, op, t, a);
    FeedLeaf(Yard([], []), x);
    FeedHeld(Yard([], [] + [x]), op);
    FeedLeaf(Yard([] + [op], [] + [x]), t);
    FeedLeaf(Yard([] + [op], [] + [x] + [t]), a);
    PopsRun([], [op], [] + [x] + [t] + [a], Anything());
    assert Reversed([op]) == [] + [op];
    assert [] + [x] + [t] + [a] + ([] + [op]) == [x, t, a, op];
  }

  /** x op t.a applies op to the table's name and the column, and x is left behind. */
  lemma DotWitness<V>(x: Token, op: Token, t: Token, dot: Token, a: Token, leaf: Token -> V, apply: (Token, V, V) -> V,
                      truth: V -> bool)
    requires x.IsOperand() && t.IsOperand() && a.IsOperand() && op.IsOperator() && dot.typ == DOT
    ensures var cond := Combine(op, Atom(x), Infix(dot, Atom(t), Atom(a)));
      && CondText(cond) == [x, op, t, dot, a]
      && Evaluate(Postfix([x, op, t, dot, a]), leaf, apply, []) == Values([leaf(x), apply(op, leaf(t), leaf(a))])
      && !KeepsAll(Compiled(cond), cond)
  {
    var cond, e := Combine(op, Atom(x), Infix(dot, Atom(t), Atom(a))), Bin(op, Leaf(t), Leaf(a));
    DotPostfix(x, op, t, dot, a);
    assert CondText(Infix(dot, Atom(t), Atom(a))) == [t, dot, a];
    assert [x] + [op] + [t, dot, a] == [x, op, t, dot, a];
    assert PostOrder(e) == [t] + [a] + [op];
    LeafThenTree(x, e, leaf, apply);
    assert [x] + PostOrder(e) == [x, t, a, op];
    hide KeepsAll, Postfix, Evaluate;
    MeaningKeptExactly(cond);
  }
}
