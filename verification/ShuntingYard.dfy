/** The infix-to-postfix translation of WHERE clauses and the postfix evaluator that runs
    over its output. */
module ShuntingYard {
  import opened Tokens

  const MAX_POSTFIX := 256

  // ---------- the translation ----------

  /** Operators popped from the stack before tok is pushed. */
  predicate Yields(top: Token, tok: Token) {
    && top.typ != LPAREN
    && top.IsOperator()
    && ((tok.IsLeftAssoc() && tok.Precedence() <= top.Precedence())
        || (!tok.IsLeftAssoc() && tok.Precedence() < top.Precedence()))
  }

  datatype Yard = Yard(stack: seq<Token>, out: seq<Token>)

  /** Moves operators from the stack to the output while they pass the test. */
  function PopWhile(y: Yard, test: Token -> bool): Yard
    decreases |y.stack|
  {
    var n := |y.stack| - 1;
    if n >= 0 && test(y.stack[n]) then PopWhile(Yard(y.stack[..n], y.out + [y.stack[n]]), test) else y
  }

  function NotOpen(): Token -> bool {
    (t: Token) => t.typ != LPAREN
  }

  function YieldsTo(tok: Token): Token -> bool {
    (t: Token) => Yields(t, tok)
  }

  function Anything(): Token -> bool {
    (t: Token) => true
  }

  function DropTop(y: Yard): Yard {
    if y.stack == [] then y else y.(stack := y.stack[..|y.stack| - 1])
  }

  /** What one token does to the operator stack and the output. */
  function Feed(y: Yard, tok: Token): Yard {
    if tok.IsOperand() then y.(out := y.out + [tok])
    else if tok.typ == LPAREN then y.(stack := y.stack + [tok])
    else if tok.typ == RPAREN then DropTop(PopWhile(y, NotOpen()))
    else if tok.IsOperator() then
      var popped := PopWhile(y, YieldsTo(tok));
      popped.(stack := popped.stack + [tok])
    else y
  }

  function FeedAll(y: Yard, toks: seq<Token>): Yard
    decreases |toks|
  {
    if toks == [] then y else FeedAll(Feed(y, toks[0]), toks[1..])
  }

  /** The whole postfix output, before any limit on its length. */
  function Postfix(infix: seq<Token>): seq<Token> {
    PopWhile(FeedAll(Yard([], []), infix), Anything()).out
  }

  function Clipped(s: seq<Token>, limit: nat): seq<Token> {
    if |s| <= limit then s else s[..limit]
  }

  lemma {:induction false} PopWhileMoves(y: Yard, test: Token -> bool)
    ensures var y' := PopWhile(y, test); |y'.stack| + |y'.out| == |y.stack| + |y.out|
    decreases |y.stack|
  {
    var n := |y.stack| - 1;
    if n >= 0 && test(y.stack[n]) {
      PopWhileMoves(Yard(y.stack[..n], y.out + [y.stack[n]]), test);
    }
  }

  lemma FeedFits(y: Yard, tok: Token)
    ensures var y' := Feed(y, tok); |y'.stack| + |y'.out| <= |y.stack| + |y.out| + 1
  {
    PopWhileMoves(y, NotOpen());
    PopWhileMoves(y, YieldsTo(tok));
  }

  lemma {:induction false} FeedAllFits(y: Yard, toks: seq<Token>)
    ensures var y' := FeedAll(y, toks); |y'.stack| + |y'.out| <= |y.stack| + |y.out| + |toks|
    decreases |toks|
  {
    if toks != [] {
      FeedFits(y, toks[0]);
      FeedAllFits(Feed(y, toks[0]), toks[1..]);
    }
  }

  /** The output is never longer than the input, so the limit on it never cuts a clause that fits. */
  lemma PostfixFits(infix: seq<Token>)
    ensures |Postfix(infix)| <= |infix|
  {
    FeedAllFits(Yard([], []), infix);
    PopWhileMoves(FeedAll(Yard([], []), infix), Anything());
  }

  // ---------- tokens the translation does not know ----------

  lemma {:induction false} FeedSkips(y: Yard, before: seq<Token>, tok: Token, after: seq<Token>)
    requires !tok.IsOperand() && !tok.IsOperator() && tok.typ != LPAREN && tok.typ != RPAREN
    ensures FeedAll(y, before + [tok] + after) == FeedAll(y, before + after)
    decreases |before|
  {
    var s, t := before + [tok] + after, before + after;
    if before == [] {
      assert s[1..] == after && t == after;
    } else {
      assert s[1..] == before[1..] + [tok] + after && t[1..] == before[1..] + after;
      FeedSkips(Feed(y, before[0]), before[1..], tok, after);
    }
  }

  /** NOT has a precedence but is no operator here, so a negated condition is compiled as if the NOT
      had not been written; the same holds of a single equals sign and of the dot of a qualified
      name. */
  lemma NotIsDropped(before: seq<Token>, tok: Token, after: seq<Token>)
    requires tok.typ == NOT || tok.typ == ASSIGN || tok.typ == DOT
    ensures Postfix(before + [tok] + after) == Postfix(before + after)
  {
    FeedSkips(Yard([], []), before, tok, after);
  }

  // ---------- expression trees ----------

  /** Expressions as written: Paren marks a pair of parentheses in the text. */
  datatype Expr =
    | Leaf(tok: Token)
    | Bin(op: Token, left: Expr, right: Expr)
    | Paren(inner: Expr)

  predicate WellFormed(e: Expr) {
    match e
    case Leaf(tok) => tok.IsOperand()
    case Bin(op, l, r) => op.IsOperator() && WellFormed(l) && WellFormed(r)
    case Paren(x) => WellFormed(x)
  }

  const OPEN := Token(LPAREN, "(")
  const CLOSE := Token(RPAREN, ")")

  function Flat(e: Expr): (toks: seq<Token>)
    ensures |toks| > 0
  {
    match e
    case Leaf(tok) => [tok]
    case Bin(op, l, r) => Flat(l) + [op] + Flat(r)
    case Paren(x) => [OPEN] + Flat(x) + [CLOSE]
  }

  /** The tree's own post-order, which ignores parentheses. */
  function PostOrder(e: Expr): (toks: seq<Token>)
    ensures |toks| > 0
  {
    match e
    case Leaf(tok) => [tok]
    case Bin(op, l, r) => PostOrder(l) + PostOrder(r) + [op]
    case Paren(x) => PostOrder(x)
  }

  /** e, standing unparenthesised, binds at least as tightly as p. */
  predicate Binds(e: Expr, p: int) {
    e.Bin? ==> e.op.Precedence() >= p
  }

  /** Enough parentheses were written for the text to mean this tree: an operator directly
      below another binds tighter, or as tightly on the left. */
  predicate Sufficient(e: Expr) {
    match e
    case Leaf(_) => true
    case Bin(op, l, r) =>
      && Sufficient(l) && Sufficient(r)
      && Binds(l, op.Precedence()) && Binds(r, op.Precedence() + 1)
    case Paren(x) => Sufficient(x)
  }

  // ---------- the translation of a sufficiently parenthesised text ----------

  /** Operators still on the stack once e has been read. */
  function Pending(e: Expr): seq<Token> {
    match e
    case Bin(op, _, r) => [op] + Pending(r)
    case _ => []
  }

  /** Output already written once e has been read. */
  function Done(e: Expr): seq<Token> {
    match e
    case Leaf(tok) => [tok]
    case Bin(op, l, r) => PostOrder(l) + Done(r)
    case Paren(x) => PostOrder(x)
  }

  function Reversed(s: seq<Token>): (r: seq<Token>)
    ensures |r| == |s|
  {
    if s == [] then [] else Reversed(s[1..]) + [s[0]]
  }

  lemma Assoc<T>(a: seq<T>, b: seq<T>, c: seq<T>)
    ensures a + b + c == a + (b + c)
  {
  }

  lemma {:induction false} DonePlusPending(e: Expr)
    ensures Done(e) + Reversed(Pending(e)) == PostOrder(e)
  {
    match e
    case Leaf(_) =>
    case Paren(_) =>
    case Bin(op, l, r) =>
      DonePlusPending(r);
      assert Pending(e)[1..] == Pending(r);
  }

  /** Every pending operator of a sufficient expression binds at least as tightly as p. */
  lemma {:induction false} PendingBinds(e: Expr, p: int)
    requires WellFormed(e) && Sufficient(e) && Binds(e, p)
    ensures forall t :: t in Pending(e) ==> t.IsOperator() && t.Precedence() >= p
  {
    if e.Bin? {
      PendingBinds(e.right, p);
    }
  }

  lemma {:induction false} FeedConcat(y: Yard, s: seq<Token>, t: seq<Token>)
    ensures FeedAll(y, s + t) == FeedAll(FeedAll(y, s), t)
    decreases |s|
  {
    if s == [] {
      assert s + t == t;
    } else {
      assert (s + t)[1..] == s[1..] + t;
      FeedConcat(Feed(y, s[0]), s[1..], t);
    }
  }

  lemma FeedOne(y: Yard, tok: Token)
    ensures FeedAll(y, [tok]) == Feed(y, tok)
  {
  }

  /** Reading stops popping at a parenthesis, at the bottom, or at a looser operator. */
  predicate Guarded(stack: seq<Token>, p: int) {
    stack != [] ==> var top := stack[|stack| - 1]; !top.IsOperator() || top.Precedence() < p
  }

  /** A run of operators that pass the test is written in reverse, down to one that does not. */
  lemma {:induction false} PopsRun(stack: seq<Token>, ops: seq<Token>, out: seq<Token>, test: Token -> bool)
    requires stack != [] ==> !test(stack[|stack| - 1])
    requires forall t :: t in ops ==> test(t)
    ensures PopWhile(Yard(stack + ops, out), test) == Yard(stack, out + Reversed(ops))
    decreases |ops|
  {
    if ops == [] {
      assert stack + ops == stack;
    } else {
      var n := |ops| - 1;
      assert ops[n] in ops && (stack + ops)[|stack| + n] == ops[n];
      assert (stack + ops)[..|stack| + n] == stack + ops[..n];
      PopsRun(stack, ops[..n], out + [ops[n]], test);
      ReversedLast(ops);
      assert out + [ops[n]] + Reversed(ops[..n]) == out + Reversed(ops);
    }
  }

  lemma {:induction false} ReversedLast(s: seq<Token>)
    requires s != []
    ensures Reversed(s) == [s[|s| - 1]] + Reversed(s[..|s| - 1])
  {
    if |s| > 1 {
      ReversedLast(s[1..]);
      assert s[1..][..|s| - 2] == s[..|s| - 1][1..];
    }
  }

  lemma FeedOperator(y: Yard, op: Token)
    requires op.IsOperator()
    ensures Feed(y, op) == var popped := PopWhile(y, YieldsTo(op)); Yard(popped.stack + [op], popped.out)
  {
  }

  lemma YieldsByPrecedence(top: Token, op: Token)
    requires op.IsOperator()
    ensures YieldsTo(op)(top) <==> top.IsOperator() && top.Precedence() >= op.Precedence()
  {
  }

  /** An operator that binds no tighter than the pending ones writes them all. */
  lemma OperatorAfter(l: Expr, stack: seq<Token>, out: seq<Token>, op: Token)
    requires WellFormed(l) && Sufficient(l) && op.IsOperator()
    requires Binds(l, op.Precedence()) && Guarded(stack, op.Precedence())
    ensures FeedAll(Yard(stack + Pending(l), out + Done(l)), [op]) == Yard(stack + [op], out + PostOrder(l))
  {
    var ops, test := Pending(l), YieldsTo(op);
    FeedOne(Yard(stack + ops, out + Done(l)), op);
    FeedOperator(Yard(stack + ops, out + Done(l)), op);
    PendingBinds(l, op.Precedence());
    forall t | t in ops
      ensures test(t)
    {
      YieldsByPrecedence(t, op);
    }
    if stack != [] {
      YieldsByPrecedence(stack[|stack| - 1], op);
    }
    PopsRun(stack, ops, out + Done(l), test);
    DonePlusPending(l);
    Assoc(out, Done(l), Reversed(ops));
  }

  /** Reading a sufficient expression on top of looser operators pushes its pending operators
      and writes the rest of it. */
  lemma {:induction false} ReadsExpr(e: Expr, y: Yard, p: int)
    requires WellFormed(e) && Sufficient(e) && Binds(e, p) && Guarded(y.stack, p)
    ensures FeedAll(y, Flat(e)) == Yard(y.stack + Pending(e), y.out + Done(e))
    decreases e, 0
  {
    match e
    case Leaf(tok) =>
      FeedOne(y, tok);
      assert y.stack + [] == y.stack;
    case Paren(x) =>
      ReadsParen(x, y);
      assert y.stack + [] == y.stack;
    case Bin(op, l, r) =>
      var q := op.Precedence();
      FeedConcat(y, Flat(l) + [op], Flat(r));
      FeedConcat(y, Flat(l), [op]);
      ReadsExpr(l, y, q);
      OperatorAfter(l, y.stack, y.out, op);
      ReadsExpr(r, Yard(y.stack + [op], y.out + PostOrder(l)), q + 1);
      Assoc(y.stack, [op], Pending(r));
      Assoc(y.out, PostOrder(l), Done(r));
  }

  /** A closing parenthesis writes everything pending since its opening one. */
  lemma CloseAfter(x: Expr, stack: seq<Token>, out: seq<Token>, p: int)
    requires WellFormed(x) && Sufficient(x) && Binds(x, p)
    ensures Feed(Yard(stack + [OPEN] + Pending(x), out + Done(x)), CLOSE) == Yard(stack, out + PostOrder(x))
  {
    var s := stack + [OPEN];
    PendingBinds(x, p);
    PopsRun(s, Pending(x), out + Done(x), NotOpen());
    assert s[..|stack|] == stack;
    DonePlusPending(x);
    Assoc(out, Done(x), Reversed(Pending(x)));
  }

  lemma FeedAround(y: Yard, a: Token, s: seq<Token>, b: Token)
    ensures FeedAll(y, [a] + s + [b]) == Feed(FeedAll(Feed(y, a), s), b)
  {
    FeedConcat(y, [a] + s, [b]);
    FeedConcat(y, [a], s);
    FeedOne(y, a);
    FeedOne(FeedAll(Feed(y, a), s), b);
  }

  lemma {:induction false} ReadsParen(x: Expr, y: Yard)
    requires WellFormed(x) && Sufficient(x)
    ensures FeedAll(y, Flat(Paren(x))) == Yard(y.stack, y.out + PostOrder(x))
    decreases x, 1
  {
    hide PopWhile, FeedAll, Pending, Done, PostOrder;
    var p := if x.Bin? then x.op.Precedence() else 0;
    var inside := Yard(y.stack + [OPEN], y.out);
    assert Feed(y, OPEN) == inside;
    FeedAround(y, OPEN, Flat(x), CLOSE);
    ReadsExpr(x, inside, p);
    CloseAfter(x, y.stack, y.out, p);
  }

  /** A sufficiently parenthesised text is translated to the post-order of its tree. */
  lemma SufficientIsEnough(e: Expr)
    requires WellFormed(e) && Sufficient(e)
    ensures Postfix(Flat(e)) == PostOrder(e)
  {
    var p := if e.Bin? then e.op.Precedence() else 0;
    ReadsExpr(e, Yard([], []), p);
    assert Yard([] + Pending(e), [] + Done(e)) == Yard(Pending(e), Done(e));
    PopsRun([], Pending(e), Done(e), Anything());
    assert [] + Pending(e) == Pending(e);
    DonePlusPending(e);
  }

  // ---------- conditions by layers ----------

  /** The layers of operators, from the tightest to the loosest: products, sums, comparisons, AND, OR. */
  const LAYERS := 5

  predicate InLayer(typ: TokenType, n: nat) {
    match n
    case 1 => typ == MUL || typ == DIV || typ == MOD
    case 2 => typ == PLUS || typ == MINUS
    case 3 => typ == EQ || typ == NEQ || typ == LT || typ == GT || typ == LTE || typ == GTE
    case 4 => typ == AND
    case 5 => typ == OR
    case _ => false
  }

  /** The grammar of conditions.  A chain of layer n is one of layer n - 1, or a chain of layer n, an
      operator of that layer, and a chain of layer n - 1; at the bottom are operands and conditions in
      parentheses. */
  predicate Layered(e: Expr, n: nat)
    decreases e, n
  {
    match e
    case Leaf(tok) => tok.typ == INTEGER || tok.typ == FLOAT_LIT || tok.typ == STRING_LIT || tok.typ == IDENTIFIER
    case Paren(x) => Layered(x, LAYERS)
    case Bin(op, l, r) =>
      n > 0 && if InLayer(op.typ, n) then Layered(l, n) && Layered(r, n - 1) else Layered(e, n - 1)
  }

  /** How loosely the operators of a layer and of those below it bind at most. */
  function Loosest(n: nat): int {
    match n
    case 0 => 7
    case 1 => 6
    case 2 => 5
    case 3 => 4
    case 4 => 2
    case _ => 1
  }

  lemma LayerOfOperator(op: Token, n: nat)
    requires 0 < n <= LAYERS
    ensures InLayer(op.typ, n) <==> op.IsOperator() && Loosest(n) <= op.Precedence() < Loosest(n - 1)
  {
  }

  /** A chain of a layer is a tree that has enough parentheses and no looser operator at its root. */
  lemma {:induction false} LayeredBinds(e: Expr, n: nat)
    requires n <= LAYERS
    ensures Layered(e, n) <==> WellFormed(e) && Sufficient(e) && Binds(e, Loosest(n))
    decreases e, n
  {
    match e
    case Leaf(_) =>
    case Paren(x) =>
      LayeredBinds(x, LAYERS);
    case Bin(op, l, r) =>
      if n > 0 {
        LayerOfOperator(op, n);
        if InLayer(op.typ, n) {
          LayeredBinds(l, n);
          LayeredBinds(r, n - 1);
        } else {
          LayeredBinds(e, n - 1);
        }
      }
  }

  /** Enough parentheses were written if and only if the text follows the grammar. */
  lemma LayeredExactly(e: Expr)
    ensures Layered(e, LAYERS) <==> WellFormed(e) && Sufficient(e)
  {
    LayeredBinds(e, LAYERS);
  }

  /** A condition that follows the grammar is compiled to the post-order of its layers. */
  lemma PostfixOfLayers(e: Expr)
    requires Layered(e, LAYERS)
    ensures Postfix(Flat(e)) == PostOrder(e)
  {
    LayeredExactly(e);
    SufficientIsEnough(e);
  }

  // ---------- every text has exactly one sufficient tree ----------

  /** The sufficient tree of the text of l, then op, then the text of r. */
  function Join(l: Expr, op: Token, r: Expr): Expr
    decreases l, r
  {
    var p := op.Precedence();
    if r.Bin? && r.op.Precedence() <= p && (l.Bin? ==> r.op.Precedence() <= l.op.Precedence()) then
      Bin(r.op, Join(l, op, r.left), r.right)
    else if l.Bin? && l.op.Precedence() < p then
      Bin(l.op, l.left, Join(l.right, op, r))
    else
      Bin(op, l, r)
  }

  function Reparse(e: Expr): Expr {
    match e
    case Leaf(_) => e
    case Bin(op, l, r) => Join(Reparse(l), op, Reparse(r))
    case Paren(x) => Paren(Reparse(x))
  }

  lemma {:induction false} JoinIsSufficient(l: Expr, op: Token, r: Expr, p: int)
    requires WellFormed(l) && WellFormed(r) && op.IsOperator() && Sufficient(l) && Sufficient(r)
    requires Binds(l, p) && Binds(r, p) && op.Precedence() >= p
    ensures var e := Join(l, op, r); WellFormed(e) && Sufficient(e) && Binds(e, p)
    decreases l, r
  {
    var q := op.Precedence();
    if r.Bin? && r.op.Precedence() <= q && (l.Bin? ==> r.op.Precedence() <= l.op.Precedence()) {
      JoinIsSufficient(l, op, r.left, r.op.Precedence());
    } else if l.Bin? && l.op.Precedence() < q {
      JoinIsSufficient(l.right, op, r, l.op.Precedence() + 1);
    }
  }

  lemma {:induction false} JoinIsFlat(l: Expr, op: Token, r: Expr)
    ensures Flat(Join(l, op, r)) == Flat(l) + [op] + Flat(r)
    decreases l, r
  {
    var p := op.Precedence();
    if r.Bin? && r.op.Precedence() <= p && (l.Bin? ==> r.op.Precedence() <= l.op.Precedence()) {
      JoinIsFlat(l, op, r.left);
      Assoc(Flat(l) + [op], Flat(r.left), [r.op]);
      Assoc(Flat(l) + [op], Flat(r.left) + [r.op], Flat(r.right));
    } else if l.Bin? && l.op.Precedence() < p {
      JoinIsFlat(l.right, op, r);
      Assoc(Flat(l.left) + [l.op], Flat(l.right), [op]);
      Assoc(Flat(l.left) + [l.op], Flat(l.right) + [op], Flat(r));
    }
  }

  /** Any text can be read as a sufficient tree. */
  lemma {:induction false} ReparseIsSufficient(e: Expr)
    requires WellFormed(e)
    ensures var e' := Reparse(e); WellFormed(e') && Sufficient(e') && Flat(e') == Flat(e)
  {
    match e
    case Leaf(_) =>
    case Paren(x) => ReparseIsSufficient(x);
    case Bin(op, l, r) =>
      ReparseIsSufficient(l);
      ReparseIsSufficient(r);
      var l', r' := Reparse(l), Reparse(r);
      JoinIsSufficient(l', op, r', Looser(Looser(op.Precedence(), l'), r'));
      JoinIsFlat(l', op, r');
  }

  function Looser(p: int, e: Expr): (q: int)
    ensures q <= p && Binds(e, q)
  {
    if e.Bin? && e.op.Precedence() < p then e.op.Precedence() else p
  }

  /** So the translation of any text is the post-order of its sufficient tree. */
  lemma PostfixOfAnyText(e: Expr)
    requires WellFormed(e)
    ensures Postfix(Flat(e)) == PostOrder(Reparse(e))
  {
    ReparseIsSufficient(e);
    SufficientIsEnough(Reparse(e));
  }

  // ---------- running postfix code ----------

  /** The values an evaluation leaves, unless an operator found fewer than two. */
  datatype Outcome<V> = Underflow | Values(stack: seq<V>)

  /** The postfix evaluator on a stack of values: operands push, operators combine the top two. */
  function Evaluate<V>(post: seq<Token>, leaf: Token -> V, apply: (Token, V, V) -> V, stack: seq<V>): Outcome<V>
    decreases |post|
  {
    if post == [] then Values(stack)
    else
      var tok, n := post[0], |stack|;
      if tok.IsOperand() then Evaluate(post[1..], leaf, apply, stack + [leaf(tok)])
      else if !tok.IsOperator() then Evaluate(post[1..], leaf, apply, stack)
      else if n < 2 then Underflow
      else Evaluate(post[1..], leaf, apply, stack[..n - 2] + [apply(tok, stack[n - 2], stack[n - 1])])
  }

  /** The value of a tree. */
  function Value<V>(e: Expr, leaf: Token -> V, apply: (Token, V, V) -> V): V {
    match e
    case Leaf(tok) => leaf(tok)
    case Bin(op, l, r) => apply(op, Value(l, leaf, apply), Value(r, leaf, apply))
    case Paren(x) => Value(x, leaf, apply)
  }

  lemma {:induction false} EvaluateTree<V>(e: Expr, rest: seq<Token>, leaf: Token -> V, apply: (Token, V, V) -> V,
      stack: seq<V>)
    requires WellFormed(e)
    ensures Evaluate(PostOrder(e) + rest, leaf, apply, stack) ==
      Evaluate(rest, leaf, apply, stack + [Value(e, leaf, apply)])
  {
    match e
    case Leaf(tok) =>
      assert ([tok] + rest)[1..] == rest;
    case Paren(x) =>
      EvaluateTree(x, rest, leaf, apply, stack);
    case Bin(op, l, r) =>
      var v, w := Value(l, leaf, apply), Value(r, leaf, apply);
      Assoc(PostOrder(l), PostOrder(r), [op]);
      Assoc(PostOrder(l), PostOrder(r) + [op], rest);
      EvaluateTree(l, PostOrder(r) + [op] + rest, leaf, apply, stack);
      Assoc(PostOrder(r), [op], rest);
      EvaluateTree(r, [op] + rest, leaf, apply, stack + [v]);
      EvaluateOperator(op, rest, leaf, apply, stack, v, w);
  }

  lemma EvaluateOperator<V>(op: Token, rest: seq<Token>, leaf: Token -> V, apply: (Token, V, V) -> V, stack: seq<V>,
      v: V, w: V)
    requires op.IsOperator()
    ensures Evaluate([op] + rest, leaf, apply, stack + [v] + [w]) ==
      Evaluate(rest, leaf, apply, stack + [apply(op, v, w)])
  {
    var s := stack + [v] + [w];
    assert ([op] + rest)[1..] == rest;
    assert s[..|s| - 2] == stack && s[|s| - 2] == v && s[|s| - 1] == w;
  }

  /** Evaluating a tree's post-order leaves the tree's value alone on the stack. */
  lemma EvaluatesToValue<V>(e: Expr, leaf: Token -> V, apply: (Token, V, V) -> V)
    requires WellFormed(e)
    ensures Evaluate(PostOrder(e), leaf, apply, []) == Values([Value(e, leaf, apply)])
  {
    assert PostOrder(e) + [] == PostOrder(e);
    EvaluateTree(e, [], leaf, apply, []);
  }

  /** The tree without its parentheses. */
  function Bare(e: Expr): Expr {
    match e
    case Leaf(_) => e
    case Bin(op, l, r) => Bin(op, Bare(l), Bare(r))
    case Paren(x) => Bare(x)
  }

  function MakeLeaf(): Token -> Expr {
    (t: Token) => Leaf(t)
  }

  function MakeBin(): (Token, Expr, Expr) -> Expr {
    (t: Token, l: Expr, r: Expr) => Bin(t, l, r)
  }

  lemma {:induction false} FreeValue(e: Expr)
    ensures Value(e, MakeLeaf(), MakeBin()) == Bare(e)
  {
    match e
    case Leaf(_) =>
    case Bin(_, l, r) =>
      FreeValue(l);
      FreeValue(r);
    case Paren(x) =>
      FreeValue(x);
  }

  /** Post-orders are uniquely readable. */
  lemma PostOrderDetermines(e: Expr, f: Expr)
    requires WellFormed(e) && WellFormed(f) && PostOrder(e) == PostOrder(f)
    ensures Bare(e) == Bare(f)
  {
    EvaluatesToValue(e, MakeLeaf(), MakeBin());
    EvaluatesToValue(f, MakeLeaf(), MakeBin());
    FreeValue(e);
    FreeValue(f);
  }

  // ---------- the same text and the same bare tree mean the same parentheses ----------

  function Operators(toks: seq<Token>): nat {
    if toks == [] then 0 else Operators(toks[1..]) + if toks[0].IsOperator() then 1 else 0
  }

  function Depth(toks: seq<Token>): int {
    if toks == [] then 0
    else Depth(toks[1..]) + if toks[0].typ == LPAREN then 1 else if toks[0].typ == RPAREN then -1 else 0
  }

  function Nodes(e: Expr): nat {
    match e
    case Leaf(_) => 0
    case Bin(_, l, r) => Nodes(l) + Nodes(r) + 1
    case Paren(x) => Nodes(x)
  }

  lemma {:induction false} CountConcat(s: seq<Token>, t: seq<Token>)
    ensures Operators(s + t) == Operators(s) + Operators(t) && Depth(s + t) == Depth(s) + Depth(t)
    decreases |s|
  {
    if s == [] {
      assert s + t == t;
    } else {
      assert (s + t)[1..] == s[1..] + t;
      CountConcat(s[1..], t);
    }
  }

  lemma CountThree(a: seq<Token>, t: Token, b: seq<Token>)
    ensures Operators(a + [t] + b) == Operators(a) + Operators(b) + if t.IsOperator() then 1 else 0
    ensures Depth(a + [t] + b) == Depth(a) + Depth(b) + if t.typ == LPAREN then 1 else if t.typ == RPAREN then -1 else 0
  {
    CountConcat(a + [t], b);
    CountConcat(a, [t]);
  }

  lemma CountParens(s: seq<Token>)
    ensures Operators([OPEN] + s + [CLOSE]) == Operators(s) && Depth([OPEN] + s + [CLOSE]) == Depth(s)
  {
    CountConcat([OPEN] + s, [CLOSE]);
    CountConcat([OPEN], s);
    assert Operators([OPEN]) == 0 && Depth([OPEN]) == 1;
    assert Operators([CLOSE]) == 0 && Depth([CLOSE]) == -1;
  }

  lemma {:induction false} CountFlat(e: Expr)
    requires WellFormed(e)
    ensures Operators(Flat(e)) == Nodes(e) && Depth(Flat(e)) == 0
  {
    match e
    case Leaf(_) =>
    case Paren(x) =>
      CountFlat(x);
      CountParens(Flat(x));
    case Bin(op, l, r) =>
      CountFlat(l);
      CountFlat(r);
      CountThree(Flat(l), op, Flat(r));
  }

  /** In two readings of one text, equally many operators before an operator fix its place. */
  lemma SamePlace(a: seq<Token>, op: Token, b: seq<Token>, a': seq<Token>, op': Token, b': seq<Token>)
    requires a + [op] + b == a' + [op'] + b' && op.IsOperator() && op'.IsOperator()
    requires Operators(a) == Operators(a')
    ensures a == a' && op == op' && b == b'
  {
    if |a| < |a'| {
      NotEarlier(a, op, b, a', op', b');
    } else if |a'| < |a| {
      NotEarlier(a', op', b', a, op, b);
    }
    var t := a + [op] + b;
    assert t[..|a|] == a && t[|a|] == op && t[|a| + 1..] == b;
    assert t[..|a'|] == a' && t[|a'|] == op' && t[|a'| + 1..] == b';
  }

  lemma NotEarlier(a: seq<Token>, op: Token, b: seq<Token>, a': seq<Token>, op': Token, b': seq<Token>)
    requires a + [op] + b == a' + [op'] + b' && op.IsOperator()
    requires |a| < |a'|
    ensures Operators(a) < Operators(a')
  {
    var t := a + [op] + b;
    var c := a'[|a| + 1..];
    assert t[..|a'|] == a' && t[..|a| + 1] == a + [op];
    assert a' == a + [op] + c;
    CountConcat(a + [op], c);
    CountConcat(a, [op]);
  }

  /** Trees with the same text that differ in parentheses at most are the same tree. */
  lemma {:induction false} SameTextSameTree(e: Expr, f: Expr)
    requires WellFormed(e) && WellFormed(f) && Flat(e) == Flat(f) && Bare(e) == Bare(f)
    ensures e == f
    decreases e, f
  {
    if e.Paren? && f.Paren? {
      assert Flat(e)[1..|Flat(e)| - 1] == Flat(e.inner);
      assert Flat(f)[1..|Flat(f)| - 1] == Flat(f.inner);
      SameTextSameTree(e.inner, f.inner);
    } else if e.Bin? && f.Bin? {
      SameLeftSize(e.left, f.left);
      CountFlat(e.left);
      CountFlat(f.left);
      SamePlace(Flat(e.left), e.op, Flat(e.right), Flat(f.left), f.op, Flat(f.right));
      SameTextSameTree(e.left, f.left);
      SameTextSameTree(e.right, f.right);
    } else if e.Paren? {
      ParenIsNotBin(e, f);
    } else if f.Paren? {
      ParenIsNotBin(f, e);
    }
  }

  /** Where the root operator of the bare tree stands in the text, and how deep. */
  lemma {:induction false} RootAt(e: Expr) returns (a: seq<Token>, b: seq<Token>)
    requires WellFormed(e) && Bare(e).Bin?
    ensures Flat(e) == a + [Bare(e).op] + b && Operators(a) == Nodes(Bare(e).left)
    ensures Depth(a) >= if e.Paren? then 1 else 0
    ensures e.Bin? ==> Depth(a) == 0
  {
    if e.Paren? {
      var a', b' := RootAt(e.inner);
      a, b := [OPEN] + a', b' + [CLOSE];
      CountConcat([OPEN], a');
      var op := Bare(e).op;
      assert [OPEN] + (a' + [op] + b') + [CLOSE] == ([OPEN] + a') + [op] + (b' + [CLOSE]);
    } else {
      a, b := Flat(e.left), Flat(e.right);
      CountFlat(e.left);
      BareNodes(e.left);
    }
  }

  lemma {:induction false} ParenIsNotBin(e: Expr, f: Expr)
    requires WellFormed(e) && WellFormed(f) && e.Paren? && !f.Paren? && Bare(e) == Bare(f)
    ensures Flat(e) != Flat(f)
  {
    assert |Flat(e)| >= 3;
    if Flat(e) == Flat(f) {
      if f.Bin? {
        var a, b := RootAt(e);
        var a', b' := RootAt(f);
        SamePlace(a, Bare(e).op, b, a', Bare(f).op, b');
      }
    }
  }

  lemma {:induction false} SameLeftSize(l: Expr, l': Expr)
    requires Bare(l) == Bare(l')
    ensures Nodes(l) == Nodes(l')
  {
    BareNodes(l);
    BareNodes(l');
  }

  lemma {:induction false} BareNodes(e: Expr)
    ensures Nodes(Bare(e)) == Nodes(e)
  {
    match e
    case Leaf(_) =>
    case Bin(_, l, r) =>
      BareNodes(l);
      BareNodes(r);
    case Paren(x) =>
      BareNodes(x);
  }

  // ---------- the main results ----------

  /** The translation yields the post-order of the tree that was meant if and only if enough
      parentheses were written. */
  lemma PostfixIsPostOrder(e: Expr)
    requires WellFormed(e)
    ensures Postfix(Flat(e)) == PostOrder(e) <==> Sufficient(e)
  {
    if Sufficient(e) {
      SufficientIsEnough(e);
    } else if Postfix(Flat(e)) == PostOrder(e) {
      ReparseIsSufficient(e);
      PostfixOfAnyText(e);
      PostOrderDetermines(e, Reparse(e));
      SameTextSameTree(e, Reparse(e));
    }
  }

  /** The value computed for a text under one reading of its leaves and operators. */
  function Computed<V>(e: Expr, leaf: Token -> V, apply: (Token, V, V) -> V): Outcome<V> {
    Evaluate(Postfix(Flat(e)), leaf, apply, [])
  }

  /** Compiling and running a sufficiently parenthesised text computes its tree's value,
      whatever the operators mean. */
  lemma MeaningPreserved<V>(e: Expr, leaf: Token -> V, apply: (Token, V, V) -> V)
    requires WellFormed(e) && Sufficient(e)
    ensures Computed(e, leaf, apply) == Values([Value(e, leaf, apply)])
  {
    SufficientIsEnough(e);
    EvaluatesToValue(e, leaf, apply);
  }

  /** With too few parentheses some meaning of the operators exposes the difference. */
  lemma MeaningLost(e: Expr)
    requires WellFormed(e) && !Sufficient(e)
    ensures Computed(e, MakeLeaf(), MakeBin()) != Values([Value(e, MakeLeaf(), MakeBin())])
  {
    var f := Reparse(e);
    ReparseIsSufficient(e);
    MeaningPreserved(f, MakeLeaf(), MakeBin());
    FreeValue(e);
    FreeValue(f);
    if Bare(e) == Bare(f) {
      SameTextSameTree(e, f);
    }
  }

  // ---------- the code ----------

  /** The translation, of whose output the first max tokens are kept. */
  method Translate(infix: seq<Token>, max: nat) returns (postfix: seq<Token>)
    ensures postfix == Clipped(Postfix(infix), max)
    ensures forall e :: infix == Flat(e) && Layered(e, LAYERS) ==> postfix == Clipped(PostOrder(e), max)
  {
    var stack: seq<Token> := [];
    postfix := [];
    ghost var out: seq<Token> := [];
    for i := 0 to |infix|
      invariant FeedAll(Yard(stack, out), infix[i..]) == FeedAll(Yard([], []), infix)
      invariant postfix == Clipped(out, max)
    {
      var tok := infix[i];
      ghost var y := Yard(stack, out);
      assert infix[i..][0] == tok && infix[i..][1..] == infix[i + 1..];
      if tok.IsOperand() {
        postfix, out := PushOut(postfix, tok, max, out);
      } else if tok.typ == LPAREN {
        stack := stack + [tok];
      } else if tok.typ == RPAREN {
        stack, postfix, out := PopLoop(stack, postfix, max, NotOpen(), out);
        if stack != [] {
          stack := stack[..|stack| - 1];
        }
      } else if tok.IsOperator() {
        stack, postfix, out := PopLoop(stack, postfix, max, YieldsTo(tok), out);
        stack := stack + [tok];
      }
      assert Yard(stack, out) == Feed(y, tok);
    }
    stack, postfix, out := PopLoop(stack, postfix, max, Anything(), out);
    forall e | infix == Flat(e) && Layered(e, LAYERS)
      ensures postfix == Clipped(PostOrder(e), max)
    {
      PostfixOfLayers(e);
    }
  }

  /** Appends to the output unless it is full. */
  method PushOut(postfix: seq<Token>, tok: Token, max: nat, ghost out: seq<Token>)
    returns (postfix': seq<Token>, ghost out': seq<Token>)
    requires postfix == Clipped(out, max)
    ensures out' == out + [tok] && postfix' == Clipped(out', max)
  {
    postfix', out' := postfix, out + [tok];
    if |postfix| < max {
      postfix' := postfix + [tok];
    }
  }

  /** The popping loop shared by operators, closing parentheses and the end of the input. */
  method PopLoop(stack: seq<Token>, postfix: seq<Token>, max: nat, test: Token -> bool, ghost out: seq<Token>)
    returns (stack': seq<Token>, postfix': seq<Token>, ghost out': seq<Token>)
    requires postfix == Clipped(out, max)
    ensures Yard(stack', out') == PopWhile(Yard(stack, out), test) && postfix' == Clipped(out', max)
  {
    stack', postfix', out' := stack, postfix, out;
    while stack' != [] && test(stack'[|stack'| - 1])
      invariant PopWhile(Yard(stack', out'), test) == PopWhile(Yard(stack, out), test)
      invariant postfix' == Clipped(out', max)
      decreases |stack'|
    {
      var n := |stack'| - 1;
      postfix', out' := PushOut(postfix', stack'[n], max, out');
      stack' := stack'[..n];
    }
  }

  /** Whether a row passes: empty code and code that leaves nothing pass, a missing operand
      fails, otherwise the last value decides. */
  function Passes<V>(outcome: Outcome<V>, truth: V -> bool): bool {
    match outcome
    case Underflow => false
    case Values(stack) => stack == [] || truth(stack[|stack| - 1])
  }

  /** Evaluates postfix code against one row's leaves. */
  method EvalWhere<V>(postfix: seq<Token>, leaf: Token -> V, apply: (Token, V, V) -> V, truth: V -> bool)
      returns (pass: bool)
    ensures pass == Passes(Evaluate(postfix, leaf, apply, []), truth)
  {
    if |postfix| == 0 {
      return true;
    }
    var stack: seq<V> := [];
    for i := 0 to |postfix|
      invariant Evaluate(postfix[i..], leaf, apply, stack) == Evaluate(postfix, leaf, apply, [])
    {
      var tok, n := postfix[i], |stack|;
      assert postfix[i..][0] == tok && postfix[i..][1..] == postfix[i + 1..];
      if tok.IsOperand() {
        stack := stack + [leaf(tok)];
      } else if tok.IsOperator() {
        if n < 2 {
          return false;
        }
        stack := stack[..n - 2] + [apply(tok, stack[n - 2], stack[n - 1])];
      }
    }
    if |stack| == 0 {
      return true;
    }
    pass := truth(stack[|stack| - 1]);
  }

  /** From WHERE tokens to a row's verdict: an expression of at most 256 tokens that follows the grammar
      passes exactly the rows on which it is true. */
  method CompileAndRun<V>(infix: seq<Token>, ghost e: Expr, leaf: Token -> V, apply: (Token, V, V) -> V,
      truth: V -> bool)
    returns (pass: bool)
    requires WellFormed(e) && infix == Flat(e) && |infix| <= MAX_POSTFIX
    ensures Layered(e, LAYERS) ==> pass == truth(Value(e, leaf, apply))
    ensures pass == truth(Value(Reparse(e), leaf, apply))
  {
    var postfix := Translate(infix, MAX_POSTFIX);
    ReparseIsSufficient(e);
    PostfixOfAnyText(e);
    PostfixFits(infix);
    EvaluatesToValue(Reparse(e), leaf, apply);
    if Layered(e, LAYERS) {
      PostfixOfLayers(e);
      EvaluatesToValue(e, leaf, apply);
    }
    pass := EvalWhere(postfix, leaf, apply, truth);
  }
}
