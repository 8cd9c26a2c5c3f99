/** From the text of a query to the rows it selects. */
module Queries {
  import opened Options
  import opened Sequences
  import opened Tokens
  import opened ShuntingYard
  import opened Conditions
  import opened Lexers
  import opened Parsers
  import opened Statements

  /** No token of a condition ends its clause. */
  lemma {:induction false} ConditionsDoNotEnd(c: Cond)
    requires IsCondition(c)
    ensures InClause(CondText(c))
  {
    match c
    case Atom(_) =>
    case Combine(_, l, r) =>
      ConditionsDoNotEnd(l);
      ConditionsDoNotEnd(r);
    case Group(x) =>
      ConditionsDoNotEnd(x);
    case Prefix(_, x) =>
      ConditionsDoNotEnd(x);
    case Infix(_, l, r) =>
      ConditionsDoNotEnd(l);
      ConditionsDoNotEnd(r);
  }

  /** A SELECT as its parts. */
  datatype Select = Select(
    sel: Token, cols: seq<Token>, from: Token, table: Token, joins: seq<Join>, where: Token, cond: Cond,
    rest: seq<Token>)
  {
    ghost predicate Valid() {
      && sel.typ == SELECT && NoFrom(cols) && from.typ == FROM && table.typ == IDENTIFIER
      && (forall k :: 0 <= k < |joins| ==> joins[k].Valid())
      && where.typ == WHERE && IsCondition(cond) && |CondText(cond)| <= MAX_POSTFIX && Tail(rest)
    }

    /** Its tokens, the end of input last. */
    function Toks(): seq<Token> {
      [sel] + (cols + ([from] + ([table] + (JoinToks(joins) + ([where] + (CondText(cond) + rest))))))
    }

    function Parts(): ParsedQuery {
      BLANK.(typ := SelectQuery, tableName := Name(table), joinTables := Take(JoinNames(joins), MAX_JOIN_TABLES))
    }
  }

  /** The pieces are a way to lay the statement out in a text. */
  ghost predicate LaidOut(pieces: seq<Piece>, tail: string, toks: seq<Token>) {
    WellWritten(pieces, tail) && Toks(pieces) + [END] == toks
  }

  /** However a SELECT is laid out in its text, its tables are found and its condition compiled. */
  lemma TextToQuery(pieces: seq<Piece>, tail: string, s: Select)
    requires s.Valid() && LaidOut(pieces, tail, s.Toks())
    ensures Ends(AllTokens(Written(pieces, tail)))
    ensures Parse(AllTokens(Written(pieces, tail))) == Parsed(true, WithWhere(s.Parts(), CondText(s.cond)))
  {
    hide Parse, AllTokens, CondText, WellWritten, Written, Postfix, Take, JoinToks, JoinNames;
    ConditionsDoNotEnd(s.cond);
    TextRoundTrip(pieces, tail);
    AllTokensEnd(Written(pieces, tail));
    SelectMeaning(s.sel, s.cols, s.from, s.table, s.joins, s.where, CondText(s.cond), s.rest);
  }

  /** From text to rows: the code of the parsed query keeps the meaning of the condition under all
      meanings of leaves, operators and prefixes if and only if no NOT, no minus sign in front of an
      operand, no single equals sign and no qualified name was written, and enough parentheses were. */
  lemma TextKeepsMeaningExactly(pieces: seq<Piece>, tail: string, s: Select)
    requires s.Valid() && LaidOut(pieces, tail, s.Toks())
    ensures Ends(AllTokens(Written(pieces, tail)))
    ensures KeepsAll(Parse(AllTokens(Written(pieces, tail))).query.postfix, s.cond)
       <==> Plain(s.cond) && Sufficient(AsExpr(s.cond))
  {
    hide Parse, AllTokens, CondText, WellWritten, Written, Postfix, Select.Toks, Select.Parts, KeepsAll;
    TextToQuery(pieces, tail, s);
    MeaningKeptExactly(s.cond);
  }

  /** And its verdict on rows is right under all meanings, the meaning of truth included, under exactly
      the same condition. */
  lemma TextGivesRightVerdictExactly(pieces: seq<Piece>, tail: string, s: Select)
    requires s.Valid() && LaidOut(pieces, tail, s.Toks())
    ensures Ends(AllTokens(Written(pieces, tail)))
    ensures DecidesAll(Parse(AllTokens(Written(pieces, tail))).query.postfix, s.cond)
       <==> Plain(s.cond) && Sufficient(AsExpr(s.cond))
  {
    hide Parse, AllTokens, CondText, WellWritten, Written, Postfix, Select.Toks, Select.Parts, DecidesAll;
    TextToQuery(pieces, tail, s);
    VerdictRightExactly(s.cond);
  }

  /** In that case a row passes exactly when the condition is true of it. */
  lemma TextToRows<V>(pieces: seq<Piece>, tail: string, s: Select, leaf: Token -> V, apply: (Token, V, V) -> V,
                      prefix: (Token, V) -> V, truth: V -> bool)
    requires s.Valid() && LaidOut(pieces, tail, s.Toks())
    requires Plain(s.cond) && Sufficient(AsExpr(s.cond))
    ensures Ends(AllTokens(Written(pieces, tail)))
    ensures var q := Parse(AllTokens(Written(pieces, tail))).query;
      Verdict(q, leaf, apply, truth) == truth(Meant(s.cond, leaf, apply, prefix))
  {
    hide Parse, AllTokens, CondText, WellWritten, Written, Postfix, Select.Toks, Select.Parts, Evaluate, Meant;
    TextToQuery(pieces, tail, s);
    MeaningKept(s.cond, leaf, apply, prefix);
  }

  /** A condition that follows the grammar is compiled to the post-order of its layers. */
  lemma TextToPostOrder(pieces: seq<Piece>, tail: string, s: Select)
    requires s.Valid() && LaidOut(pieces, tail, s.Toks()) && Plain(s.cond) && Layered(AsExpr(s.cond), LAYERS)
    ensures Ends(AllTokens(Written(pieces, tail)))
    ensures var p := Parse(AllTokens(Written(pieces, tail)));
      p.ok && p.query.tableName == Name(s.table) && p.query.postfix == PostOrder(AsExpr(s.cond))
  {
    hide Parse, AllTokens, CondText, WellWritten, Written, Postfix, Select.Toks, AsExpr, PostOrder;
    TextToQuery(pieces, tail, s);
    PlainIsExpr(s.cond);
    PostfixOfLayers(AsExpr(s.cond));
  }

  // ---------- one query, from its characters ----------

  ghost predicate IsName(word: string) {
    IsWord(word) && ReadsAs(word, IDENTIFIER)
  }

  function Comparison(x: Token, op: Token, y: Token): Cond {
    Combine(op, Atom(x), Atom(y))
  }

  lemma ComparisonFacts(x: Token, op: Token, y: Token)
    requires x.IsOperand() && InLayer(op.typ, 3) && y.IsOperand()
    ensures var c := Comparison(x, op, y);
      && IsCondition(c) && Plain(c) && Layered(AsExpr(c), 3)
      && CondText(c) == [x, op, y] && PostOrder(AsExpr(c)) == [x, y, op]
  {
    assert Plain(Atom(x)) && Plain(Atom(y));
    assert IsCondition(Atom(x)) && IsCondition(Atom(y)) && op.IsOperator();
    assert AsExpr(Comparison(x, op, y)) == Bin(op, Leaf(x), Leaf(y));
    assert Layered(Leaf(x), 3) && Layered(Leaf(y), 2);
  }

  lemma BothLayers(op: Token, l: Cond, r: Cond)
    requires op.typ == AND && Plain(l) && Plain(r) && Layered(AsExpr(l), 3) && Layered(AsExpr(r), 3)
    requires IsCondition(l) && IsCondition(r) && l.Combine? && !InLayer(l.op.typ, 4)
    ensures var c := Combine(op, l, r);
      && IsCondition(c) && Plain(c) && Layered(AsExpr(c), LAYERS)
      && CondText(c) == CondText(l) + [op] + CondText(r)
      && PostOrder(AsExpr(c)) == PostOrder(AsExpr(l)) + PostOrder(AsExpr(r)) + [op]
  {
    assert Layered(AsExpr(l), 4);
    assert Layered(AsExpr(Combine(op, l, r)), 4);
  }

  lemma ComparisonSpelled(a: string, cmp: TokenType, n: string)
    requires IsName(a) && InLayer(cmp, 3) && IsWhole(n)
    ensures AllSpell([a, Mark(cmp), n], [Token(IDENTIFIER, a), Token(cmp, Mark(cmp)), Token(INTEGER, n)])
  {
    hide IsWord, ReadsAs, IsWhole, Spells;
    SpelledWord(a, IDENTIFIER);
    SpelledMark(cmp);
    SpelledWhole(n);
  }

  lemma FrontSpelled(sel: string, from: string, t: string, wh: string)
    requires InAnyCase(sel, "SELECT") && InAnyCase(from, "FROM") && IsName(t) && InAnyCase(wh, "WHERE")
    ensures AllSpell([sel, "*", from, t, wh],
      [Token(SELECT, sel), Token(MUL, "*"), Token(FROM, from), Token(IDENTIFIER, t), Token(WHERE, wh)])
  {
    hide IsWord, ReadsAs, InAnyCase, Spells;
    SpelledKeyword(sel, SELECT);
    SpelledMark(MUL);
    SpelledKeyword(from, FROM);
    SpelledWord(t, IDENTIFIER);
    SpelledKeyword(wh, WHERE);
  }

  lemma SizeOfSpelled(words: seq<string>, toks: seq<Token>)
    requires AllSpell(words, toks)
    ensures |words| == |toks|
  {
  }

  lemma AllOfSelect(ts: seq<Token>, c: Cond)
    requires |ts| == 5
    ensures Select(ts[0], ts[1..2], ts[2], ts[3], [], ts[4], c, [END]).Toks() == ts + CondText(c) + [END]
  {
    hide CondText;
    assert ts == [ts[0]] + ([ts[1]] + ([ts[2]] + ([ts[3]] + [ts[4]])));
  }

  /** A SELECT of everything from one table, from its words. */
  lemma WordsToPostOrder(front: seq<string>, ts: seq<Token>, words: seq<string>, c: Cond)
    requires |ts| == 5 && AllSpell(front, ts) && AllSpell(words, CondText(c))
    requires ts[0].typ == SELECT && NoFrom(ts[1..2]) && ts[2].typ == FROM && ts[3].typ == IDENTIFIER
    requires ts[4].typ == WHERE && IsCondition(c) && |words| <= MAX_POSTFIX && Plain(c) && Layered(AsExpr(c), LAYERS)
    ensures var toks := AllTokens(Spaced(front + words));
      && Ends(toks) && Parse(toks).ok && Parse(toks).query.tableName == Name(ts[3])
      && Parse(toks).query.postfix == PostOrder(AsExpr(c))
  {
    hide Spells, Spaced, Parse, AllTokens, WellWritten, Written, Postfix, SpacedPieces, Lexers.Toks, CondText,
      IsCondition, Plain, Layered, AsExpr, PostOrder, Select.Toks, AllSpell;
    BothSpell(front, ts, words, CondText(c));
    SpacedIsWritten(front + words, ts + CondText(c));
    AllOfSelect(ts, c);
    var s := Select(ts[0], ts[1..2], ts[2], ts[3], [], ts[4], c, [END]);
    SizeOfSpelled(front, ts);
    SizeOfSpelled(words, CondText(c));
    TextToPostOrder(SpacedPieces(front + words, ts + CondText(c)), "", s);
  }

  lemma ComparisonsSpelled(a: string, cmp: TokenType, n: string, b: string, cmp': TokenType, k: string, and: string)
      returns (c: Cond)
    requires IsName(a) && IsName(b) && IsWhole(n) && IsWhole(k)
    requires InLayer(cmp, 3) && InLayer(cmp', 3) && InAnyCase(and, "AND")
    ensures AllSpell([a, Mark(cmp), n] + [and] + [b, Mark(cmp'), k], CondText(c))
    ensures IsCondition(c) && |CondText(c)| == 7 && Plain(c) && Layered(AsExpr(c), LAYERS)
    ensures PostOrder(AsExpr(c)) ==
      [Token(IDENTIFIER, a), Token(INTEGER, n), Token(cmp, Mark(cmp))]
      + [Token(IDENTIFIER, b), Token(INTEGER, k), Token(cmp', Mark(cmp'))] + [Token(AND, and)]
  {
    hide Plain, IsCondition, AsExpr, Layered, CondText, PostOrder, Spells, AllSpell, IsName, IsWhole, InAnyCase;
    var x, op, y := Token(IDENTIFIER, a), Token(cmp, Mark(cmp)), Token(INTEGER, n);
    var x', op', y' := Token(IDENTIFIER, b), Token(cmp', Mark(cmp')), Token(INTEGER, k);
    ComparisonFacts(x, op, y);
    ComparisonFacts(x', op', y');
    c := Combine(Token(AND, and), Comparison(x, op, y), Comparison(x', op', y'));
    BothLayers(Token(AND, and), Comparison(x, op, y), Comparison(x', op', y'));
    ComparisonSpelled(a, cmp, n);
    ComparisonSpelled(b, cmp', k);
    AndSpelled(and);
    BothSpell([a, Mark(cmp), n], [x, op, y], [and], [Token(AND, and)]);
    BothSpell([a, Mark(cmp), n] + [and], [x, op, y] + [Token(AND, and)], [b, Mark(cmp'), k], [x', op', y']);
  }

  lemma AndSpelled(and: string)
    requires InAnyCase(and, "AND")
    ensures AllSpell([and], [Token(AND, and)])
  {
    hide InAnyCase, Spells;
    SpelledKeyword(and, AND);
  }

  /** The text of SELECT * FROM t WHERE a cmp n AND b cmp' k, with a space in front of every word and the
      keywords in any casing, is read, parsed and compiled to code that makes both comparisons before AND
      combines them. */
  lemma ComparisonsFromText(sel: string, from: string, t: string, wh: string, a: string, cmp: TokenType, n: string,
                            and: string, b: string, cmp': TokenType, k: string)
    requires InAnyCase(sel, "SELECT") && InAnyCase(from, "FROM") && InAnyCase(wh, "WHERE") && InAnyCase(and, "AND")
    requires IsName(t) && IsName(a) && IsName(b) && IsWhole(n) && IsWhole(k) && InLayer(cmp, 3) && InLayer(cmp', 3)
    ensures var words := [sel, "*", from, t, wh] + ([a, Mark(cmp), n] + [and] + [b, Mark(cmp'), k]);
      var toks := AllTokens(Spaced(words));
      && Ends(toks) && Parse(toks).ok && Parse(toks).query.tableName == (if |t| <= 63 then t else t[..63])
      && Parse(toks).query.postfix ==
           [Token(IDENTIFIER, a), Token(INTEGER, n), Token(cmp, Mark(cmp))]
           + [Token(IDENTIFIER, b), Token(INTEGER, k), Token(cmp', Mark(cmp'))] + [Token(AND, and)]
  {
    hide Plain, IsCondition, AsExpr, Layered, CondText, PostOrder, Spells, AllSpell, IsName, IsWhole, InAnyCase,
      Spaced, Parse, AllTokens;
    FrontSpelled(sel, from, t, wh);
    var c := ComparisonsSpelled(a, cmp, n, b, cmp', k, and);
    WordsToPostOrder([sel, "*", from, t, wh],
      [Token(SELECT, sel), Token(MUL, "*"), Token(FROM, from), Token(IDENTIFIER, t), Token(WHERE, wh)],
      [a, Mark(cmp), n] + [and] + [b, Mark(cmp'), k], c);
  }

  /** A DELETE on the condition x = c. */
  function DeleteByEquals(del: Token, from: Token, table: Token, w: Token, x: Token, c: Token, rest: seq<Token>)
    : seq<Token>
  {
    [del] + ([from] + ([table] + ([w] + ([x, Token(ASSIGN, "="), c] + rest))))
  }

  /** It takes the rows where c is true, whatever x is. */
  lemma DeleteByEqualsMeaning<V>(del: Token, from: Token, table: Token, w: Token, x: Token, c: Token,
                                 rest: seq<Token>, leaf: Token -> V, apply: (Token, V, V) -> V, truth: V -> bool)
    requires del.typ == DELETE && from.typ == FROM && table.typ == IDENTIFIER && w.typ == WHERE
    requires x.IsOperand() && c.IsOperand() && Tail(rest)
    ensures var toks := DeleteByEquals(del, from, table, w, x, c, rest);
      && Ends(toks) && Parse(toks).ok && Parse(toks).query.typ == DeleteQuery && Parse(toks).query.hasWhere
      && Verdict(Parse(toks).query, leaf, apply, truth) == truth(leaf(c))
  {
    hide Parse, Postfix;
    var s := [x, Token(ASSIGN, "="), c];
    DeleteMeaning(del, Some(from), table, Where(w, s), rest);
    EqualsWitness(x, c, leaf, apply, truth);
  }

  /** So of two rows that give c the same value, as every two do when c is a constant, it takes both or
      neither: on a constant it takes every row or none. */
  lemma DeleteByEqualsTellsNoRowsApart<V>(del: Token, from: Token, table: Token, w: Token, x: Token, c: Token,
                                          rest: seq<Token>, leaf: Token -> V, leaf': Token -> V,
                                          apply: (Token, V, V) -> V, truth: V -> bool)
    requires del.typ == DELETE && from.typ == FROM && table.typ == IDENTIFIER && w.typ == WHERE
    requires x.IsOperand() && c.IsOperand() && Tail(rest) && leaf(c) == leaf'(c)
    ensures var toks := DeleteByEquals(del, from, table, w, x, c, rest);
      && Ends(toks)
      && Verdict(Parse(toks).query, leaf, apply, truth) == Verdict(Parse(toks).query, leaf', apply, truth)
  {
    hide Parse, Verdict, DeleteByEquals;
    DeleteByEqualsMeaning(del, from, table, w, x, c, rest, leaf, apply, truth);
    DeleteByEqualsMeaning(del, from, table, w, x, c, rest, leaf', apply, truth);
  }
}
