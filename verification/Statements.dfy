/** What the parser takes from a well-formed statement, from its text to the rows it selects. */
module Statements {
  import opened Options
  import opened Sequences
  import opened Tokens
  import opened ShuntingYard
  import opened Lexers
  import opened Parsers

  // ---------- reading over known tokens ----------

  /** The cursor holding the first token of a list. */
  function Front(ts: seq<Token>): (c: Cursor)
    requires Ends(ts)
    ensures c.Valid() && c.tok == ts[0]
  {
    Cursor(END, ts).Next()
  }

  lemma EndsAfter(s: seq<Token>, rest: seq<Token>)
    requires Ends(rest)
    ensures Ends(s + rest)
  {
  }

  lemma NextFront(tok: Token, rest: seq<Token>)
    requires Ends(rest)
    ensures Ends([tok] + rest) && Front([tok] + rest).Next() == Front(rest)
  {
    assert ([tok] + rest)[1..] == rest;
  }

  predicate Passed(s: seq<Token>, stop: TokenType -> bool) {
    forall k :: 0 <= k < |s| ==> s[k].typ != END_OF_INPUT && !stop(s[k].typ)
  }

  lemma {:induction false} SkipsOver(s: seq<Token>, rest: seq<Token>, stop: TokenType -> bool)
    requires Ends(rest) && Passed(s, stop) && (stop(rest[0].typ) || rest[0].typ == END_OF_INPUT)
    ensures Ends(s + rest) && SkipTo(Front(s + rest), stop) == Front(rest)
  {
    EndsAfter(s, rest);
    if s == [] {
      assert s + rest == rest;
    } else {
      assert s + rest == [s[0]] + (s[1..] + rest);
      EndsAfter(s[1..], rest);
      NextFront(s[0], s[1..] + rest);
      SkipsOver(s[1..], rest, stop);
    }
  }

  // ---------- WHERE clauses ----------

  lemma {:induction false} ReadsWhere(s: seq<Token>, rest: seq<Token>)
    requires Ends(rest) && Passed(s, EndsWhere) && EndsWhere(rest[0].typ)
    ensures Ends(s + rest) && WhereTokens(Front(s + rest)) == s
  {
    hide Front, Cursor.Next, Cursor.Valid, Ends;
    EndsAfter(s, rest);
    if s == [] {
      assert s + rest == rest;
    } else {
      assert s + rest == [s[0]] + (s[1..] + rest);
      EndsAfter(s[1..], rest);
      NextFront(s[0], s[1..] + rest);
      ReadsWhere(s[1..], rest);
    }
  }

  /** None of the tokens has one of these types. */
  predicate NoneOf(s: seq<Token>, types: set<TokenType>) {
    forall k :: 0 <= k < |s| ==> s[k].typ !in types
  }

  /** No token ends the condition. */
  predicate InClause(s: seq<Token>) {
    NoneOf(s, {SEMICOLON, ORDER, END_OF_INPUT})
  }

  /** The tokens of a condition that is compiled whole: there are at most 256. */
  predicate Clause(s: seq<Token>) {
    InClause(s) && |s| <= 256
  }

  /** The end of a statement: what follows a condition, the end of input last. */
  predicate Tail(rest: seq<Token>) {
    Ends(rest) && rest[0].typ in {SEMICOLON, ORDER, END_OF_INPUT}
  }

  /** A query with the condition compiled into it. */
  function WithWhere(q: ParsedQuery, s: seq<Token>): ParsedQuery {
    q.(hasWhere := true, postfix := Postfix(s))
  }

  /** WHERE, a condition, and the end of the statement: the first 256 tokens of the condition are
      compiled. */
  lemma LongWhereMeaning(w: Token, s: seq<Token>, rest: seq<Token>, q: ParsedQuery)
    requires w.typ == WHERE && InClause(s) && Tail(rest)
    ensures var ts := [w] + (s + rest);
      Ends(ts) && ParseRest(Front(ts), q) == Parsed(true, WithWhere(q, Take(s, 256)))
  {
    hide Postfix;
    ReadsWhere(s, rest);
    NextFront(w, s + rest);
    PostfixFits(Take(s, 256));
  }

  /** So a condition of at most 256 tokens is compiled whole. */
  lemma WhereMeaning(w: Token, s: seq<Token>, rest: seq<Token>, q: ParsedQuery)
    requires w.typ == WHERE && Clause(s) && Tail(rest)
    ensures var ts := [w] + (s + rest);
      Ends(ts) && ParseRest(Front(ts), q) == Parsed(true, WithWhere(q, s))
  {
    hide Postfix, ParseRest, WithWhere, Ends, Front;
    LongWhereMeaning(w, s, rest, q);
  }

  // ---------- SELECT ----------

  /** A joined table and the tokens of its ON condition, which are not looked at. */
  datatype Join = Join(kw: Token, table: Token, on: seq<Token>)
  {
    predicate Valid() {
      kw.typ == JOIN && table.typ == IDENTIFIER && NoneOf(on, {JOIN, WHERE, SEMICOLON, END_OF_INPUT})
    }
  }

  function JoinToks(joins: seq<Join>): seq<Token> {
    if joins == [] then [] else [joins[0].kw, joins[0].table] + joins[0].on + JoinToks(joins[1..])
  }

  function JoinNames(joins: seq<Join>): (names: seq<string>)
    ensures |names| == |joins|
  {
    if joins == [] then [] else [Name(joins[0].table)] + JoinNames(joins[1..])
  }

  /** Where the skipping of an ON condition halts. */
  predicate Halts(typ: TokenType) {
    typ in {JOIN, WHERE, SEMICOLON, END_OF_INPUT}
  }

  lemma JoinsStop(joins: seq<Join>, rest: seq<Token>)
    requires rest != [] && Halts(rest[0].typ)
    requires forall k :: 0 <= k < |joins| ==> joins[k].Valid()
    ensures Halts((JoinToks(joins) + rest)[0].typ)
  {
  }

  function WithJoin(q: ParsedQuery, table: Token): ParsedQuery {
    q.(joinTables := Capped(q.joinTables, Name(table), MAX_JOIN_TABLES))
  }

  lemma JoinMeaning(j: Join, more: seq<Token>, q: ParsedQuery)
    requires j.Valid() && Ends(more) && Halts(more[0].typ)
    ensures var ts := [j.kw] + ([j.table] + (j.on + more));
      Ends(ts) && ParseJoins(Front(ts), q) == ParseJoins(Front(more), WithJoin(q, j.table))
  {
    hide Ends, Cursor.Next, Cursor.Valid, Front, SkipTo, Capped, Name, ParseJoins;
    SkipsOver(j.on, more, EndsOn);
    NextFront(j.table, j.on + more);
    NextFront(j.kw, [j.table] + (j.on + more));
    JoinStep(Front([j.kw] + ([j.table] + (j.on + more))), q);
  }

  lemma Regroup(a: Token, b: Token, s: seq<Token>, t: seq<Token>, u: seq<Token>)
    ensures [a, b] + s + t + u == [a] + ([b] + (s + (t + u)))
  {
  }

  lemma FirstJoin(joins: seq<Join>, rest: seq<Token>)
    requires joins != []
    ensures var j, more := joins[0], JoinToks(joins[1..]) + rest;
      JoinToks(joins) + rest == [j.kw] + ([j.table] + (j.on + more))
  {
    Regroup(joins[0].kw, joins[0].table, joins[0].on, JoinToks(joins[1..]), rest);
  }

  lemma FirstName(joins: seq<Join>, q: ParsedQuery)
    requires joins != [] && |q.joinTables| <= MAX_JOIN_TABLES
    ensures var q', names := WithJoin(q, joins[0].table), JoinNames(joins[1..]);
      && |q'.joinTables| <= MAX_JOIN_TABLES
      && q'.(joinTables := Take(q'.joinTables + names, MAX_JOIN_TABLES))
         == q.(joinTables := Take(q.joinTables + JoinNames(joins), MAX_JOIN_TABLES))
  {
    hide Take, Name;
    CappedThenMore(q.joinTables, Name(joins[0].table), JoinNames(joins[1..]));
  }

  /** The joined tables as far as there is room for them. */
  lemma {:induction false} JoinsMeaning(joins: seq<Join>, rest: seq<Token>, q: ParsedQuery)
    requires Ends(rest) && (joins == [] || Halts(rest[0].typ)) && rest[0].typ != JOIN
    requires forall k :: 0 <= k < |joins| ==> joins[k].Valid()
    requires |q.joinTables| <= MAX_JOIN_TABLES
    ensures Ends(JoinToks(joins) + rest)
    ensures ParseJoins(Front(JoinToks(joins) + rest), q) ==
      Joined(Front(rest), q.(joinTables := Take(q.joinTables + JoinNames(joins), MAX_JOIN_TABLES)))
  {
    hide Front, Cursor.Next, Cursor.Valid, SkipTo, Name, Take, ParseJoins, JoinToks, JoinNames, WithJoin, Capped;
    EndsAfter(JoinToks(joins), rest);
    if joins == [] {
      NoJoins(joins, rest, q);
    } else {
      var j, more := joins[0], JoinToks(joins[1..]) + rest;
      JoinsStop(joins[1..], rest);
      FirstJoin(joins, rest);
      FirstName(joins, q);
      EndsAfter(JoinToks(joins[1..]), rest);
      JoinMeaning(j, more, q);
      JoinsMeaning(joins[1..], rest, WithJoin(q, j.table));
    }
  }

  lemma NoJoins(joins: seq<Join>, rest: seq<Token>, q: ParsedQuery)
    requires joins == [] && Ends(rest) && rest[0].typ != JOIN && |q.joinTables| <= MAX_JOIN_TABLES
    ensures JoinToks(joins) + rest == rest
    ensures ParseJoins(Front(rest), q) ==
      Joined(Front(rest), q.(joinTables := Take(q.joinTables + JoinNames(joins), MAX_JOIN_TABLES)))
  {
    assert q.joinTables + [] == q.joinTables;
  }

  lemma CappedThenMore(names: seq<string>, name: string, more: seq<string>)
    requires |names| <= MAX_JOIN_TABLES
    ensures Take(Capped(names, name, MAX_JOIN_TABLES) + more, MAX_JOIN_TABLES) ==
      Take(names + ([name] + more), MAX_JOIN_TABLES)
  {
  }

  /** What stands between SELECT and FROM. */
  predicate NoFrom(cols: seq<Token>) {
    NoneOf(cols, {FROM, END_OF_INPUT})
  }

  lemma ParsesSelect(toks: seq<Token>)
    requires Ends(toks) && toks[0].typ == SELECT
    ensures Parse(toks) == ParseSelect(Front(toks), BLANK.(typ := SelectQuery))
  {
  }

  lemma SelectFront(sel: Token, cols: seq<Token>, from: Token, table: Token, ts: seq<Token>, q: ParsedQuery)
    requires sel.typ == SELECT && NoFrom(cols) && from.typ == FROM && table.typ == IDENTIFIER && Ends(ts)
    ensures var toks := [sel] + (cols + ([from] + ([table] + ts)));
      Ends(toks) && ParseSelect(Front(toks), q) ==
        var j := ParseJoins(Front(ts), q.(tableName := Name(table)));
        ParseRest(j.c, j.query)
  {
    hide Ends, Cursor.Next, Cursor.Valid, Front, SkipTo, ParseJoins, ParseRest, Name;
    NextFront(table, ts);
    NextFront(from, [table] + ts);
    SkipsOver(cols, [from] + ([table] + ts), IsFrom);
    NextFront(sel, cols + ([from] + ([table] + ts)));
  }

  /** SELECT anything FROM a table, JOIN tables, WHERE a condition: the tables are found and the
      condition is compiled. */
  lemma SelectMeaning(sel: Token, cols: seq<Token>, from: Token, table: Token, joins: seq<Join>, w: Token,
      s: seq<Token>, rest: seq<Token>)
    requires sel.typ == SELECT && NoFrom(cols) && from.typ == FROM && table.typ == IDENTIFIER && w.typ == WHERE
    requires forall k :: 0 <= k < |joins| ==> joins[k].Valid()
    requires Clause(s) && Tail(rest)
    ensures var toks := [sel] + (cols + ([from] + ([table] + (JoinToks(joins) + ([w] + (s + rest))))));
      var q := BLANK.(typ := SelectQuery, tableName := Name(table),
        joinTables := Take(JoinNames(joins), MAX_JOIN_TABLES));
      Ends(toks) && Parse(toks) == Parsed(true, WithWhere(q, s))
  {
    hide Ends, Cursor.Next, Cursor.Valid, Front, Parse, ParseSelect, ParseJoins, ParseRest, Take, WithWhere,
        JoinToks, JoinNames, Name;
    var q := BLANK.(typ := SelectQuery, tableName := Name(table));
    var ts := [w] + (s + rest);
    WhereMeaning(w, s, rest, q.(joinTables := Take([] + JoinNames(joins), MAX_JOIN_TABLES)));
    JoinsMeaning(joins, ts, q);
    assert [] + JoinNames(joins) == JoinNames(joins);
    SelectFront(sel, cols, from, table, JoinToks(joins) + ts, BLANK.(typ := SelectQuery));
    ParsesSelect([sel] + (cols + ([from] + ([table] + (JoinToks(joins) + ts)))));
  }

  /** The verdict a parsed query gives on one row. */
  function Verdict<V>(q: ParsedQuery, leaf: Token -> V, apply: (Token, V, V) -> V, truth: V -> bool): bool {
    Passes(Evaluate(q.postfix, leaf, apply, []), truth)
  }

  /** Without a WHERE clause the query has no condition, and every row passes. */
  lemma SelectAllMeaning<V>(sel: Token, cols: seq<Token>, from: Token, table: Token, joins: seq<Join>, rest: seq<Token>,
                            leaf: Token -> V, apply: (Token, V, V) -> V, truth: V -> bool)
    requires sel.typ == SELECT && NoFrom(cols) && from.typ == FROM && table.typ == IDENTIFIER
    requires forall k :: 0 <= k < |joins| ==> joins[k].Valid()
    requires Ends(rest) && rest[0].typ != WHERE && rest[0].typ != JOIN && (joins == [] || Halts(rest[0].typ))
    ensures var toks := [sel] + (cols + ([from] + ([table] + (JoinToks(joins) + rest))));
      var q := BLANK.(typ := SelectQuery, tableName := Name(table),
        joinTables := Take(JoinNames(joins), MAX_JOIN_TABLES));
      && Ends(toks) && Parse(toks) == Parsed(true, q)
      && !q.hasWhere && Verdict(q, leaf, apply, truth)
  {
    hide Ends, Cursor.Next, Cursor.Valid, Front, Parse, ParseSelect, ParseJoins, Take, JoinToks, JoinNames, Name;
    JoinsMeaning(joins, rest, BLANK.(typ := SelectQuery, tableName := Name(table)));
    assert [] + JoinNames(joins) == JoinNames(joins);
    SelectFront(sel, cols, from, table, JoinToks(joins) + rest, BLANK.(typ := SelectQuery));
    ParsesSelect([sel] + (cols + ([from] + ([table] + (JoinToks(joins) + rest)))));
  }

  // ---------- DELETE and UPDATE ----------

  /** A WHERE clause, if one is written. */
  datatype Where = NoWhere | Where(kw: Token, clause: seq<Token>)
  {
    /** The clause is compiled whole; without one, what follows does not start one. */
    predicate Valid(rest: seq<Token>) {
      match this
      case NoWhere => Ends(rest) && rest[0].typ != WHERE
      case Where(kw, s) => kw.typ == WHERE && Clause(s) && Tail(rest)
    }

    function Toks(rest: seq<Token>): seq<Token> {
      match this
      case NoWhere => rest
      case Where(kw, s) => [kw] + (s + rest)
    }

    function Into(q: ParsedQuery): ParsedQuery {
      match this
      case NoWhere => q
      case Where(_, s) => WithWhere(q, s)
    }
  }

  /** What follows a statement's table or value: its condition is compiled, or it has none. */
  lemma RestMeaning(w: Where, rest: seq<Token>, q: ParsedQuery)
    requires w.Valid(rest)
    ensures Ends(w.Toks(rest)) && ParseRest(Front(w.Toks(rest)), q) == Parsed(true, w.Into(q))
  {
    match w
    case NoWhere =>
    case Where(kw, s) =>
      WhereMeaning(kw, s, rest, q);
  }

  /** DELETE a table's rows, the word FROM optional, the condition too. */
  lemma DeleteMeaning(del: Token, from: Option<Token>, table: Token, w: Where, rest: seq<Token>)
    requires del.typ == DELETE && (from.Some? ==> from.value.typ == FROM) && table.typ == IDENTIFIER && w.Valid(rest)
    ensures var named := [table] + w.Toks(rest);
      var toks := [del] + if from.Some? then [from.value] + named else named;
      Ends(toks) && Parse(toks) == Parsed(true, w.Into(BLANK.(typ := DeleteQuery, tableName := Name(table))))
  {
    hide Ends, Cursor.Next, Cursor.Valid, ParseRest, Take, WithWhere, Name, Where.Toks, Where.Into, Where.Valid;
    RestMeaning(w, rest, BLANK.(typ := DeleteQuery, tableName := Name(table)));
    var named := [table] + w.Toks(rest);
    NextFront(table, w.Toks(rest));
    if from.Some? {
      NextFront(from.value, named);
      NextFront(del, [from.value] + named);
    } else {
      NextFront(del, named);
    }
  }

  /** UPDATE a table: the column is the identifier after SET and the value the second token after
      that, whatever the token between them; the condition is optional. */
  lemma UpdateMeaning(upd: Token, table: Token, set_: Token, col: Token, eq: Token, val: Token, w: Where,
      rest: seq<Token>)
    requires upd.typ == UPDATE && table.typ == IDENTIFIER && set_.typ == SET && col.typ == IDENTIFIER
    requires w.Valid(rest)
    ensures var toks := [upd] + ([table] + ([set_] + ([col] + ([eq] + ([val] + w.Toks(rest))))));
      Ends(toks) && Parse(toks) == Parsed(true, w.Into(Updated(table, col, val)))
  {
    hide Ends, Cursor.Next, Cursor.Valid, ParseRest, Take, WithWhere, Name, Where.Toks, Where.Into, Where.Valid;
    RestMeaning(w, rest, Updated(table, col, val));
    var ts := w.Toks(rest);
    NextFront(val, ts);
    NextFront(eq, [val] + ts);
    NextFront(col, [eq] + ([val] + ts));
    NextFront(set_, [col] + ([eq] + ([val] + ts)));
    NextFront(table, [set_] + ([col] + ([eq] + ([val] + ts))));
    NextFront(upd, [table] + ([set_] + ([col] + ([eq] + ([val] + ts)))));
  }

  /** An UPDATE of one column, before its condition. */
  function Updated(table: Token, col: Token, val: Token): ParsedQuery {
    BLANK.(typ := UpdateQuery, tableName := Name(table), updateCol := Name(col), updateVal := val.lexeme,
           updateValIsNum := val.typ == INTEGER || val.typ == FLOAT_LIT)
  }

  // ---------- which statements are refused ----------

  /** The type of a token counted from zero; past the last one the input has ended. */
  function TypeAt(toks: seq<Token>, i: nat): TokenType {
    if i < |toks| then toks[i].typ else END_OF_INPUT
  }

  /** The first FROM, which comes before the end of the input, has a name behind it. */
  ghost predicate NameAfterFrom(toks: seq<Token>) {
    exists k: nat :: FirstAt(toks, 1, k) && toks[k].typ == FROM && TypeAt(toks, k + 1) == IDENTIFIER
  }

  /** The first FROM or end of input from position i on. */
  predicate FirstAt(toks: seq<Token>, i: nat, k: nat) {
    && i <= k < |toks| && toks[k].typ in {FROM, END_OF_INPUT}
    && forall m :: i <= m < k ==> toks[m].typ !in {FROM, END_OF_INPUT}
  }

  lemma {:induction false} FirstFrom(toks: seq<Token>, i: nat) returns (k: nat)
    requires Ends(toks) && i < |toks|
    ensures FirstAt(toks, i, k)
    decreases |toks| - i
  {
    if toks[i].typ in {FROM, END_OF_INPUT} {
      k := i;
    } else {
      k := FirstFrom(toks, i + 1);
    }
  }

  lemma FrontStep(toks: seq<Token>, i: nat)
    requires Ends(toks) && i + 1 < |toks|
    ensures Ends(toks[i..]) && Ends(toks[i + 1..])
    ensures Front(toks[i..]).tok == toks[i] && Front(toks[i..]).Next() == Front(toks[i + 1..])
  {
    NextFront(toks[i], toks[i + 1..]);
    assert toks[i..] == [toks[i]] + toks[i + 1..];
  }

  lemma SkipsToFrom(toks: seq<Token>, k: nat)
    requires Ends(toks) && FirstAt(toks, 1, k)
    ensures Ends(toks[1..]) && Ends(toks[k..]) && SkipTo(Front(toks[1..]), IsFrom) == Front(toks[k..])
  {
    hide Front, Cursor.Next, SkipTo;
    assert toks[1..] == toks[1..k] + toks[k..];
    SkipsOver(toks[1..k], toks[k..], IsFrom);
  }

  lemma NotLast(toks: seq<Token>, k: nat)
    requires Ends(toks) && k < |toks| && toks[k].typ != END_OF_INPUT
    ensures k + 1 < |toks| && TypeAt(toks, k + 1) == toks[k + 1].typ
  {
  }

  lemma OnlyFirst(toks: seq<Token>, k: nat)
    requires FirstAt(toks, 1, k)
    ensures NameAfterFrom(toks) <==> toks[k].typ == FROM && TypeAt(toks, k + 1) == IDENTIFIER
  {
    assert forall j: nat :: FirstAt(toks, 1, j) ==> j == k;
  }

  lemma RestIsOk(c: Cursor, q: ParsedQuery)
    requires c.Valid()
    ensures ParseRest(c, q).ok
  {
  }

  lemma SelectOk(c: Cursor, q: ParsedQuery)
    requires c.Valid()
    ensures var f := SkipTo(c.Next(), IsFrom);
      ParseSelect(c, q).ok <==> !f.Is(END_OF_INPUT) && f.Next().Is(IDENTIFIER)
  {
    hide SkipTo, Cursor.Next, ParseRest, Cursor.Valid;
    var t := SkipTo(c.Next(), IsFrom).Next();
    var j := ParseJoins(t.Next(), q.(tableName := Name(t.tok)));
    RestIsOk(j.c, j.query);
  }

  lemma SelectAccepted(toks: seq<Token>)
    requires Ends(toks) && toks[0].typ == SELECT
    ensures Parse(toks).ok <==> NameAfterFrom(toks)
  {
    hide Front, Cursor.Next, SkipTo, ParseSelect, Parse, FirstAt, TypeAt, NameAfterFrom;
    ParsesSelect(toks);
    SelectOk(Front(toks), BLANK.(typ := SelectQuery));
    NotLast(toks, 0);
    var k := FirstFrom(toks, 1);
    SkipsToFrom(toks, k);
    OnlyFirst(toks, k);
    FromThe(toks, k);
    assert toks[0..] == toks;
    FrontStep(toks, 0);
    if toks[k].typ == FROM {
      NotLast(toks, k);
      FrontStep(toks, k);
    }
  }

  lemma FromThe(toks: seq<Token>, k: nat)
    requires Ends(toks) && FirstAt(toks, 1, k)
    ensures 1 <= k < |toks| && (toks[k].typ == FROM || toks[k].typ == END_OF_INPUT)
    ensures Ends(toks[k..]) && Front(toks[k..]).tok == toks[k]
  {
  }

  /** The four statements by their first words; nothing else is accepted.  What follows the names that
      are asked for here is never refused. */
  ghost predicate Acceptable(toks: seq<Token>) {
    match TypeAt(toks, 0)
    case SELECT => NameAfterFrom(toks)
    case INSERT => TypeAt(toks, 1) == INTO && TypeAt(toks, 2) == IDENTIFIER
    case UPDATE => TypeAt(toks, 1) == IDENTIFIER && TypeAt(toks, 2) == SET && TypeAt(toks, 3) == IDENTIFIER
    case DELETE => TypeAt(toks, if TypeAt(toks, 1) == FROM then 2 else 1) == IDENTIFIER
    case _ => false
  }

  lemma TypesAhead(toks: seq<Token>)
    requires Ends(toks)
    ensures var c := Cursor(END, toks).Next();
      && c.tok.typ == TypeAt(toks, 0) == toks[0].typ && c.Next().tok.typ == TypeAt(toks, 1)
      && c.Next().Next().tok.typ == TypeAt(toks, 2) && c.Next().Next().Next().tok.typ == TypeAt(toks, 3)
  {
  }

  /** A statement is accepted if and only if it starts in one of these ways. */
  lemma AcceptedExactly(toks: seq<Token>)
    requires Ends(toks)
    ensures Parse(toks).ok <==> Acceptable(toks)
  {
    hide NameAfterFrom, ParseSelect, TypeAt, Cursor.Next, ColumnList, ValueList, Postfix, WhereTokens;
    TypesAhead(toks);
    if toks[0].typ == SELECT {
      SelectAccepted(toks);
    }
  }
}
