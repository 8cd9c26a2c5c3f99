/** The statement parser: what each of the four statement forms takes from a query's tokens. */
module Parsers {
  import opened Sequences
  import opened Tokens
  import opened ShuntingYard
  import opened Lexers

  const MAX_JOIN_TABLES := 8
  const MAX_COLUMNS := 32
  const MAX_NAME := 63

  datatype QueryType = SelectQuery | InsertQuery | UpdateQuery | DeleteQuery | UnknownQuery

  datatype ParsedQuery = ParsedQuery(
    typ: QueryType, tableName: string, joinTables: seq<string>, hasWhere: bool, postfix: seq<Token>,
    insertCols: seq<string>, insertVals: seq<string>, updateCol: string, updateVal: string, updateValIsNum: bool)

  const BLANK := ParsedQuery(UnknownQuery, "", [], false, [], [], [], "", "", false)

  function Name(tok: Token): string {
    Take(tok.lexeme, MAX_NAME)
  }

  /** Appends while the table has room. */
  function Capped(names: seq<string>, name: string, max: nat): seq<string> {
    if |names| < max then names + [name] else names
  }

  // ---------- reading tokens one at a time ----------

  /** Token lists as the lexer gives them: the end of input last. */
  predicate Ends(toks: seq<Token>) {
    toks != [] && toks[|toks| - 1].typ == END_OF_INPUT
  }

  lemma {:induction false} AllTokensEnd(s: string)
    ensures Ends(AllTokens(s))
    decreases |s|
  {
    NextAdvances(s);
    if Next(s).tok.typ != END_OF_INPUT {
      AllTokensEnd(Next(s).rest);
    }
  }

  /** The token in hand and the ones not read yet. */
  datatype Cursor = Cursor(tok: Token, toks: seq<Token>)
  {
    predicate Valid() {
      Ends(toks)
    }

    /** Reads on; the end of input is never passed. */
    function Next(): (c: Cursor)
      requires Valid()
      ensures c.Valid() && (tok.typ != END_OF_INPUT ==> c.Left() < Left())
    {
      Cursor(toks[0], if |toks| == 1 then toks else toks[1..])
    }

    function Left(): nat {
      if tok.typ == END_OF_INPUT then 0 else |toks|
    }

    function Is(typ: TokenType): bool {
      tok.typ == typ
    }
  }

  /** Reads until a token passes the test or the input ends. */
  function SkipTo(c: Cursor, stop: TokenType -> bool): (c': Cursor)
    requires c.Valid()
    ensures c'.Valid() && c'.Left() <= c.Left() && (c'.tok.typ == END_OF_INPUT || stop(c'.tok.typ))
    decreases c.Left()
  {
    if stop(c.tok.typ) || c.Is(END_OF_INPUT) then c else SkipTo(c.Next(), stop)
  }

  // ---------- the statements ----------

  datatype Parsed = Parsed(ok: bool, query: ParsedQuery)

  predicate EndsWhere(typ: TokenType) {
    typ == END_OF_INPUT || typ == SEMICOLON || typ == ORDER
  }

  /** The tokens of a WHERE clause. */
  function WhereTokens(c: Cursor): seq<Token>
    requires c.Valid()
    decreases c.Left()
  {
    if EndsWhere(c.tok.typ) then [] else [c.tok] + WhereTokens(c.Next())
  }

  function ParseWhere(c: Cursor, q: ParsedQuery): Parsed
    requires c.Valid()
  {
    var where := Take(WhereTokens(c.Next()), MAX_POSTFIX);
    Parsed(true, q.(hasWhere := true, postfix := Clipped(Postfix(where), MAX_POSTFIX)))
  }

  /** The rest of a statement that may end in a WHERE clause. */
  function ParseRest(c: Cursor, q: ParsedQuery): Parsed
    requires c.Valid()
  {
    if c.Is(WHERE) then ParseWhere(c, q) else Parsed(true, q)
  }

  predicate IsFrom(typ: TokenType) {
    typ == FROM
  }

  predicate EndsOn(typ: TokenType) {
    typ == JOIN || typ == WHERE || typ == SEMICOLON
  }

  datatype Joined = Joined(c: Cursor, query: ParsedQuery)

  /** The query with one more joined table, if the token names one and there is room. */
  function Joining(tok: Token, q: ParsedQuery): ParsedQuery {
    if tok.typ == IDENTIFIER then q.(joinTables := Capped(q.joinTables, Name(tok), MAX_JOIN_TABLES)) else q
  }

  function ParseJoins(c: Cursor, q: ParsedQuery): (j: Joined)
    requires c.Valid()
    ensures j.c.Valid()
    decreases c.Left()
  {
    if !c.Is(JOIN) then Joined(c, q)
    else
      var t := c.Next();
      ParseJoins(SkipTo(t.Next(), EndsOn), Joining(t.tok, q))
  }

  function ParseSelect(c: Cursor, q: ParsedQuery): Parsed
    requires c.Valid()
  {
    var f := SkipTo(c.Next(), IsFrom);
    if f.Is(END_OF_INPUT) then Parsed(false, q)
    else
      var t := f.Next();
      if !t.Is(IDENTIFIER) then Parsed(false, q)
      else
        var j := ParseJoins(t.Next(), q.(tableName := Name(t.tok)));
        ParseRest(j.c, j.query)
  }

  predicate EndsList(typ: TokenType) {
    typ == RPAREN || typ == END_OF_INPUT
  }

  /** The names in a column list; other tokens are passed over. */
  function ColumnList(c: Cursor, cols: seq<string>): (r: (Cursor, seq<string>))
    requires c.Valid()
    ensures r.0.Valid()
    decreases c.Left()
  {
    if EndsList(c.tok.typ) then (c, cols)
    else ColumnList(c.Next(), if c.Is(IDENTIFIER) then Capped(cols, Name(c.tok), MAX_COLUMNS) else cols)
  }

  /** The texts in a value list: every token but a comma is one. */
  function ValueList(c: Cursor, vals: seq<string>): seq<string>
    requires c.Valid()
    decreases c.Left()
  {
    if EndsList(c.tok.typ) then vals
    else ValueList(c.Next(), if c.Is(COMMA) then vals else Capped(vals, c.tok.lexeme, MAX_COLUMNS))
  }

  function ParseValues(c: Cursor, q: ParsedQuery): Parsed
    requires c.Valid()
  {
    var v := if c.Is(VALUES) then c.Next() else c;
    Parsed(true, if v.Is(LPAREN) then q.(insertVals := ValueList(v.Next(), [])) else q)
  }

  /** A list of columns, if there is one, and the values. */
  function ParseLists(c: Cursor, q: ParsedQuery): Parsed
    requires c.Valid()
  {
    if c.Is(LPAREN) then
      var cols := ColumnList(c.Next(), []);
      ParseValues(cols.0.Next(), q.(insertCols := cols.1))
    else ParseValues(c, q)
  }

  function ParseInsert(c: Cursor, q: ParsedQuery): Parsed
    requires c.Valid()
  {
    var i := c.Next();
    if !i.Is(INTO) then Parsed(false, q)
    else
      var t := i.Next();
      if !t.Is(IDENTIFIER) then Parsed(false, q)
      else
        ParseLists(t.Next(), q.(tableName := Name(t.tok)))
  }

  function ParseUpdate(c: Cursor, q: ParsedQuery): Parsed
    requires c.Valid()
  {
    var t := c.Next();
    if !t.Is(IDENTIFIER) then Parsed(false, q)
    else
      var s, q1 := t.Next(), q.(tableName := Name(t.tok));
      if !s.Is(SET) then Parsed(false, q1)
      else
        var col := s.Next();
        if !col.Is(IDENTIFIER) then Parsed(false, q1)
        else
          var v := col.Next().Next();
          var isNum := v.Is(INTEGER) || v.Is(FLOAT_LIT);
          ParseRest(v.Next(), q1.(updateCol := Name(col.tok), updateVal := v.tok.lexeme, updateValIsNum := isNum))
  }

  function ParseDelete(c: Cursor, q: ParsedQuery): Parsed
    requires c.Valid()
  {
    var n := c.Next();
    var t := if n.Is(FROM) then n.Next() else n;
    if !t.Is(IDENTIFIER) then Parsed(false, q)
    else ParseRest(t.Next(), q.(tableName := Name(t.tok)))
  }

  function Parse(toks: seq<Token>): Parsed
    requires Ends(toks)
  {
    var c := Cursor(END, toks).Next();
    match c.tok.typ
    case SELECT => ParseSelect(c, BLANK.(typ := SelectQuery))
    case INSERT => ParseInsert(c, BLANK.(typ := InsertQuery))
    case UPDATE => ParseUpdate(c, BLANK.(typ := UpdateQuery))
    case DELETE => ParseDelete(c, BLANK.(typ := DeleteQuery))
    case _ => Parsed(false, BLANK)
  }

  // ---------- the code ----------

  /** Where a parse stands: the token in hand and the lexer behind it. */
  ghost function At(tok: Token, lex: Lexer): (c: Cursor)
    requires lex.Valid()
    reads lex
    ensures c.Valid() && c.tok == tok
  {
    AllTokensEnd(lex.Rest());
    Cursor(tok, AllTokens(lex.Rest()))
  }

  method Advance(lex: Lexer, ghost before: Token) returns (t: Token)
    requires lex.Valid()
    modifies lex
    ensures lex.Valid() && At(t, lex) == old(At(before, lex)).Next()
  {
    hide Lexers.Next;
    NextAdvances(lex.Rest());
    t := lex.NextToken();
    if t.typ == END_OF_INPUT {
      EmptyText();
    }
  }

  lemma EmptyText()
    ensures AllTokens("") == [END]
  {
    assert Trimmed("") == "";
  }

  lemma TakeNone(n: nat)
    ensures Take<Token>([], n) == []
  {
  }

  lemma TakeStep(s: seq<Token>, t: Token, n: nat)
    ensures Take(s + [t], n) == if |Take(s, n)| < n then Take(s, n) + [t] else Take(s, n)
  {
  }

  method ReadWhere(lex: Lexer, tok: Token, q: ParsedQuery) returns (ok: bool, q': ParsedQuery)
    requires lex.Valid()
    modifies lex
    ensures lex.Valid() && Parsed(ok, q') == ParseWhere(old(At(tok, lex)), q)
  {
    hide AllTokens, Postfix, Cursor.Next, Cursor.Valid, At, Take;
    TakeNone(MAX_POSTFIX);
    var t := Advance(lex, tok);
    ghost var all := WhereTokens(At(t, lex));
    var where: seq<Token> := [];
    ghost var seen: seq<Token> := [];
    while !EndsWhere(t.typ)
      invariant lex.Valid()
      invariant seen + WhereTokens(At(t, lex)) == all && where == Take(seen, MAX_POSTFIX)
      decreases At(t, lex).Left()
    {
      if |where| < MAX_POSTFIX {
        where := where + [t];
      }
      TakeStep(seen, t, MAX_POSTFIX);
      ghost var rest := WhereTokens(At(t, lex).Next());
      Assoc(seen, [t], rest);
      seen := seen + [t];
      t := Advance(lex, t);
    }
    assert seen + [] == seen;
    var postfix := Translate(where, MAX_POSTFIX);
    return true, q.(hasWhere := true, postfix := postfix);
  }

  method ReadRest(lex: Lexer, t: Token, q: ParsedQuery) returns (ok: bool, q': ParsedQuery)
    requires lex.Valid()
    modifies lex
    ensures lex.Valid() && Parsed(ok, q') == ParseRest(old(At(t, lex)), q)
  {
    if t.typ == WHERE {
      ok, q' := ReadWhere(lex, t, q);
    } else {
      ok, q' := true, q;
    }
  }

  /** The loops that pass over tokens; each ends, for the input does. */
  method SkipTokens(lex: Lexer, tok: Token, stop: TokenType -> bool) returns (t: Token)
    requires lex.Valid()
    modifies lex
    ensures lex.Valid() && At(t, lex) == SkipTo(old(At(tok, lex)), stop)
  {
    hide AllTokens;
    t := tok;
    while !stop(t.typ) && t.typ != END_OF_INPUT
      invariant lex.Valid() && SkipTo(At(t, lex), stop) == SkipTo(old(At(tok, lex)), stop)
      decreases At(t, lex).Left()
    {
      t := Advance(lex, t);
    }
  }

  lemma JoinStep(c: Cursor, q: ParsedQuery)
    requires c.Valid() && c.Is(JOIN)
    ensures var t := c.Next(); var c' := SkipTo(t.Next(), EndsOn);
      c'.Left() < c.Left() && ParseJoins(c, q) == ParseJoins(c', Joining(t.tok, q))
  {
  }

  lemma NoJoinStep(c: Cursor, q: ParsedQuery)
    requires c.Valid() && !c.Is(JOIN)
    ensures ParseJoins(c, q) == Joined(c, q)
  {
  }

  method ReadJoins(lex: Lexer, tok: Token, q: ParsedQuery) returns (t: Token, q': ParsedQuery)
    requires lex.Valid()
    modifies lex
    ensures lex.Valid() && Joined(At(t, lex), q') == ParseJoins(old(At(tok, lex)), q)
    ensures |q.joinTables| <= MAX_JOIN_TABLES ==> |q'.joinTables| <= MAX_JOIN_TABLES
  {
    hide AllTokens, SkipTo, Cursor.Next, Cursor.Valid, At, Take, ParseJoins;
    t, q' := tok, q;
    while t.typ == JOIN
      invariant lex.Valid() && ParseJoins(At(t, lex), q') == ParseJoins(old(At(tok, lex)), q)
      invariant |q.joinTables| <= MAX_JOIN_TABLES ==> |q'.joinTables| <= MAX_JOIN_TABLES
      decreases At(t, lex).Left()
    {
      JoinStep(At(t, lex), q');
      t := Advance(lex, t);
      if t.typ == IDENTIFIER {
        q' := q'.(joinTables := Capped(q'.joinTables, Name(t), MAX_JOIN_TABLES));
      }
      t := Advance(lex, t);
      t := SkipTokens(lex, t, EndsOn);
    }
    NoJoinStep(At(t, lex), q');
  }

  method ReadSelect(lex: Lexer, tok: Token, q: ParsedQuery) returns (ok: bool, q': ParsedQuery)
    requires lex.Valid()
    modifies lex
    ensures lex.Valid() && Parsed(ok, q') == ParseSelect(old(At(tok, lex)), q)
  {
    hide AllTokens, SkipTo, ParseRest, ParseJoins, Cursor.Next, Cursor.Valid, At, Take;
    var t := Advance(lex, tok);
    t := SkipTokens(lex, t, IsFrom);
    if t.typ == END_OF_INPUT {
      return false, q;
    }
    t := Advance(lex, t);
    if t.typ != IDENTIFIER {
      return false, q;
    }
    q' := q.(tableName := Name(t));
    t := Advance(lex, t);
    t, q' := ReadJoins(lex, t, q');
    ok, q' := ReadRest(lex, t, q');
  }

  method ReadColumns(lex: Lexer, tok: Token) returns (t: Token, cols: seq<string>)
    requires lex.Valid()
    modifies lex
    ensures lex.Valid() && (At(t, lex), cols) == ColumnList(old(At(tok, lex)), [])
  {
    hide AllTokens;
    t, cols := tok, [];
    while !EndsList(t.typ)
      invariant lex.Valid() && ColumnList(At(t, lex), cols) == ColumnList(old(At(tok, lex)), [])
      decreases At(t, lex).Left()
    {
      if t.typ == IDENTIFIER {
        cols := Capped(cols, Name(t), MAX_COLUMNS);
      }
      t := Advance(lex, t);
    }
  }

  method ReadValues(lex: Lexer, tok: Token) returns (vals: seq<string>)
    requires lex.Valid()
    modifies lex
    ensures lex.Valid() && vals == ValueList(old(At(tok, lex)), [])
  {
    hide AllTokens;
    var t := tok;
    vals := [];
    while !EndsList(t.typ)
      invariant lex.Valid() && ValueList(At(t, lex), vals) == ValueList(old(At(tok, lex)), [])
      decreases At(t, lex).Left()
    {
      if t.typ != COMMA {
        vals := Capped(vals, t.lexeme, MAX_COLUMNS);
      }
      t := Advance(lex, t);
    }
  }

  method ReadInsert(lex: Lexer, tok: Token, q: ParsedQuery) returns (ok: bool, q': ParsedQuery)
    requires lex.Valid()
    modifies lex
    ensures lex.Valid() && Parsed(ok, q') == ParseInsert(old(At(tok, lex)), q)
  {
    hide AllTokens, ColumnList, ValueList, Cursor.Next, Cursor.Valid, At, Take;
    var t := Advance(lex, tok);
    if t.typ != INTO {
      return false, q;
    }
    t := Advance(lex, t);
    if t.typ != IDENTIFIER {
      return false, q;
    }
    q' := q.(tableName := Name(t));
    t := Advance(lex, t);
    if t.typ == LPAREN {
      t := Advance(lex, t);
      var cols;
      t, cols := ReadColumns(lex, t);
      q' := q'.(insertCols := cols);
      t := Advance(lex, t);
    }
    if t.typ == VALUES {
      t := Advance(lex, t);
    }
    if t.typ == LPAREN {
      t := Advance(lex, t);
      var vals := ReadValues(lex, t);
      q' := q'.(insertVals := vals);
    }
    ok := true;
  }

  method ReadUpdate(lex: Lexer, tok: Token, q: ParsedQuery) returns (ok: bool, q': ParsedQuery)
    requires lex.Valid()
    modifies lex
    ensures lex.Valid() && Parsed(ok, q') == ParseUpdate(old(At(tok, lex)), q)
  {
    hide AllTokens, ParseRest, Cursor.Next, Cursor.Valid, At, Take;
    var t := Advance(lex, tok);
    if t.typ != IDENTIFIER {
      return false, q;
    }
    q' := q.(tableName := Name(t));
    t := Advance(lex, t);
    if t.typ != SET {
      return false, q';
    }
    t := Advance(lex, t);
    if t.typ != IDENTIFIER {
      return false, q';
    }
    q' := q'.(updateCol := Name(t));
    t := Advance(lex, t);
    t := Advance(lex, t);
    q' := q'.(updateVal := t.lexeme, updateValIsNum := t.typ == INTEGER || t.typ == FLOAT_LIT);
    t := Advance(lex, t);
    ok, q' := ReadRest(lex, t, q');
  }

  method ReadDelete(lex: Lexer, tok: Token, q: ParsedQuery) returns (ok: bool, q': ParsedQuery)
    requires lex.Valid()
    modifies lex
    ensures lex.Valid() && Parsed(ok, q') == ParseDelete(old(At(tok, lex)), q)
  {
    hide AllTokens, ParseRest, Cursor.Next, Cursor.Valid, At, Take;
    var t := Advance(lex, tok);
    if t.typ == FROM {
      t := Advance(lex, t);
    }
    if t.typ != IDENTIFIER {
      return false, q;
    }
    q' := q.(tableName := Name(t));
    t := Advance(lex, t);
    ok, q' := ReadRest(lex, t, q');
  }

  /** Parses a statement's text. */
  method ParseText(sql: string) returns (ok: bool, q: ParsedQuery)
    ensures Ends(AllTokens(sql)) && Parsed(ok, q) == Parse(AllTokens(sql))
  {
    hide AllTokens, ParseSelect, ParseInsert, ParseUpdate, ParseDelete;
    AllTokensEnd(sql);
    var lex := new Lexer(sql);
    ok, q := false, BLANK;
    var first := Advance(lex, END);
    match first.typ {
      case SELECT => ok, q := ReadSelect(lex, first, q.(typ := SelectQuery));
      case INSERT => ok, q := ReadInsert(lex, first, q.(typ := InsertQuery));
      case UPDATE => ok, q := ReadUpdate(lex, first, q.(typ := UpdateQuery));
      case DELETE => ok, q := ReadDelete(lex, first, q.(typ := DeleteQuery));
      case _ =>
    }
  }
}
