/** INSERT statements, and when the values parsed are the values listed. */
module ValueLists {
  import opened Options
  import opened Sequences
  import opened Tokens
  import opened ShuntingYard
  import opened Lexers
  import opened Parsers
  import opened Statements

  function Identifiers(s: seq<Token>): seq<string> {
    if s == [] then [] else (if s[0].typ == IDENTIFIER then [Name(s[0])] else []) + Identifiers(s[1..])
  }

  function ListValues(s: seq<Token>): seq<string> {
    if s == [] then [] else (if s[0].typ != COMMA then [s[0].lexeme] else []) + ListValues(s[1..])
  }

  /** Tokens that do not close a list. */
  predicate InList(s: seq<Token>) {
    NoneOf(s, {RPAREN, END_OF_INPUT})
  }

  lemma CappedOne(names: seq<string>, add: seq<string>, more: seq<string>)
    requires |names| <= MAX_COLUMNS && |add| <= 1
    ensures Take(names + add, MAX_COLUMNS) == if add == [] then names else Capped(names, add[0], MAX_COLUMNS)
    ensures Take(Take(names + add, MAX_COLUMNS) + more, MAX_COLUMNS) == Take(names + (add + more), MAX_COLUMNS)
  {
  }

  lemma {:induction false} ColumnsMeaning(s: seq<Token>, rest: seq<Token>, cols: seq<string>)
    requires Ends(rest) && Passed(s, EndsList) && EndsList(rest[0].typ) && |cols| <= MAX_COLUMNS
    ensures Ends(s + rest)
    ensures ColumnList(Front(s + rest), cols) == (Front(rest), Take(cols + Identifiers(s), MAX_COLUMNS))
  {
    hide Front, Ends, Cursor.Next, Cursor.Valid, Take, Capped;
    EndsAfter(s, rest);
    if s == [] {
      assert s + rest == rest && cols + [] == cols;
      CappedOne(cols, [], []);
    } else {
      var add := if s[0].typ == IDENTIFIER then [Name(s[0])] else [];
      assert s + rest == [s[0]] + (s[1..] + rest);
      EndsAfter(s[1..], rest);
      NextFront(s[0], s[1..] + rest);
      CappedOne(cols, add, Identifiers(s[1..]));
      ColumnsMeaning(s[1..], rest, Take(cols + add, MAX_COLUMNS));
    }
  }

  lemma {:induction false} ValuesMeaning(s: seq<Token>, rest: seq<Token>, vals: seq<string>)
    requires Ends(rest) && Passed(s, EndsList) && EndsList(rest[0].typ) && |vals| <= MAX_COLUMNS
    ensures Ends(s + rest)
    ensures ValueList(Front(s + rest), vals) == Take(vals + ListValues(s), MAX_COLUMNS)
  {
    hide Front, Ends, Cursor.Next, Cursor.Valid, Take, Capped;
    EndsAfter(s, rest);
    if s == [] {
      assert s + rest == rest && vals + [] == vals;
      CappedOne(vals, [], []);
    } else {
      var add := if s[0].typ != COMMA then [s[0].lexeme] else [];
      assert s + rest == [s[0]] + (s[1..] + rest);
      EndsAfter(s[1..], rest);
      NextFront(s[0], s[1..] + rest);
      CappedOne(vals, add, ListValues(s[1..]));
      ValuesMeaning(s[1..], rest, Take(vals + add, MAX_COLUMNS));
    }
  }

  /** An INSERT as its parts; the column list is optional, and behind one the word VALUES is too. */
  datatype Insert = Insert(
    ins: Token, into: Token, table: Token, cols: Option<seq<Token>>, values: Option<Token>, vals: seq<Token>,
    close: Token, rest: seq<Token>)
  {
    ghost predicate Valid() {
      && ins.typ == INSERT && into.typ == INTO && table.typ == IDENTIFIER
      && (if values.Some? then values.value.typ == VALUES else cols.Some?)
      && close.typ == RPAREN && (cols.Some? ==> InList(cols.value)) && InList(vals) && Ends(rest)
    }

    /** VALUES, the value list and what follows. */
    function ValuesPart(): seq<Token> {
      var list := [OPEN] + (vals + ([close] + rest));
      if values.Some? then [values.value] + list else list
    }

    /** The column list, and what follows. */
    function ColumnsPart(): seq<Token>
      requires cols.Some?
    {
      cols.value + ([close] + ValuesPart())
    }

    /** What follows the table's name. */
    function Lists(): seq<Token> {
      if cols.Some? then [OPEN] + ColumnsPart() else ValuesPart()
    }

    /** Its tokens, the end of input last. */
    function Toks(): seq<Token> {
      [ins] + ([into] + ([table] + Lists()))
    }

    /** The query with its table and columns. */
    function Head(): ParsedQuery {
      BLANK.(typ := InsertQuery, tableName := Name(table),
             insertCols := if cols.Some? then Take(Identifiers(cols.value), MAX_COLUMNS) else [])
    }
  }

  lemma InsertedValues(i: Insert, q: ParsedQuery)
    requires i.Valid()
    ensures Ends(i.ValuesPart())
    ensures ParseValues(Front(i.ValuesPart()), q) ==
      Parsed(true, q.(insertVals := Take(ListValues(i.vals), MAX_COLUMNS)))
  {
    hide Cursor.Next, Cursor.Valid, Take, ValueList, ListValues;
    var list := i.vals + ([i.close] + i.rest);
    EndsAfter([i.close], i.rest);
    ValuesMeaning(i.vals, [i.close] + i.rest, []);
    assert [] + ListValues(i.vals) == ListValues(i.vals);
    NextFront(OPEN, list);
    if i.values.Some? {
      NextFront(i.values.value, [OPEN] + list);
    }
  }

  lemma InsertedColumns(i: Insert)
    requires i.Valid() && i.cols.Some?
    ensures Ends(i.ValuesPart()) && Ends(i.ColumnsPart())
    ensures var r := ColumnList(Front(i.ColumnsPart()), []);
      r.0.Next() == Front(i.ValuesPart()) && r.1 == Take(Identifiers(i.cols.value), MAX_COLUMNS)
  {
    hide Cursor.Next, Cursor.Valid, Take, ColumnList, Identifiers, Insert.ValuesPart;
    var cols := i.cols.value;
    InsertedValues(i, BLANK);
    NextFront(i.close, i.ValuesPart());
    ColumnsMeaning(cols, [i.close] + i.ValuesPart(), []);
    assert [] + Identifiers(cols) == Identifiers(cols);
  }

  /** INSERT INTO a table, up to what follows its name. */
  lemma InsertFront(ins: Token, into: Token, table: Token, ts: seq<Token>, q: ParsedQuery)
    requires into.typ == INTO && table.typ == IDENTIFIER && Ends(ts)
    ensures var toks := [ins] + ([into] + ([table] + ts)); var named := q.(tableName := Name(table));
      Ends(toks) && ParseInsert(Front(toks), q) == ParseLists(Front(ts), named)
  {
    hide Ends, Cursor.Next, Cursor.Valid, Front, ParseLists, Name;
    NextFront(table, ts);
    NextFront(into, [table] + ts);
    NextFront(ins, [into] + ([table] + ts));
  }

  lemma ValuesStart(i: Insert)
    requires i.Valid() && i.values.Some?
    ensures Ends(i.ValuesPart()) && !Front(i.ValuesPart()).Is(LPAREN)
  {
    InsertedValues(i, BLANK);
  }

  lemma ListsMeaning(i: Insert, q: ParsedQuery)
    requires i.Valid()
    ensures Ends(i.Lists()) && ParseLists(Front(i.Lists()), q) == Parsed(true,
        (if i.cols.Some? then q.(insertCols := Take(Identifiers(i.cols.value), MAX_COLUMNS)) else q)
          .(insertVals := Take(ListValues(i.vals), MAX_COLUMNS)))
  {
    hide Ends, Cursor.Next, Cursor.Valid, Front, Take, ColumnList, ParseValues, Identifiers, ListValues,
      Insert.ColumnsPart, Insert.ValuesPart;
    if i.cols.Some? {
      InsertedColumns(i);
      InsertedValues(i, q.(insertCols := Take(Identifiers(i.cols.value), MAX_COLUMNS)));
      NextFront(OPEN, i.ColumnsPart());
    } else {
      ValuesStart(i);
      InsertedValues(i, q);
    }
  }

  lemma ParsesInsert(toks: seq<Token>)
    requires Ends(toks) && toks[0].typ == INSERT
    ensures Parse(toks) == ParseInsert(Front(toks), BLANK.(typ := InsertQuery))
  {
  }

  /** INSERT INTO a table, with or without a list of columns, VALUES (values): the first 32 names, and
      the texts of the first 32 tokens of the value list that are not commas. */
  lemma InsertMeaning(i: Insert)
    requires i.Valid()
    ensures Ends(i.Toks())
    ensures Parse(i.Toks()) == Parsed(true, i.Head().(insertVals := Take(ListValues(i.vals), MAX_COLUMNS)))
  {
    hide Ends, Cursor.Next, Cursor.Valid, Front, Take, Name, Parse, ParseInsert, ParseLists, Identifiers, ListValues,
      Insert.ColumnsPart, Insert.ValuesPart, Insert.Lists;
    ListsMeaning(i, BLANK.(typ := InsertQuery, tableName := Name(i.table)));
    InsertFront(i.ins, i.into, i.table, i.Lists(), BLANK.(typ := InsertQuery));
    ParsesInsert(i.Toks());
  }

  // ---------- the values listed ----------

  /** The tokens of one listed value. */
  predicate IsItem(item: seq<Token>) {
    item != [] && InList(item) && forall k :: 0 <= k < |item| ==> item[k].typ != COMMA
  }

  predicate AreItems(items: seq<seq<Token>>) {
    forall k :: 0 <= k < |items| ==> IsItem(items[k])
  }

  const COMMA_MARK := Token(COMMA, ",")

  /** The items with commas between them. */
  function Listed(items: seq<seq<Token>>): seq<Token> {
    if items == [] then []
    else if |items| == 1 then items[0]
    else items[0] + ([COMMA_MARK] + Listed(items[1..]))
  }

  /** The text of a listed value: its tokens, set apart by blanks. */
  function ItemText(item: seq<Token>): (text: string)
    requires item != []
    ensures |item| == 1 ==> text == item[0].lexeme
    ensures |item| > 1 ==> |text| > |item[0].lexeme|
  {
    if |item| == 1 then item[0].lexeme else item[0].lexeme + " " + ItemText(item[1..])
  }

  function ItemTexts(items: seq<seq<Token>>): (texts: seq<string>)
    requires AreItems(items)
    ensures |texts| == |items| && forall k :: 0 <= k < |items| ==> texts[k] == ItemText(items[k])
  {
    seq(|items|, k requires 0 <= k < |items| => ItemText(items[k]))
  }

  lemma {:induction false} ListedPasses(items: seq<seq<Token>>)
    requires AreItems(items)
    ensures InList(Listed(items))
  {
    if |items| > 1 {
      ListedPasses(items[1..]);
    }
  }

  lemma {:induction false} ValuesConcat(s: seq<Token>, t: seq<Token>)
    ensures ListValues(s + t) == ListValues(s) + ListValues(t)
  {
    if s == [] {
      assert s + t == t;
    } else {
      assert (s + t)[1..] == s[1..] + t;
      ValuesConcat(s[1..], t);
    }
  }

  /** Every token of an item is parsed as a value of its own. */
  lemma FirstItem(items: seq<seq<Token>>)
    requires AreItems(items) && items != []
    ensures ListValues(Listed(items)) == ListValues(items[0]) + ListValues(Listed(items[1..]))
  {
    if |items| == 1 {
      assert ListValues([]) == [] && ListValues(items[0]) + [] == ListValues(items[0]);
    } else {
      var more := Listed(items[1..]);
      ValuesConcat(items[0], [COMMA_MARK] + more);
      assert ([COMMA_MARK] + more)[1..] == more;
      assert [] + ListValues(more) == ListValues(more);
    }
  }

  predicate SingleTokens(items: seq<seq<Token>>, n: nat) {
    forall k :: 0 <= k < |items| && k < n ==> |items[k]| == 1
  }

  lemma SingleFirst(items: seq<seq<Token>>, n: nat)
    requires items != [] && n > 0
    ensures SingleTokens(items, n) <==> |items[0]| == 1 && SingleTokens(items[1..], n - 1)
  {
    if |items[0]| == 1 && SingleTokens(items[1..], n - 1) {
      forall k | 0 < k < |items| && k < n
        ensures |items[k]| == 1
      {
        assert |items[1..][k - 1]| == 1;
      }
    }
  }

  /** An item's first value is its own text exactly when it has no other tokens. */
  lemma ValuesOfItem(item: seq<Token>)
    requires IsItem(item)
    ensures ListValues(item) != [] && (ListValues(item)[0] == ItemText(item) <==> |item| == 1)
    ensures |item| == 1 ==> ListValues(item) == [ItemText(item)]
  {
    assert item[0].typ != COMMA;
    if |item| == 1 {
      assert item[1..] == [] && ListValues([]) == [];
    }
  }

  lemma TakeFirst(first: seq<string>, more: seq<string>, x: string, texts: seq<string>, n: nat)
    requires n > 0 && first != [] && (first[0] == x ==> |first| == 1)
    ensures Take(first + more, n) == Take([x] + texts, n) <==> first[0] == x && Take(more, n - 1) == Take(texts, n - 1)
  {
    var t := Take([x] + texts, n);
    assert t == [x] + Take(texts, n - 1);
    if first[0] == x {
      assert first == [x];
      assert Take(first + more, n) == [x] + Take(more, n - 1);
      assert ([x] + Take(more, n - 1))[1..] == Take(more, n - 1) && t[1..] == Take(texts, n - 1);
    } else {
      assert Take(first + more, n)[0] == first[0] && t[0] == x;
    }
  }

  lemma TextsFirst(items: seq<seq<Token>>)
    requires AreItems(items) && items != []
    ensures IsItem(items[0]) && AreItems(items[1..])
    ensures ItemTexts(items) == [ItemText(items[0])] + ItemTexts(items[1..])
  {
  }

  lemma NothingListed(items: seq<seq<Token>>, n: nat)
    requires AreItems(items) && (items == [] || n == 0)
    ensures Take(ListValues(Listed(items)), n) == [] && SingleTokens(items, n)
    ensures Take(ItemTexts(items), n) == []
  {
  }

  lemma {:induction false} InPlaceExactly(items: seq<seq<Token>>, n: nat)
    requires AreItems(items)
    ensures Take(ListValues(Listed(items)), n) == Take(ItemTexts(items), n) <==> SingleTokens(items, n)
  {
    hide Take, ListValues, Listed, ItemText, ItemTexts, SingleTokens, IsItem, AreItems;
    if items == [] || n == 0 {
      NothingListed(items, n);
    } else {
      TextsFirst(items);
      FirstItem(items);
      ValuesOfItem(items[0]);
      SingleFirst(items, n);
      InPlaceExactly(items[1..], n - 1);
      TakeFirst(ListValues(items[0]), ListValues(Listed(items[1..])), ItemText(items[0]), ItemTexts(items[1..]), n);
    }
  }

  /** The values parsed are the values listed, each in its place and as far as there is room for
      them, if and only if each of the first 32 is a single token. */
  lemma ListedValuesExactly(i: Insert, items: seq<seq<Token>>)
    requires AreItems(items) && i.vals == Listed(items) && i.(vals := []).Valid()
    ensures Ends(i.Toks()) && Parse(i.Toks()).ok
    ensures Parse(i.Toks()).query.insertVals == Take(ItemTexts(items), MAX_COLUMNS)
       <==> SingleTokens(items, MAX_COLUMNS)
  {
    hide Parse, Insert.Toks, ItemTexts, Listed, SingleTokens, ListValues, Take;
    ListedPasses(items);
    InsertMeaning(i);
    InPlaceExactly(items, MAX_COLUMNS);
  }

  const ONE := Token(INTEGER, "1")
  const TWO := Token(INTEGER, "2")
  const THREE := Token(INTEGER, "3")
  const MINUS_SIGN := Token(MINUS, "-")

  function NegativeList(): seq<Token> {
    [ONE] + ([COMMA_MARK] + ([MINUS_SIGN] + ([TWO] + ([COMMA_MARK] + [THREE]))))
  }

  lemma NegativeListIsListed()
    ensures Listed([[ONE], [MINUS_SIGN, TWO], [THREE]]) == NegativeList()
  {
    assert [[ONE], [MINUS_SIGN, TWO], [THREE]][1..] == [[MINUS_SIGN, TWO], [THREE]];
    assert [[MINUS_SIGN, TWO], [THREE]][1..] == [[THREE]];
    assert Listed([[THREE]]) == [THREE];
    assert Listed([[MINUS_SIGN, TWO], [THREE]]) == [MINUS_SIGN, TWO] + ([COMMA_MARK] + [THREE]);
  }

  lemma ValuesCons(tok: Token, s: seq<Token>)
    ensures ListValues([tok] + s) == (if tok.typ != COMMA then [tok.lexeme] else []) + ListValues(s)
  {
    assert ([tok] + s)[1..] == s;
  }

  lemma NegativeListValues()
    ensures ListValues(NegativeList()) == ["1", "-", "2", "3"]
  {
    hide ListValues;
    ValuesCons(ONE, [COMMA_MARK] + ([MINUS_SIGN] + ([TWO] + ([COMMA_MARK] + [THREE]))));
    ValuesCons(COMMA_MARK, [MINUS_SIGN] + ([TWO] + ([COMMA_MARK] + [THREE])));
    ValuesCons(MINUS_SIGN, [TWO] + ([COMMA_MARK] + [THREE]));
    ValuesCons(TWO, [COMMA_MARK] + [THREE]);
    ValuesCons(COMMA_MARK, [THREE]);
    ValuesOfItem([THREE]);
    assert ["1"] + ([] + (["-"] + (["2"] + ([] + ["3"])))) == ["1", "-", "2", "3"];
  }

  /** The list 1, -2, 3. */
  function NegativeItems(): (items: seq<seq<Token>>)
    ensures AreItems(items) && !SingleTokens(items, MAX_COLUMNS)
  {
    assert |[MINUS_SIGN, TWO]| == 2 && [[ONE], [MINUS_SIGN, TWO], [THREE]][1] == [MINUS_SIGN, TWO];
    [[ONE], [MINUS_SIGN, TWO], [THREE]]
  }

  /** VALUES (1, -2, 3): the second column's value is a lone minus sign, and the third column gets
      what was listed for the second. */
  lemma NegativeValueShifts(i: Insert)
    requires i.Valid() && i.vals == NegativeList()
    ensures i.vals == Listed(NegativeItems())
    ensures Ends(i.Toks()) && Parse(i.Toks()).query.insertVals == ["1", "-", "2", "3"]
    ensures Parse(i.Toks()).query.insertVals != Take(ItemTexts(NegativeItems()), MAX_COLUMNS)
  {
    hide Parse, Insert.Toks, ListValues, NegativeList, Listed, SingleTokens, ItemTexts, Take;
    NegativeListIsListed();
    NegativeListValues();
    InsertMeaning(i);
    ListedValuesExactly(i, NegativeItems());
    FourFit();
  }

  lemma FourFit()
    ensures Take(["1", "-", "2", "3"], MAX_COLUMNS) == ["1", "-", "2", "3"]
  {
  }

  // ---------- the value of an UPDATE ----------

  /** The tokens of an UPDATE up to its value. */
  datatype Update = Update(upd: Token, table: Token, set_: Token, col: Token, eq: Token)
  {
    predicate Valid() {
      upd.typ == UPDATE && table.typ == IDENTIFIER && set_.typ == SET && col.typ == IDENTIFIER
    }

    function Toks(ts: seq<Token>): seq<Token> {
      [upd] + ([table] + ([set_] + ([col] + ([eq] + ts))))
    }
  }

  lemma OneTokenUpdate(u: Update, val: Token, w: Token, s: seq<Token>, rest: seq<Token>)
    requires u.Valid() && w.typ == WHERE && Clause(s) && Tail(rest)
    ensures var toks := u.Toks([val] + ([w] + (s + rest)));
      Ends(toks) && Parse(toks) == Parsed(true, WithWhere(Updated(u.table, u.col, val), s))
  {
    hide Parse, Postfix, Name, Ends, Clause, Updated;
    UpdateMeaning(u.upd, u.table, u.set_, u.col, u.eq, val, Where(w, s), rest);
  }

  lemma LongerUpdate(u: Update, val: Token, more: seq<Token>)
    requires u.Valid() && Ends(more) && more[0].typ != WHERE
    ensures Ends(u.Toks([val] + more)) && Parse(u.Toks([val] + more)) == Parsed(true, Updated(u.table, u.col, val))
  {
    hide Parse, Postfix, Name, Ends, Updated;
    UpdateMeaning(u.upd, u.table, u.set_, u.col, u.eq, val, NoWhere, more);
  }

  lemma SplitFirst(item: seq<Token>, w: Token, s: seq<Token>, rest: seq<Token>)
    requires |item| > 1 && Ends(rest)
    ensures var more := item[1..] + ([w] + (s + rest));
      Ends(more) && more[0] == item[1] && item + ([w] + (s + rest)) == [item[0]] + more
  {
    EndsAfter(s, rest);
    EndsAfter([w], s + rest);
    EndsAfter(item[1..], [w] + (s + rest));
  }

  /** UPDATE a table SET a column to a value: the value and the condition are those written if and
      only if the value is a single token.  Of a longer one, such as a negative number, only the first
      token is taken, and the condition is lost. */
  lemma UpdateKeptExactly(u: Update, item: seq<Token>, w: Token, s: seq<Token>, rest: seq<Token>)
    requires u.Valid() && item != [] && (forall k :: 0 <= k < |item| ==> item[k].typ != WHERE)
    requires w.typ == WHERE && Clause(s) && Tail(rest)
    ensures var toks := u.Toks(item + ([w] + (s + rest)));
      && Ends(toks) && Parse(toks).ok
      && var q := Parse(toks).query;
         && (q.updateVal == ItemText(item) && q.hasWhere && q.postfix == Postfix(s) <==> |item| == 1)
         && (|item| > 1 ==> !q.hasWhere && q.updateVal == item[0].lexeme)
  {
    hide Ends, Parse, Postfix, Name, Clause, Update.Toks, Update.Valid;
    if |item| == 1 {
      assert item == [item[0]];
      OneTokenUpdate(u, item[0], w, s, rest);
    } else {
      SplitFirst(item, w, s, rest);
      LongerUpdate(u, item[0], item[1..] + ([w] + (s + rest)));
    }
  }
}
