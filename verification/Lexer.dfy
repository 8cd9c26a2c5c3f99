/** The lexer: a cursor over the query text, and what reading from it yields. */
module Lexers {
  import opened Sequences
  import opened Tokens

  // ---------- characters ----------

  predicate IsSpace(c: char) {
    c == ' ' || c == '\t' || c == '\n' || c == '\r'
  }

  predicate IsDigit(c: char) {
    '0' <= c <= '9'
  }

  predicate IsNumberChar(c: char) {
    IsDigit(c) || c == '.'
  }

  predicate IsWordStart(c: char) {
    'a' <= c <= 'z' || 'A' <= c <= 'Z' || c == '_'
  }

  predicate IsWordChar(c: char) {
    IsWordStart(c) || IsDigit(c)
  }

  predicate IsQuote(c: char) {
    c == '"' || c == '\''
  }

  predicate NotQuote(c: char) {
    !IsQuote(c)
  }

  function ToUpper(c: char): char {
    if 'a' <= c <= 'z' then c - 'a' + 'A' else c
  }

  function Upper(s: string): string {
    seq(|s|, i requires 0 <= i < |s| => ToUpper(s[i]))
  }

  /** Keywords are recognised in any casing; every other word is an identifier. */
  function WordType(upper: string): TokenType {
    match upper
    case "SELECT" => SELECT
    case "FROM" => FROM
    case "WHERE" => WHERE
    case "INSERT" => INSERT
    case "INTO" => INTO
    case "VALUES" => VALUES
    case "UPDATE" => UPDATE
    case "SET" => SET
    case "DELETE" => DELETE
    case "JOIN" => JOIN
    case "ON" => ON
    case "ORDER" => ORDER
    case "BY" => BY
    case "AND" => AND
    case "OR" => OR
    case "NOT" => NOT
    case _ => IDENTIFIER
  }

  /** Buffers keep this many characters of a word or a string, and of a number. */
  const MAX_LEXEME := 255
  const MAX_NUMBER := 63

  // ---------- reading one token ----------

  /** How many characters at the front of s pass the test. */
  function Run(s: string, test: char -> bool): (n: nat)
    ensures n <= |s| && (forall k :: 0 <= k < n ==> test(s[k])) && (n < |s| ==> !test(s[n]))
  {
    if s == "" || !test(s[0]) then 0 else 1 + Run(s[1..], test)
  }

  /** The text from its first character that is not white space. */
  function Trimmed(s: string): string {
    s[Run(s, IsSpace)..]
  }

  /** The operator or punctuation mark at the front of a text; none of length zero. */
  function Symbol(s: string): (sym: Token)
    requires s != ""
    ensures 1 <= |sym.lexeme| <= |s| && sym.typ != END_OF_INPUT
  {
    var followed := |s| > 1 && s[1] == '=';
    match s[0]
    case '(' => Token(LPAREN, "(")
    case ')' => Token(RPAREN, ")")
    case ',' => Token(COMMA, ",")
    case ';' => Token(SEMICOLON, ";")
    case '.' => Token(DOT, ".")
    case '+' => Token(PLUS, "+")
    case '-' => Token(MINUS, "-")
    case '*' => Token(MUL, "*")
    case '/' => Token(DIV, "/")
    case '%' => Token(MOD, "%")
    case '=' => if followed then Token(EQ, "==") else Token(ASSIGN, "=")
    case '!' => if followed then Token(NEQ, "!=") else Token(UNKNOWN, "!")
    case '<' => if followed then Token(LTE, "<=") else Token(LT, "<")
    case '>' => if followed then Token(GTE, ">=") else Token(GT, ">")
    case c => Token(UNKNOWN, [c])
  }

  function Word(text: string): Token {
    var buf := Take(text, MAX_LEXEME);
    Token(WordType(Upper(buf)), buf)
  }

  function Number(text: string): Token {
    Token(if '.' in text then FLOAT_LIT else INTEGER, Take(text, MAX_NUMBER))
  }

  function Quoted(text: string): Token {
    Token(STRING_LIT, Take(text, MAX_LEXEME))
  }

  /** A token and the text left behind it. */
  datatype Lexed = Lexed(tok: Token, rest: string)

  /** The token at the front of a text that starts with no white space. */
  function Read(t: string): (r: Lexed)
    requires t != ""
    ensures |r.rest| < |t| && r.tok.typ != END_OF_INPUT
  {
    if IsQuote(t[0]) then
      var n := 1 + Run(t[1..], NotQuote);
      Lexed(Quoted(t[1..n]), if n < |t| then t[n + 1..] else "")
    else if IsDigit(t[0]) then
      var n := Run(t, IsNumberChar);
      Lexed(Number(t[..n]), t[n..])
    else if IsWordStart(t[0]) then
      var n := Run(t, IsWordChar);
      Lexed(Word(t[..n]), t[n..])
    else
      var sym := Symbol(t);
      Lexed(sym, t[|sym.lexeme|..])
  }

  const END := Token(END_OF_INPUT, "")

  function Next(s: string): Lexed {
    if Trimmed(s) == "" then Lexed(END, "") else Read(Trimmed(s))
  }

  /** Every token but the end leaves less text behind it, so a loop that reads to the end of
      input comes to an end. */
  lemma NextAdvances(s: string)
    ensures Next(s).tok.typ != END_OF_INPUT <==> Trimmed(s) != ""
    ensures Next(s).tok.typ != END_OF_INPUT ==> |Next(s).rest| < |s|
    ensures Next(s).tok.typ == END_OF_INPUT ==> Next(s) == Lexed(END, "")
  {
  }

  /** All tokens of a text, the end of input last. */
  function AllTokens(s: string): (toks: seq<Token>)
    ensures toks != []
    decreases |s|
  {
    NextAdvances(s);
    var r := Next(s);
    if r.tok.typ == END_OF_INPUT then [END] else [r.tok] + AllTokens(r.rest)
  }

  // ---------- writing tokens ----------

  predicate All(s: string, test: char -> bool) {
    forall k :: 0 <= k < |s| ==> test(s[k])
  }

  /** Operators and punctuation marks as they are written. */
  function Mark(typ: TokenType): string {
    match typ
    case LPAREN => "("
    case RPAREN => ")"
    case COMMA => ","
    case SEMICOLON => ";"
    case DOT => "."
    case PLUS => "+"
    case MINUS => "-"
    case MUL => "*"
    case DIV => "/"
    case MOD => "%"
    case EQ => "=="
    case ASSIGN => "="
    case NEQ => "!="
    case LTE => "<="
    case LT => "<"
    case GTE => ">="
    case GT => ">"
    case _ => ""
  }

  /** Keywords as they are written in capitals. */
  function Keyword(typ: TokenType): string {
    match typ
    case SELECT => "SELECT"
    case FROM => "FROM"
    case WHERE => "WHERE"
    case INSERT => "INSERT"
    case INTO => "INTO"
    case VALUES => "VALUES"
    case UPDATE => "UPDATE"
    case SET => "SET"
    case DELETE => "DELETE"
    case JOIN => "JOIN"
    case ON => "ON"
    case ORDER => "ORDER"
    case BY => "BY"
    case AND => "AND"
    case OR => "OR"
    case NOT => "NOT"
    case _ => ""
  }

  /** A small letter follows its capital by 32. */
  predicate InAnyCase(text: string, capitals: string) {
    && |text| == |capitals|
    && forall k :: 0 <= k < |text| ==> text[k] == capitals[k] || text[k] as int == capitals[k] as int + 32
  }

  /** A word is the keyword it writes in any casing, or else an identifier. */
  ghost predicate ReadsAs(word: string, typ: TokenType) {
    if typ == IDENTIFIER then forall kw: TokenType :: Keyword(kw) != "" ==> !InAnyCase(word, Keyword(kw))
    else Keyword(typ) != "" && InAnyCase(word, Keyword(typ))
  }

  /** The text is a way to write the token; of longer words and strings than 255 characters, and of
      longer numbers than 63, the token has the first characters. */
  ghost predicate Spells(text: string, tok: Token) {
    text != "" &&
    if IsQuote(text[0]) then
      && |text| >= 2 && IsQuote(text[|text| - 1]) && All(text[1..|text| - 1], NotQuote)
      && tok.typ == STRING_LIT && tok.lexeme == Take(text[1..|text| - 1], 255)
    else if IsDigit(text[0]) then
      && All(text, IsNumberChar)
      && tok.typ == (if All(text, IsDigit) then INTEGER else FLOAT_LIT) && tok.lexeme == Take(text, 63)
    else if IsWordStart(text[0]) then
      && All(text, IsWordChar)
      && ReadsAs(tok.lexeme, tok.typ) && tok.lexeme == Take(text, 255)
    else
      text == tok.lexeme == Mark(tok.typ)
  }

  /** Which characters separate tokens, start and continue numbers and words, and delimit strings; letters
      by their ASCII codes. */
  lemma CharacterClasses(c: char)
    ensures IsSpace(c) <==> c in " \t\n\r"
    ensures IsDigit(c) <==> c in "0123456789"
    ensures IsNumberChar(c) <==> c in "0123456789."
    ensures IsQuote(c) <==> c in "\"'"
    ensures IsWordStart(c) <==> c == '_' || 65 <= c as int <= 90 || 97 <= c as int <= 122
    ensures IsWordChar(c) <==> IsWordStart(c) || c in "0123456789"
  {
  }

  lemma UpperOfCapital(word: string, capitals: string)
    requires forall k :: 0 <= k < |capitals| ==> 'A' <= capitals[k] <= 'Z'
    ensures Upper(word) == capitals <==> InAnyCase(word, capitals)
  {
    if Upper(word) == capitals {
      forall k | 0 <= k < |word|
        ensures word[k] == capitals[k] || word[k] as int == capitals[k] as int + 32
      {
        assert Upper(word)[k] == ToUpper(word[k]);
      }
    }
  }

  lemma KeywordsAreCapitals(kw: TokenType)
    ensures forall k :: 0 <= k < |Keyword(kw)| ==> 'A' <= Keyword(kw)[k] <= 'Z'
  {
  }

  /** No two keywords are written alike. */
  lemma KeywordType(kw: TokenType)
    requires Keyword(kw) != ""
    ensures WordType(Keyword(kw)) == kw
  {
    var u := Keyword(kw);
    assert u[0] == u[0] && u[1] == u[1];
  }

  /** A word's type is the keyword it writes in any casing, and every other word is an identifier. */
  lemma WordTypeExactly(word: string, typ: TokenType)
    ensures WordType(Upper(word)) == typ <==> ReadsAs(word, typ)
  {
    hide Upper, InAnyCase, Keyword, WordType;
    var t := WordType(Upper(word));
    WordTypeIsKeyword(Upper(word));
    if t == IDENTIFIER {
      forall kw: TokenType | Keyword(kw) != ""
        ensures !InAnyCase(word, Keyword(kw))
      {
        KeywordsAreCapitals(kw);
        UpperOfCapital(word, Keyword(kw));
        KeywordType(kw);
      }
    } else {
      KeywordsAreCapitals(t);
      UpperOfCapital(word, Keyword(t));
    }
    if typ != IDENTIFIER && ReadsAs(word, typ) {
      KeywordsAreCapitals(typ);
      UpperOfCapital(word, Keyword(typ));
      KeywordType(typ);
    }
  }

  lemma WordTypeIsKeyword(u: string)
    ensures var t := WordType(u); if t == IDENTIFIER then Keyword(t) == "" else Keyword(t) == u != ""
  {
  }

  /** A number is an integer if it has digits only. */
  lemma NumberSpelled(text: string, tok: Token)
    requires All(text, IsNumberChar)
    ensures tok == Number(text)
       <==> tok.lexeme == Take(text, 63) && tok.typ == if All(text, IsDigit) then INTEGER else FLOAT_LIT
  {
  }

  /** A character straight after the text would be read as part of it. */
  predicate RunsOn(text: string, c: char)
    requires text != ""
  {
    if IsQuote(text[0]) then false
    else if IsDigit(text[0]) then IsNumberChar(c)
    else if IsWordStart(text[0]) then IsWordChar(c)
    else (text == "=" || text == "<" || text == ">") && c == '='
  }

  /** A token with its text and the white space in front of it. */
  datatype Piece = Piece(gap: string, text: string, tok: Token)

  predicate Apart(text: string, rest: string)
    requires text != ""
  {
    rest != "" ==> !RunsOn(text, rest[0])
  }

  function Written(pieces: seq<Piece>, tail: string): string {
    if pieces == [] then tail else pieces[0].gap + pieces[0].text + Written(pieces[1..], tail)
  }

  /** Pieces in white space, no text running on into the next. */
  ghost predicate WellWritten(pieces: seq<Piece>, tail: string) {
    if pieces == [] then All(tail, IsSpace)
    else
      && All(pieces[0].gap, IsSpace) && Spells(pieces[0].text, pieces[0].tok)
      && Apart(pieces[0].text, Written(pieces[1..], tail))
      && WellWritten(pieces[1..], tail)
  }

  function Toks(pieces: seq<Piece>): seq<Token> {
    if pieces == [] then [] else [pieces[0].tok] + Toks(pieces[1..])
  }

  lemma {:induction false} RunOf(a: string, b: string, test: char -> bool)
    requires All(a, test) && (b != "" ==> !test(b[0]))
    ensures Run(a + b, test) == |a|
  {
    if a == "" {
      assert a + b == b;
    } else {
      assert (a + b)[1..] == a[1..] + b;
      RunOf(a[1..], b, test);
    }
  }

  lemma SymbolOf(tok: Token, b: string)
    requires tok.lexeme == Mark(tok.typ) != "" && Apart(tok.lexeme, b)
    ensures Symbol(tok.lexeme + b) == tok
  {
    var t := tok.lexeme + b;
    assert t[0] == tok.lexeme[0];
    if |tok.lexeme| == 2 {
      assert t[1] == tok.lexeme[1];
    } else if b != "" {
      assert t[1] == b[0];
    }
  }

  /** A written token is read back, and exactly its text is used up. */
  lemma ReadsPiece(text: string, tok: Token, b: string)
    requires Spells(text, tok) && Apart(text, b)
    ensures Read(text + b) == Lexed(tok, b)
  {
    hide WordType, Symbol, Upper, ReadsAs;
    var t := text + b;
    assert t[0] == text[0];
    if IsQuote(text[0]) {
      var m := text[1..|text| - 1];
      var close := text[|text| - 1..] + b;
      assert t[1..] == m + close;
      RunOf(m, close, NotQuote);
      assert t[1..1 + |m|] == m && t[|m| + 2..] == b;
    } else if IsDigit(text[0]) {
      NumberSpelled(text, tok);
      RunOf(text, b, IsNumberChar);
      assert t[..|text|] == text && t[|text|..] == b;
    } else if IsWordStart(text[0]) {
      WordTypeExactly(tok.lexeme, tok.typ);
      RunOf(text, b, IsWordChar);
      assert t[..|text|] == text && t[|text|..] == b;
    } else {
      SymbolOf(tok, b);
      assert t[|text|..] == b;
    }
  }

  /** A string that is not closed takes the rest of the text. */
  lemma ReadsOpenString(quote: char, text: string)
    requires IsQuote(quote) && All(text, NotQuote)
    ensures Read([quote] + text) == Lexed(Token(STRING_LIT, Take(text, 255)), "")
  {
    hide Symbol;
    var t := [quote] + text;
    assert t[1..] == text && text + "" == text;
    RunOf(text, "", NotQuote);
    assert t[1..1 + |text|] == text;
  }

  /** Any other character is a token of its own that no statement knows; so is an exclamation mark without
      an equals sign. */
  lemma ReadsUnknown(c: char, b: string)
    requires !IsQuote(c) && !IsWordChar(c) && c !in "(),;.+-*/%=<>"
    requires c == '!' && b != "" ==> b[0] != '='
    ensures Read([c] + b) == Lexed(Token(UNKNOWN, [c]), b)
  {
    var t := [c] + b;
    assert t[0] == c && t[1..] == b;
  }

  lemma TrimsGap(gap: string, t: string)
    requires All(gap, IsSpace) && (t != "" ==> !IsSpace(t[0]))
    ensures Trimmed(gap + t) == t
  {
    RunOf(gap, t, IsSpace);
  }

  lemma SpellingIsVisible(text: string, tok: Token)
    requires Spells(text, tok)
    ensures text != "" && !IsSpace(text[0])
  {
    hide WordType;
  }

  /** Round trip: a text written from tokens, with any white space that keeps them apart, is
      read back as those tokens and the end of input. */
  lemma {:induction false} TextRoundTrip(pieces: seq<Piece>, tail: string)
    requires WellWritten(pieces, tail)
    ensures AllTokens(Written(pieces, tail)) == Toks(pieces) + [END]
  {
    hide Read, Spells, Trimmed, Apart;
    var s := Written(pieces, tail);
    if pieces == [] {
      assert tail + "" == tail;
      TrimsGap(tail, "");
    } else {
      var p, b := pieces[0], Written(pieces[1..], tail);
      SpellingIsVisible(p.text, p.tok);
      assert s == p.gap + (p.text + b);
      assert (p.text + b)[0] == p.text[0];
      TrimsGap(p.gap, p.text + b);
      ReadsPiece(p.text, p.tok, b);
      NextAdvances(s);
      TextRoundTrip(pieces[1..], tail);
    }
  }

  lemma TakeOne<T>(all: seq<T>, k: nat, x: T, more: seq<T>)
    requires k <= |all| && all[k..] == [x] + more
    ensures k < |all| && all[..k + 1] == all[..k] + [x] && all[k + 1..] == more
  {
    assert all[k] == all[k..][0];
    assert all[k + 1..] == all[k..][1..];
  }

  // ---------- words with spaces between them ----------

  function Spaced(words: seq<string>): string {
    if words == [] then "" else " " + words[0] + Spaced(words[1..])
  }

  function SpacedPieces(words: seq<string>, toks: seq<Token>): seq<Piece>
    requires |words| == |toks|
  {
    if words == [] then [] else [Piece(" ", words[0], toks[0])] + SpacedPieces(words[1..], toks[1..])
  }

  /** Each word spells its token. */
  ghost predicate AllSpell(words: seq<string>, toks: seq<Token>) {
    |words| == |toks| && forall i :: 0 <= i < |words| ==> Spells(words[i], toks[i])
  }

  lemma BothSpell(ws: seq<string>, ts: seq<Token>, ws': seq<string>, ts': seq<Token>)
    requires AllSpell(ws, ts) && AllSpell(ws', ts')
    ensures AllSpell(ws + ws', ts + ts')
  {
    hide Spells;
  }

  /** Words that spell tokens lay them out. */
  lemma {:induction false} SpacedIsWritten(words: seq<string>, toks: seq<Token>)
    requires AllSpell(words, toks)
    ensures var ps := SpacedPieces(words, toks);
      WellWritten(ps, "") && Written(ps, "") == Spaced(words) && Toks(ps) == toks
  {
    hide Spells;
    if words != [] {
      SpacedIsWritten(words[1..], toks[1..]);
      var ps := SpacedPieces(words, toks);
      assert ps[1..] == SpacedPieces(words[1..], toks[1..]);
      SpaceEnds(words[0], toks[0]);
      assert Spaced(words[1..]) != "" ==> Spaced(words[1..])[0] == ' ';
    }
  }

  lemma SpaceEnds(text: string, tok: Token)
    requires Spells(text, tok)
    ensures text != "" && !RunsOn(text, ' ')
  {
    hide ReadsAs;
  }

  predicate IsWord(word: string) {
    word != "" && IsWordStart(word[0]) && All(word, IsWordChar) && |word| <= 255
  }

  lemma SpelledWord(word: string, typ: TokenType)
    requires IsWord(word) && ReadsAs(word, typ)
    ensures Spells(word, Token(typ, word))
  {
    hide ReadsAs;
  }

  lemma SpelledKeyword(word: string, typ: TokenType)
    requires Keyword(typ) != "" && InAnyCase(word, Keyword(typ))
    ensures Spells(word, Token(typ, word))
  {
    ShortKeyword(typ);
    KeywordsAreCapitals(typ);
    CasedIsWord(word, Keyword(typ));
    SpelledWord(word, typ);
  }

  lemma ShortKeyword(typ: TokenType)
    ensures |Keyword(typ)| <= 6 && Keyword(IDENTIFIER) == ""
  {
  }

  lemma CasedIsWord(word: string, capitals: string)
    requires forall k :: 0 <= k < |capitals| ==> 'A' <= capitals[k] <= 'Z'
    requires 0 < |capitals| <= 255 && InAnyCase(word, capitals)
    ensures IsWord(word)
  {
  }

  lemma SpelledMark(typ: TokenType)
    requires Mark(typ) != ""
    ensures Spells(Mark(typ), Token(typ, Mark(typ)))
  {
  }

  predicate IsWhole(text: string) {
    text != "" && All(text, IsDigit) && |text| <= 63
  }

  lemma SpelledWhole(text: string)
    requires IsWhole(text)
    ensures Spells(text, Token(INTEGER, text))
  {
  }

  // ---------- the code ----------

  class Lexer {
    const src: string
    var pos: nat

    ghost predicate Valid()
      reads this
    {
      pos <= |src|
    }

    /** The text not yet read. */
    ghost function Rest(): string
      requires Valid()
      reads this
    {
      src[pos..]
    }

    constructor (input: string)
      ensures Valid() && src == input && Rest() == input
    {
      src, pos := input, 0;
    }

    predicate AtEnd()
      reads this
    {
      pos >= |src|
    }

    /** Moves past the characters that pass the test. */
    method Skip(test: char -> bool) returns (text: string)
      requires Valid()
      modifies this
      ensures Valid() && var n := Run(old(Rest()), test);
        pos == old(pos) + n && text == old(Rest())[..n] && Rest() == old(Rest())[n..]
    {
      var start := pos;
      while pos < |src| && test(src[pos])
        invariant start <= pos <= |src|
        invariant Run(src[start..], test) == pos - start + Run(src[pos..], test)
      {
        assert src[pos..][1..] == src[pos + 1..];
        pos := pos + 1;
      }
      text := src[start..pos];
    }

    method ReadString() returns (tok: Token)
      requires Valid() && !AtEnd() && IsQuote(src[pos])
      modifies this
      ensures Valid() && Lexed(tok, Rest()) == Read(old(Rest()))
    {
      ghost var t := Rest();
      pos := pos + 1;
      assert Rest() == t[1..];
      var text := Skip(NotQuote);
      if pos < |src| {
        pos := pos + 1;
      }
      tok := Quoted(text);
    }

    method ReadNumber() returns (tok: Token)
      requires Valid() && !AtEnd() && IsDigit(src[pos])
      modifies this
      ensures Valid() && Lexed(tok, Rest()) == Read(old(Rest()))
      ensures Spells(old(Rest())[..Run(old(Rest()), IsNumberChar)], tok)
    {
      var text := Skip(IsNumberChar);
      tok := Number(text);
      NumberSpelled(text, tok);
    }

    method ReadIdentOrKeyword() returns (tok: Token)
      requires Valid() && !AtEnd() && IsWordStart(src[pos])
      modifies this
      ensures Valid() && Lexed(tok, Rest()) == Read(old(Rest()))
      ensures Spells(old(Rest())[..Run(old(Rest()), IsWordChar)], tok)
    {
      hide WordType, Upper, ReadsAs;
      var text := Skip(IsWordChar);
      tok := Word(text);
      WordTypeExactly(tok.lexeme, tok.typ);
    }

    /** The next token; at the end of the text, the end of input again and again. */
    method NextToken() returns (tok: Token)
      requires Valid()
      modifies this
      ensures Valid() && pos >= old(pos) && Lexed(tok, Rest()) == Next(old(Rest()))
      ensures tok.typ != END_OF_INPUT ==> pos > old(pos)
    {
      hide WordType, Symbol;
      NextAdvances(Rest());
      var _ := Skip(IsSpace);
      if pos >= |src| {
        return END;
      }
      var c := src[pos];
      if IsQuote(c) {
        tok := ReadString();
      } else if IsDigit(c) {
        tok := ReadNumber();
      } else if IsWordStart(c) {
        tok := ReadIdentOrKeyword();
      } else {
        tok := Symbol(src[pos..]);
        pos := pos + |tok.lexeme|;
      }
    }

    /** The next token, the cursor left where it was. */
    method PeekToken() returns (tok: Token)
      requires Valid()
      modifies this
      ensures Valid() && pos == old(pos) && tok == Next(Rest()).tok
    {
      var saved := pos;
      tok := NextToken();
      pos := saved;
    }

    /** The tokens of the whole text, the end of input included, as far as there is room. */
    method Tokenize(max: nat) returns (out: seq<Token>)
      modifies this
      ensures Valid() && out == Take(AllTokens(src), max)
    {
      hide Next, Run;
      pos := 0;
      out := [];
      assert src[0..] == src;
      ghost var all := AllTokens(src);
      while |out| < max
        invariant Valid() && |out| <= max && |out| <= |all|
        invariant out == all[..|out|] && all[|out|..] == AllTokens(Rest())
      {
        NextAdvances(Rest());
        ghost var more := if Next(Rest()).tok.typ == END_OF_INPUT then [] else AllTokens(Next(Rest()).rest);
        var tok := NextToken();
        TakeOne(all, |out|, tok, more);
        out := out + [tok];
        if tok.typ == END_OF_INPUT {
          return;
        }
      }
    }
  }
}
