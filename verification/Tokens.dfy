/** Tokens and the operator tables the WHERE compiler rests on. */
module Tokens {

  datatype TokenType =
    | SELECT | FROM | WHERE | INSERT | INTO | VALUES
    | UPDATE | SET | DELETE | JOIN | ON | ORDER | BY
    | AND | OR | NOT
    | EQ | NEQ | LT | GT | LTE | GTE
    | PLUS | MINUS | MUL | DIV | MOD
    | LPAREN | RPAREN | COMMA | SEMICOLON | DOT
    | ASSIGN
    | INTEGER | FLOAT_LIT | STRING_LIT
    | IDENTIFIER
    | END_OF_INPUT
    | UNKNOWN

  datatype Token = Token(typ: TokenType, lexeme: string)
  {
    predicate IsOperator() {
      || typ == EQ || typ == NEQ || typ == LT || typ == GT || typ == LTE || typ == GTE
      || typ == AND || typ == OR
      || typ == PLUS || typ == MINUS || typ == MUL || typ == DIV || typ == MOD
    }

    function Precedence(): int {
      match typ
      case OR => 1
      case AND => 2
      case NOT => 3
      case EQ => 4
      case NEQ => 4
      case LT => 4
      case GT => 4
      case LTE => 4
      case GTE => 4
      case PLUS => 5
      case MINUS => 5
      case MUL => 6
      case DIV => 6
      case MOD => 6
      case _ => 0
    }

    predicate IsLeftAssoc() {
      typ != NOT
    }

    predicate IsOperand() {
      typ == INTEGER || typ == FLOAT_LIT || typ == STRING_LIT || typ == IDENTIFIER
    }
  }
}
