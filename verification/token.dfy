/**
 Tokens of the Monkey lexer: the closed set of token kinds, their textual
 rendering, the token value itself and the keyword table consulted when an
 identifier-shaped lexeme has been read.
 */
module Tokens {
  import opened Ascii

  datatype Option<T> = None | Some(value: T)

  /** The closed set of token kinds. */
  datatype TokenType =
    | Illegal
    | Eof
      // identifiers and literals
    | Ident
    | Int
      // operators
    | Assign
    | Plus
      // delimiters
    | Comma
    | Semicolon
    | LParen
    | RParen
    | LBrace
    | RBrace
      // keywords
    | Function
    | Let

  /** The token kinds in declaration order, each exactly once. */
  function Kinds(): (ks: seq<TokenType>)
    ensures |ks| == 14
    ensures forall i, j :: 0 <= i < j < |ks| ==> ks[i] != ks[j]
  {
    [Illegal, Eof, Ident, Int, Assign, Plus, Comma, Semicolon, LParen, RParen, LBrace, RBrace, Function, Let]
  }

  /** The list is complete: every kind occurs in it. */
  lemma KindsComplete(k: TokenType)
    ensures k in Kinds()
  {
  }

  /** The kinds grouped under "keywords" in the enumeration. */
  predicate IsKeyword(k: TokenType) {
    k == Function || k == Let
  }

  /** Rendering of a kind: the name of the special kinds and keywords, the spelling of punctuation. */
  function AsStr(k: TokenType): (s: string)
    ensures |s| > 0
    ensures |s| == 1 <==> !(k.Illegal? || k.Eof? || k.Ident? || k.Int? || IsKeyword(k))
  {
    match k
    case Eof => "EOF"
    case Illegal => "ILLEGAL"
    case Ident => "IDENT"
    case Int => "INT"
    case Assign => "="
    case Plus => "+"
    case Comma => ","
    case Semicolon => ";"
    case LParen => "("
    case RParen => ")"
    case LBrace => "{"
    case RBrace => "}"
    case Let => "LET"
    case Function => "FUNCTION"
  }

  /** Distinct kinds render to distinct strings. */
  lemma AsStrInjective(a: TokenType, b: TokenType)
    ensures AsStr(a) == AsStr(b) <==> a == b
  {
  }

  /**
   A token: its kind and the bytes of the lexeme that produced it (empty for
   the end-of-input token).
   */
  datatype Token = Token(kind: TokenType, literal: seq<Byte>)

  /** `Token::new`: a token whose literal is the single current byte. */
  function NewToken(kind: TokenType, ch: Byte): (t: Token)
    ensures t.kind == kind
    ensures |t.literal| == 1 && t.literal[0] == ch
  {
    Token(kind, [ch])
  }

  /** The spellings of the two keywords. */
  const FnSpelling: seq<Byte> := ['f' as int, 'n' as int]
  const LetSpelling: seq<Byte> := ['l' as int, 'e' as int, 't' as int]

  /** The keyword table: reserved spellings to their kinds. */
  const Keywords: map<seq<Byte>, TokenType> := map[FnSpelling := Function, LetSpelling := Let]

  /** The kinds the keyword table yields are exactly the keyword kinds of the enumeration. */
  lemma KeywordKinds(k: TokenType)
    ensures k in Keywords.Values <==> IsKeyword(k)
  {
    if k == Function {
      assert Keywords[FnSpelling] == Function;
    } else if k == Let {
      assert Keywords[LetSpelling] == Let;
    }
  }

  /**
   `lookup_ident`: the keyword kind of a reserved spelling, otherwise an
   identifier. The match is exact: no prefix or case folding.
   */
  function LookupIdent(literal: seq<Byte>): (k: TokenType)
    ensures k == Ident || IsKeyword(k)
    ensures k == Let <==> literal == LetSpelling
    ensures k == Function <==> literal == FnSpelling
  {
    if literal in Keywords then Keywords[literal] else Ident
  }
}
