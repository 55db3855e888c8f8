/**
 The Monkey lexer: a pull-based scanner over an in-memory byte buffer.

 The lexer state is a value (`State`) that each operation takes and returns,
 which is how the mutable `&mut self` receiver of the scanner is modelled. The
 imperative operations (`SkipWhitespace`, `ReadIdentifier`, `ReadNumber`,
 `NextToken`) walk the buffer with loops over `ReadChar`; `Scan` is an
 independent, declarative account of one scanning step against which they
 are proved, and the lemmas below state what a step and a whole scan promise.
 */
module Lexer {
  import opened Ascii
  import opened Tokens

  /** The byte at `i`, or the end sentinel 0 past the end of the buffer. */
  function CharAt(input: seq<Byte>, i: nat): Byte {
    if i < |input| then input[i] else 0
  }

  /** Scanner state: the buffer, the cursor, the next read index and the current byte. */
  datatype State = State(input: seq<Byte>, position: nat, readPosition: nat, ch: Byte)

  /**
   The cursor invariant kept after construction and after every step: the
   cursor is at most one past the last byte, the read index is just after it,
   and the current byte is the byte under the cursor (0 at the end). So a
   non-zero current byte always lies inside the buffer.
   */
  predicate Valid(l: State)
    ensures Valid(l) ==> l.position < l.readPosition <= |l.input| + 1
    ensures Valid(l) && l.ch != 0 ==> l.position < |l.input| && l.input[l.position] == l.ch
  {
    && l.position <= |l.input|
    && l.readPosition == l.position + 1
    && l.ch == CharAt(l.input, l.position)
  }

  /** `read_char`: move the cursor to the read index and load the byte there (0 past the end). */
  function ReadChar(l: State): (r: State)
    ensures r.input == l.input
    ensures r.position == l.readPosition
    ensures r.readPosition == r.position + 1
    ensures r.ch == CharAt(r.input, r.position)
  {
    var ch := if l.readPosition >= |l.input| then 0 else l.input[l.readPosition];
    State(l.input, l.readPosition, l.readPosition + 1, ch)
  }

  /** From a valid state on a non-zero byte, `read_char` advances by exactly one and stays valid. */
  lemma ReadCharAdvances(l: State)
    requires Valid(l) && l.ch != 0
    ensures Valid(ReadChar(l))
    ensures ReadChar(l).position == l.position + 1
  {
  }

  /** `Lexer::new`: the first byte is already loaded (or the sentinel for an empty buffer). */
  function New(input: seq<Byte>): (l: State)
    ensures Valid(l)
    ensures l.input == input && l.position == 0
    ensures l.ch == 0 <==> |input| == 0 || input[0] == 0
  {
    ReadChar(State(input, 0, 0, 0))
  }

  /**
   `is_letter`: an ASCII letter or an underscore (the identifier continuation
   class). Such a byte is ASCII, is never the end sentinel, and is neither a
   digit nor a punctuator, so `next_token` cannot confuse it with another class.
   */
  predicate IsLetter(c: Byte)
    ensures IsLetter(c) ==> 0 < c < 128 && !IsAsciiDigit(c) && Punctuation(c).None?
  {
    IsAsciiAlphabetic(c) || c == '_' as int
  }

  /**
   The bytes `skip_whitespace` consumes: space, tab, newline and carriage
   return. None of them is the sentinel or starts a token of any kind.
   */
  predicate IsWhitespace(c: Byte)
    ensures IsWhitespace(c) ==> 0 < c < 128 && !IsLetter(c) && !IsAsciiDigit(c) && Punctuation(c).None?
  {
    c == ' ' as int || c == '\t' as int || c == '\n' as int || c == '\r' as int
  }

  /** The three byte classes the scanner consumes as runs. */
  datatype Class = Whitespace | Letter | Digit

  predicate InClass(c: Byte, k: Class) {
    match k
    case Whitespace => IsWhitespace(c)
    case Letter => IsLetter(c)
    case Digit => IsAsciiDigit(c)
  }

  /** The end of the maximal run of class `k` starting at `i` (maximal munch). */
  function RunEnd(input: seq<Byte>, i: nat, k: Class): (e: nat)
    requires i <= |input|
    ensures i <= e <= |input|
    ensures forall j :: i <= j < e ==> InClass(input[j], k)
    ensures !InClass(CharAt(input, e), k)
    decreases |input| - i
  {
    if InClass(CharAt(input, i), k) then RunEnd(input, i + 1, k) else i
  }

  /**
   The maximal run is unique: any `e` with the run property is the run end.
   It follows from `RunEnd`'s own contract: an earlier end would sit on a byte
   of the class, a later one would run past a byte outside it.
   */
  lemma RunEndUnique(input: seq<Byte>, i: nat, k: Class, e: nat)
    requires i <= e <= |input|
    requires forall j :: i <= j < e ==> InClass(input[j], k)
    requires !InClass(CharAt(input, e), k)
    ensures RunEnd(input, i, k) == e
  {
  }

  /** The single-byte punctuators and their kinds; `None` for every other byte. */
  function Punctuation(c: Byte): (k: Option<TokenType>)
    ensures k.Some? ==> AsStr(k.value) == [c as char]
  {
    if c == '=' as int then Some(Assign)
    else if c == ';' as int then Some(Semicolon)
    else if c == ',' as int then Some(Comma)
    else if c == '+' as int then Some(Plus)
    else if c == '(' as int then Some(LParen)
    else if c == '{' as int then Some(LBrace)
    else if c == ')' as int then Some(RParen)
    else if c == '}' as int then Some(RBrace)
    else None
  }

  /** Conversely, every kind rendered as one character is the punctuator of that character. */
  lemma PunctuationOfRendering(k: TokenType)
    requires |AsStr(k)| == 1
    ensures AsStr(k)[0] as int < 256
    ensures Punctuation(AsStr(k)[0] as int) == Some(k)
  {
  }

  /**
   Reference definition of one scanning step from cursor `pos`: skip the
   whitespace run, then classify the first byte after it. Returns the token
   and the cursor after it.
   */
  function Scan(input: seq<Byte>, pos: nat): (r: (Token, nat))
    requires pos <= |input|
    ensures pos <= r.1 <= |input|
    ensures r.0.kind == Eof <==> CharAt(input, r.1) == 0 && r.1 == RunEnd(input, pos, Whitespace)
    ensures r.0.kind != Eof ==> pos < r.1
  {
    var s := RunEnd(input, pos, Whitespace);
    var c := CharAt(input, s);
    if c == 0 then
      (Token(Eof, []), s)
    else if Punctuation(c).Some? then
      (NewToken(Punctuation(c).value, c), s + 1)
    else if IsAsciiAlphabetic(c) then
      var e := RunEnd(input, s, Letter);
      (Token(LookupIdent(input[s..e]), input[s..e]), e)
    else if IsAsciiDigit(c) then
      var e := RunEnd(input, s, Digit);
      (Token(Int, input[s..e]), e)
    else
      (NewToken(Illegal, c), s + 1)
  }

  /** `skip_whitespace`: advance over the maximal run of space, tab, newline and carriage return. */
  method SkipWhitespace(l: State) returns (r: State)
    requires Valid(l)
    ensures Valid(r) && r.input == l.input
    ensures r.position == RunEnd(l.input, l.position, Whitespace)
    ensures !IsWhitespace(r.ch)
  {
    r := l;
    while IsWhitespace(r.ch)
      invariant Valid(r) && r.input == l.input
      invariant l.position <= r.position
      invariant RunEnd(l.input, r.position, Whitespace) == RunEnd(l.input, l.position, Whitespace)
      decreases |r.input| - r.position
    {
      r := ReadChar(r);
    }
  }

  /**
   `read_identifier`: consume the maximal run of letters and underscores and
   return exactly those bytes. They are ASCII, so converting them to a UTF-8
   string cannot fail.
   */
  method ReadIdentifier(l: State) returns (literal: seq<Byte>, r: State)
    requires Valid(l)
    ensures Valid(r) && r.input == l.input
    ensures r.position == RunEnd(l.input, l.position, Letter)
    ensures literal == l.input[l.position..r.position]
    ensures forall i :: 0 <= i < |literal| ==> IsLetter(literal[i])
    ensures !IsLetter(r.ch)
    ensures IsAscii(literal)
  {
    r := l;
    while IsLetter(r.ch)
      invariant Valid(r) && r.input == l.input
      invariant l.position <= r.position
      invariant RunEnd(l.input, r.position, Letter) == RunEnd(l.input, l.position, Letter)
      decreases |r.input| - r.position
    {
      r := ReadChar(r);
    }
    literal := r.input[l.position..r.position];
  }

  /** `read_number`: consume the maximal run of ASCII digits and return exactly those bytes. */
  method ReadNumber(l: State) returns (literal: seq<Byte>, r: State)
    requires Valid(l)
    ensures Valid(r) && r.input == l.input
    ensures r.position == RunEnd(l.input, l.position, Digit)
    ensures literal == l.input[l.position..r.position]
    ensures forall i :: 0 <= i < |literal| ==> IsAsciiDigit(literal[i])
    ensures !IsAsciiDigit(r.ch)
    ensures IsAscii(literal)
  {
    r := l;
    while IsAsciiDigit(r.ch)
      invariant Valid(r) && r.input == l.input
      invariant l.position <= r.position
      invariant RunEnd(l.input, r.position, Digit) == RunEnd(l.input, l.position, Digit)
      decreases |r.input| - r.position
    {
      r := ReadChar(r);
    }
    literal := r.input[l.position..r.position];
  }

  /**
   `next_token`: skip whitespace, then produce exactly one token. At the end
   sentinel the state is left as it is, so further calls keep producing the
   end-of-input token; every other call moves the cursor forward.
   */
  method NextToken(l: State) returns (tok: Token, r: State)
    requires Valid(l)
    ensures Valid(r) && r.input == l.input
    ensures (tok, r.position) == Scan(l.input, l.position)
    ensures l.ch == 0 ==> tok == Token(Eof, []) && r == l
    ensures tok.kind != Eof ==> r.position > l.position
  {
    r := SkipWhitespace(l);
    var kind := Punctuation(r.ch);
    if kind.Some? {
      tok := NewToken(kind.value, r.ch);
    } else if r.ch == 0 {
      tok := Token(Eof, []);
      return;
    } else if IsAsciiAlphabetic(r.ch) {
      var literal;
      literal, r := ReadIdentifier(r);
      tok := Token(LookupIdent(literal), literal);
      return;
    } else if IsAsciiDigit(r.ch) {
      var literal;
      literal, r := ReadNumber(r);
      tok := Token(Int, literal);
      return;
    } else {
      tok := NewToken(Illegal, r.ch);
    }
    r := ReadChar(r);
  }

  /** Every token from cursor `pos` up to and including the first end-of-input token. */
  function TokensFrom(input: seq<Byte>, pos: nat): (ts: seq<Token>)
    requires pos <= |input|
    ensures |ts| > 0 && ts[|ts| - 1].kind == Eof
    ensures forall i :: 0 <= i < |ts| - 1 ==> ts[i].kind != Eof
    decreases |input| - pos
  {
    var (t, e) := Scan(input, pos);
    if t.kind == Eof then [t] else [t] + TokensFrom(input, e)
  }

  /** A fresh lexer driven until it returns the end-of-input token, collecting every token. */
  method Tokenize(input: seq<Byte>) returns (ts: seq<Token>)
    ensures ts == TokensFrom(input, 0)
  {
    var l := New(input);
    ts := [];
    var done := false;
    while !done
      invariant Valid(l) && l.input == input
      invariant !done ==> ts + TokensFrom(input, l.position) == TokensFrom(input, 0)
      invariant done ==> ts == TokensFrom(input, 0)
      decreases |input| - l.position, if done then 0 else 1
    {
      var t;
      t, l := NextToken(l);
      ts := ts + [t];
      done := t.kind == Eof;
    }
  }
}
