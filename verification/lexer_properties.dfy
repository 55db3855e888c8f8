/**
 What one scanning step and a whole scan promise: end-of-input handling,
 the exact lexeme of every token kind, in-band illegal bytes, and that the
 tokens of a buffer account for every non-whitespace byte in it.
 */
module LexerProperties {
  import opened Ascii
  import opened Tokens
  import opened Lexer

  /** Where the token of a step from `pos` starts: just after the whitespace run. */
  function TokenStart(input: seq<Byte>, pos: nat): (s: nat)
    requires pos <= |input|
    ensures pos <= s <= |input|
    ensures forall j :: pos <= j < s ==> IsWhitespace(input[j])
    ensures !IsWhitespace(CharAt(input, s))
  {
    RunEnd(input, pos, Whitespace)
  }

  /** At the end sentinel (past the buffer or on a NUL byte) the step yields EOF with an empty literal. */
  lemma ScanEndOfInput(input: seq<Byte>, pos: nat)
    requires pos <= |input|
    requires CharAt(input, TokenStart(input, pos)) == 0
    ensures Scan(input, pos) == (Token(Eof, []), TokenStart(input, pos))
  {
  }

  /** Once a step yields EOF, the next step from where it left the cursor yields the same EOF in place. */
  lemma EofIsIdempotent(input: seq<Byte>, pos: nat)
    requires pos <= |input|
    requires Scan(input, pos).0.kind == Eof
    ensures Scan(input, Scan(input, pos).1) == Scan(input, pos)
  {
    var s := Scan(input, pos).1;
    assert RunEnd(input, s, Whitespace) == s;
  }

  /** An empty buffer scans to exactly one token: EOF with an empty literal. */
  lemma EmptyInputIsEof()
    ensures New([]).ch == 0
    ensures TokensFrom([], 0) == [Token(Eof, [])]
  {
  }

  /**
   Every literal is the exact slice of the buffer that follows the skipped
   whitespace and ends at the new cursor; an EOF literal is the empty slice.
   */
  lemma ScanLiteralIsSlice(input: seq<Byte>, pos: nat)
    requires pos <= |input|
    ensures var (t, e) := Scan(input, pos);
      TokenStart(input, pos) <= e && t.literal == input[TokenStart(input, pos)..e]
  {
  }

  /** No literal contains whitespace; every non-EOF literal is non-empty. */
  lemma ScanLiteralHasNoWhitespace(input: seq<Byte>, pos: nat)
    requires pos <= |input|
    ensures forall i :: 0 <= i < |Scan(input, pos).0.literal| ==> !IsWhitespace(Scan(input, pos).0.literal[i])
    ensures Scan(input, pos).0.kind != Eof ==> |Scan(input, pos).0.literal| > 0
  {
    var s := TokenStart(input, pos);
    var (t, e) := Scan(input, pos);
    if t.kind != Eof && IsAsciiAlphabetic(CharAt(input, s)) {
      forall i | 0 <= i < |t.literal| ensures !IsWhitespace(t.literal[i]) {
        assert t.literal[i] == input[s + i];
        assert IsLetter(input[s + i]);
      }
    } else if t.kind != Eof && IsAsciiDigit(CharAt(input, s)) {
      forall i | 0 <= i < |t.literal| ensures !IsWhitespace(t.literal[i]) {
        assert t.literal[i] == input[s + i];
        assert IsAsciiDigit(input[s + i]);
      }
    }
  }

  /** A punctuator yields its kind, its single byte as literal, and advances the cursor by one. */
  lemma ScanPunctuation(input: seq<Byte>, pos: nat, k: TokenType)
    requires pos <= |input|
    requires Punctuation(CharAt(input, TokenStart(input, pos))) == Some(k)
    ensures Scan(input, pos) == (Token(k, [CharAt(input, TokenStart(input, pos))]), TokenStart(input, pos) + 1)
    ensures AsStr(Scan(input, pos).0.kind) == [CharAt(input, TokenStart(input, pos)) as char]
  {
  }

  /**
   An identifier starts on an ASCII letter and consumes the maximal run of
   letters and underscores; its kind is the keyword lookup of that run.
   */
  lemma ScanIdentifier(input: seq<Byte>, pos: nat)
    requires pos <= |input|
    requires IsAsciiAlphabetic(CharAt(input, TokenStart(input, pos)))
    ensures var (t, e) := Scan(input, pos);
      var s := TokenStart(input, pos);
      && s < e
      && t.literal == input[s..e]
      && (forall j :: s <= j < e ==> IsLetter(input[j]))
      && !IsLetter(CharAt(input, e))
      && t.kind == LookupIdent(t.literal)
      && IsAscii(t.literal)
  {
  }

  /** A number consumes the maximal run of ASCII digits; its kind is INT and its literal is that run. */
  lemma ScanNumber(input: seq<Byte>, pos: nat)
    requires pos <= |input|
    requires IsAsciiDigit(CharAt(input, TokenStart(input, pos)))
    ensures var (t, e) := Scan(input, pos);
      var s := TokenStart(input, pos);
      && s < e
      && t == Token(Int, input[s..e])
      && (forall j :: s <= j < e ==> IsAsciiDigit(input[j]))
      && !IsAsciiDigit(CharAt(input, e))
      && IsAscii(t.literal)
  {
  }

  /**
   Any other non-zero byte (a leading underscore, a non-ASCII byte, an
   operator the lexer does not know) yields ILLEGAL with that byte as literal
   and advances by one: scanning never stops on bad input.
   */
  lemma ScanIllegal(input: seq<Byte>, pos: nat)
    requires pos <= |input|
    requires var c := CharAt(input, TokenStart(input, pos));
      c != 0 && Punctuation(c).None? && !IsAsciiAlphabetic(c) && !IsAsciiDigit(c)
    ensures Scan(input, pos) == (Token(Illegal, [CharAt(input, TokenStart(input, pos))]), TokenStart(input, pos) + 1)
  {
  }

  /** The kind of a step is ILLEGAL exactly when its first byte is outside every class the lexer knows. */
  lemma IllegalIffUnknownByte(input: seq<Byte>, pos: nat)
    requires pos <= |input|
    ensures var c := CharAt(input, TokenStart(input, pos));
      Scan(input, pos).0.kind == Illegal <==>
        c != 0 && Punctuation(c).None? && !IsAsciiAlphabetic(c) && !IsAsciiDigit(c)
  {
    var c := CharAt(input, TokenStart(input, pos));
    if IsAsciiAlphabetic(c) {
      var e := RunEnd(input, TokenStart(input, pos), Letter);
      assert LookupIdent(input[TokenStart(input, pos)..e]) != Illegal;
    }
  }

  /** The bytes of `s` that are not whitespace, in order. */
  function Strip(s: seq<Byte>): (r: seq<Byte>)
    ensures |r| <= |s|
    ensures forall i :: 0 <= i < |r| ==> !IsWhitespace(r[i])
  {
    if s == [] then []
    else if IsWhitespace(s[0]) then Strip(s[1..])
    else [s[0]] + Strip(s[1..])
  }

  lemma {:induction false} StripAppend(a: seq<Byte>, b: seq<Byte>)
    ensures Strip(a + b) == Strip(a) + Strip(b)
  {
    if a == [] {
      assert a + b == b;
    } else {
      assert (a + b)[1..] == a[1..] + b;
      StripAppend(a[1..], b);
    }
  }

  lemma {:induction false} StripWhitespace(s: seq<Byte>)
    requires forall i :: 0 <= i < |s| ==> IsWhitespace(s[i])
    ensures Strip(s) == []
  {
    if s != [] {
      StripWhitespace(s[1..]);
    }
  }

  lemma {:induction false} StripNoWhitespace(s: seq<Byte>)
    requires forall i :: 0 <= i < |s| ==> !IsWhitespace(s[i])
    ensures Strip(s) == s
  {
    if s != [] {
      StripNoWhitespace(s[1..]);
      assert s == [s[0]] + s[1..];
    }
  }

  /** The literals of a token sequence, concatenated. */
  function Lexemes(ts: seq<Token>): (r: seq<Byte>)
    ensures ts == [] ==> r == []
  {
    if ts == [] then [] else ts[0].literal + Lexemes(ts[1..])
  }

  /** The buffer holds no NUL byte, so only its end stops the scan. */
  predicate NoNul(input: seq<Byte>) {
    forall i :: 0 <= i < |input| ==> input[i] != 0
  }

  /** The bytes one step consumes are its skipped whitespace followed by its literal. */
  lemma StepStrip(input: seq<Byte>, pos: nat)
    requires pos <= |input|
    ensures Strip(input[pos..Scan(input, pos).1]) == Scan(input, pos).0.literal
  {
    var (t, e) := Scan(input, pos);
    var s := TokenStart(input, pos);
    ScanLiteralIsSlice(input, pos);
    ScanLiteralHasNoWhitespace(input, pos);
    assert input[pos..e] == input[pos..s] + input[s..e];
    StripAppend(input[pos..s], input[s..e]);
    StripWhitespace(input[pos..s]);
    StripNoWhitespace(input[s..e]);
  }

  /**
   On a buffer without NUL bytes the tokens from `pos` lose and invent
   nothing: their literals, concatenated, are exactly the non-whitespace
   bytes of the rest of the buffer.
   */
  lemma {:induction false} TokensAccountForInput(input: seq<Byte>, pos: nat)
    requires pos <= |input|
    requires NoNul(input)
    ensures Lexemes(TokensFrom(input, pos)) == Strip(input[pos..])
    decreases |input| - pos
  {
    var (t, e) := Scan(input, pos);
    var ts := TokensFrom(input, pos);
    StepStrip(input, pos);
    assert input[pos..] == input[pos..e] + input[e..];
    StripAppend(input[pos..e], input[e..]);
    if t.kind == Eof {
      assert e == |input|;
      assert input[e..] == [];
      assert ts == [t];
      assert Lexemes(ts) == t.literal + Lexemes(ts[1..]);
    } else {
      TokensAccountForInput(input, e);
      assert ts == [t] + TokensFrom(input, e);
      assert ts[1..] == TokensFrom(input, e);
    }
  }

  /** A step that does not end the input contributes its token and hands over to the next cursor. */
  lemma TokensFromStep(input: seq<Byte>, pos: nat, t: Token, e: nat)
    requires pos <= |input|
    requires Scan(input, pos) == (t, e) && t.kind != Eof
    ensures TokensFrom(input, pos) == [t] + TokensFrom(input, e)
  {
  }

  /** The step from cursor `ps[i]` reads `ts[i]`, which is not EOF, and leaves the cursor at `ps[i + 1]`. */
  predicate Link(input: seq<Byte>, ps: seq<nat>, ts: seq<Token>, i: nat)
    requires i + 1 < |ps| && i < |ts|
  {
    && ps[i] <= |input|
    && ts[i].kind != Eof
    && Scan(input, ps[i]) == (ts[i], ps[i + 1])
  }

  lemma ConsSlice<X>(s: seq<X>, k: nat, n: nat, r: seq<X>)
    requires k < n <= |s|
    ensures [s[k]] + (s[k + 1..n] + r) == s[k..n] + r
  {
    assert s[k..n] == [s[k]] + s[k + 1..n];
  }

  /** Linked steps from cursor `ps[k]` to cursor `ps[n]` produce exactly the tokens `ts[k..n]` on the way. */
  lemma {:induction false} ChainedSteps(input: seq<Byte>, ps: seq<nat>, ts: seq<Token>, k: nat, n: nat)
    requires k <= n < |ps| && n <= |ts|
    requires ps[k] <= |input| && ps[n] <= |input|
    requires forall i {:trigger Link(input, ps, ts, i)} :: k <= i < n ==> Link(input, ps, ts, i)
    ensures TokensFrom(input, ps[k]) == ts[k..n] + TokensFrom(input, ps[n])
    decreases n - k
  {
    if k < n {
      assert Link(input, ps, ts, k);
      ChainedSteps(input, ps, ts, k + 1, n);
      TokensFromStep(input, ps[k], ts[k], ps[k + 1]);
      ConsSlice(ts, k, n, TokensFrom(input, ps[n]));
    } else {
      assert ts[k..n] == [];
    }
  }
}
