# Monkey lexer in Dafny

A model of the lexer of a Rust interpreter for the Monkey language. The lexer
is a pull-based scanner over an in-memory byte buffer. Each call to
`next_token` skips whitespace and returns one `(kind, literal)` token. It moves
a cursor (`position`, `read_position`, current byte `ch`) forward until the end
sentinel 0 is reached. From then on every call returns the end-of-input token
(EOF).

Files:

- `ascii.dfy`, module `Ascii`: bytes (`Byte`, 0..255) and the two `u8` classifications the
  lexer uses, `is_ascii_alphabetic` and `is_ascii_digit`.
- `token.dfy`, module `Tokens`: the `TokenType` enumeration, `as_str`, the `Token` value,
  `Token::new` and the keyword lookup `lookup_ident`.
- `lexer.dfy`, module `Lexer`:
  - The scanner state and its cursor invariant `Valid`.
  - `new` and `read_char`.
  - The three run-consuming loops (`skip_whitespace`, `read_identifier`, `read_number`) and
    `next_token`, all written as methods over the same loops as the source.
  - `Scan`, a functional reference step. It follows `next_token`'s branches in the same
    order, with `RunEnd` in place of the loops, and the methods are proved equal to it.
    The declarative account of a step is in `RunEnd`'s contract, `RunEndUnique` and the
    `LexerProperties.Scan*` lemmas.
  - `TokensFrom` and `Tokenize`: the REPL's inner loop, which drives the lexer until it
    returns EOF.
- `lexer_properties.dfy`, module `LexerProperties`: what one step and a whole scan promise:
  - End-of-input handling.
  - The exact lexeme of every kind, and the fact that ILLEGAL is in-band.
  - Every non-whitespace byte is accounted for.
  - Steps compose.
- `lexer_test.dfy`, module `LexerTests`: the repository's unit test. The seven-line program
  scans to exactly the 37 expected tokens.

The source's data types map to Dafny datatypes:

- `Lexer.State` is the `Lexer` struct (`src/lexer.rs:4-9`). Its cursor invariant is
  `Lexer.Valid`.
- `Tokens.TokenType` is the `TokenType` enumeration (`src/token.rs:16-40`). `Tokens.Kinds`
  lists its fourteen variants.
- `Tokens.Token` is the `Token` struct (`src/token.rs:1-5`). Its literal is a byte sequence
  rather than a single `u8`; see "Left out".

The mutable `&mut self` receiver is modelled as a value: each operation takes a `State`
and returns the new one. Literals are byte sequences:

- empty for EOF;
- the single current byte for punctuation and ILLEGAL;
- the exact input slice for identifiers, keywords and numbers.

The code departs from the usual description of a Monkey lexer in several places, and the
model follows the code:

- Only `= ; , + ( { ) }` are recognised. There are no two-character operators and no
  `- ! * / < >`.
- The only keywords are `fn` and `let`.
- An identifier must start with an ASCII letter, so a leading `_` is ILLEGAL. It then runs
  over letters and underscores and stops at a digit.
- A NUL byte anywhere in the buffer reads as the end of input. `read_char` loads 0 there,
  and `next_token` treats 0 as EOF.
- The source reads `lookup_ident` from `token.rs`, but the file does not define it.
  `Tokens.LookupIdent` is defined from the two keyword variants of the enumeration and the
  unit test's expectations: `let` gives LET, `fn` gives FUNCTION, and every other spelling
  gives IDENT.

## Model

| member | source | states |
|---|---|---|
| Lexer.Valid | src/lexer.rs:4-33 | The cursor invariant of the `Lexer` struct: the cursor is at most one past the last byte and strictly before the read index, and a non-zero current byte lies inside the buffer and is the byte under the cursor |
| Lexer.ReadChar | src/lexer.rs:24-33 | `read_char` moves the cursor to the old read index and loads the byte there, 0 past the end; the buffer is unchanged |
| Lexer.ReadCharAdvances | src/lexer.rs:24-33 | From a valid state on a non-zero byte, `read_char` keeps the invariant and advances the cursor by exactly one |
| Lexer.New | src/lexer.rs:12-22 | A fresh lexer is valid with the cursor at 0; its current byte is 0 exactly when the buffer is empty or starts with NUL |
| Lexer.IsLetter | src/lexer.rs:35-38 | `is_letter` accepts only ASCII bytes other than the sentinel, and never a digit or punctuator, so identifiers are disjoint from the other token classes |
| Lexer.IsWhitespace | src/lexer.rs:62-66 | The bytes `skip_whitespace` consumes are ASCII, not the sentinel, and neither letters, digits nor punctuators, so no token can start on one |
| Lexer.RunEnd | src/lexer.rs:43-45 | The end of the maximal run of a byte class: every byte before it is in the class, and the byte at it (or the end sentinel) is not |
| Lexer.RunEndUnique | src/lexer.rs:43-45 | Any end with the maximal-run property is the run end, so maximal munch is unique |
| Lexer.SkipWhitespace | src/lexer.rs:62-66 | `skip_whitespace` stops exactly at the end of the maximal run of space, tab, newline and carriage return, on a non-whitespace byte, keeping the invariant |
| Lexer.ReadIdentifier | src/lexer.rs:40-49 | `read_identifier` consumes the maximal letter/underscore run and returns exactly that slice of the buffer. Every byte of it is a letter or underscore, and it is ASCII, so the UTF-8 conversion cannot fail |
| Lexer.ReadNumber | src/lexer.rs:51-60 | `read_number` consumes the maximal digit run and returns exactly that slice, all ASCII digits |
| Lexer.Punctuation | src/lexer.rs:71-79 | Each punctuation byte's kind renders, through `as_str`, back to that very byte |
| Lexer.PunctuationOfRendering | src/token.rs:49-56 | Conversely, every kind whose rendering is one character is the punctuation kind of that character |
| Lexer.Scan | src/lexer.rs:68-101 | One reference step: the cursor never moves back; EOF exactly when the first non-whitespace byte is the sentinel, with the cursor left there; any other token moves the cursor forward |
| Lexer.NextToken | src/lexer.rs:68-101 | `next_token` returns the token and cursor of the reference step and keeps the invariant. At the sentinel it returns `(EOF, "")` and leaves the state unchanged; any other token strictly advances the cursor |
| Lexer.TokensFrom | src/repl.rs:23-29 | The tokens read by calling the lexer until EOF: the list is non-empty, ends with EOF, and holds no earlier EOF |
| Lexer.Tokenize | src/repl.rs:21-29 | Driving a fresh lexer with `next_token` until it returns EOF terminates and collects exactly the reference token list |
| Tokens.Kinds | src/token.rs:16-40 | The enumeration has exactly fourteen kinds, listed without repetition |
| Tokens.KindsComplete | src/token.rs:16-40 | The list of kinds is complete: every token kind occurs in it |
| Tokens.AsStr | src/token.rs:43-59 | `as_str` is total and never empty; its rendering is one character exactly for the punctuation kinds |
| Tokens.AsStrInjective | src/token.rs:44-58 | Two kinds render to the same string only if they are the same kind |
| Tokens.NewToken | src/token.rs:8-13 | `Token::new` stores the given kind and exactly the given byte, untransformed |
| Tokens.KeywordKinds | src/token.rs:37-39 | The kinds the keyword table yields are exactly the two keyword variants, FUNCTION and LET |
| Tokens.LookupIdent | src/lexer.rs:120-133 | The lookup yields LET exactly for `let`, FUNCTION exactly for `fn`, and IDENT for every other spelling |
| LexerProperties.TokenStart | src/lexer.rs:62-69 | A token starts after a run of whitespace bytes, on a byte that is not whitespace |
| LexerProperties.ScanEndOfInput | src/lexer.rs:80 | At the sentinel (end of buffer or NUL byte) a step returns EOF with an empty literal and does not move past it |
| LexerProperties.EofIsIdempotent | src/lexer.rs:80 | Once a step returns EOF, the next step from the returned cursor returns the same EOF at the same cursor |
| LexerProperties.EmptyInputIsEof | src/lexer.rs:20-26 | A lexer over an empty buffer starts on the sentinel, and its whole scan is the single token `(EOF, "")` |
| LexerProperties.ScanLiteralIsSlice | src/lexer.rs:81-99 | Every literal is the exact buffer slice between the token's start and the new cursor; EOF's literal is empty |
| LexerProperties.ScanLiteralHasNoWhitespace | src/lexer.rs:62-69 | No literal contains whitespace, and every literal other than EOF's is non-empty |
| LexerProperties.ScanPunctuation | src/lexer.rs:71-99 | A punctuation byte yields its kind and that single byte, advances the cursor by exactly one, and its kind renders as that byte |
| LexerProperties.ScanIdentifier | src/lexer.rs:81-86 | A token starting on an ASCII letter is the maximal letter/underscore run, ends on a non-letter, is ASCII, and has the keyword lookup of its spelling as kind |
| LexerProperties.ScanNumber | src/lexer.rs:87-91 | A token starting on a digit is `(INT, run)` for the maximal digit run, ends on a non-digit, and is ASCII |
| LexerProperties.ScanIllegal | src/lexer.rs:92-99 | Any other non-zero byte, a leading underscore included, yields ILLEGAL with that byte and advances by one, so scanning never stops on bad input |
| LexerProperties.IllegalIffUnknownByte | src/lexer.rs:71-95 | A step is ILLEGAL exactly when its first byte is non-zero, not punctuation, not a letter and not a digit |
| LexerProperties.TokensAccountForInput | src/lexer.rs:62-101 | On a buffer without NUL bytes, the concatenated literals of a whole scan are exactly the buffer's non-whitespace bytes: nothing is lost and nothing invented |
| LexerProperties.TokensFromStep | src/lexer.rs:159-166 | A step that is not EOF contributes its token, and the scan continues from the cursor that step left |
| LexerProperties.ChainedSteps | src/lexer.rs:159-166 | Consecutive steps that each read a given non-EOF token compose: the scan from the first cursor begins with exactly those tokens |
| LexerTests.TestProgramScans | src/lexer.rs:111-157 | Any buffer holding the test program, byte for byte, scans to exactly the expected token list |
| LexerTests.FixtureScans | src/lexer.rs:110-167 | The test program scans to exactly the 37 expected `(kind, literal)` pairs, the last one `(EOF, "")` |
| LexerTests.NextTokenTest | src/lexer.rs:159-166 | A fresh lexer over the test program, driven to EOF, returns exactly the expected tokens. So the test's 37 successive `next_token` calls return the 37 expected pairs in order |

## Left out

- The stdin and stdout I/O of `src/repl.rs`: the welcome line, the prompt, reading a line
  and printing each token. Its inner loop, which calls `next_token` until EOF, is modelled
  by `Lexer.Tokenize`.
- The `println!` of each literal inside the unit test and the `Debug` derive on `Token`.
  These only affect presentation.
- Rust's `String` and UTF-8 handling. The input is any byte sequence. The
  `String::from_utf8(..).unwrap()` calls are covered only by proving that the converted
  bytes are ASCII.
- The `u8` type of `Token.literal` in `token.rs`. `lexer.rs` stores strings in that field,
  which does not type-check. The literal is modelled as a byte sequence instead of
  modelling the type error.
- `usize` arithmetic. `read_position += 1` cannot overflow, because the cursor never
  passes the buffer length. Integers are therefore unbounded.
- Operators, keywords and identifier rules that do not occur in the code, such as `==`,
  `!=`, `-`, `!`, `*`, `/`, `<`, `>`, `true`, `false`, `if`, `else`, `return`, and digits
  inside identifiers.
