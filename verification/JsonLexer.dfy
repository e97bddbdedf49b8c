/** The scanner: a cursor over a NUL-terminated text. */
module JsonLexer {
  import opened JsonTokens

  function IsSpace(c: char): bool {
    c == ' ' || c == '\t' || c == '\n' || c == '\r'
  }

  /** `_isNumber`. */
  function IsNumber(c: char): bool {
    '0' <= c <= '9' || c == '.' || c == 'e' || c == 'E' || c == '+' || c == '-'
  }

  /** `_isLetter`. */
  function IsLetter(c: char): bool {
    'a' <= c <= 'z' || 'A' <= c <= 'Z' || c == '_'
  }

  function InString(c: char): bool {
    c != '\0' && c != '\"'
  }

  function Punctuation(c: char): Option<Kind> {
    match c
    case '{' => Some(LeftBrace)
    case '}' => Some(RightBrace)
    case '[' => Some(LeftBracket)
    case ']' => Some(RightBracket)
    case ',' => Some(Comma)
    case ':' => Some(Colon)
    case _ => None
  }

  /** The runs of characters that the scanner reads in one go. */
  datatype Run = Spaces | Text | Digits | Letters

  ghost predicate InRun(run: Run, c: char) {
    match run
    case Spaces => IsSpace(c)
    case Text => InString(c)
    case Digits => IsNumber(c)
    case Letters => IsLetter(c)
  }

  /** The characters of a run, written out. */
  ghost predicate Belongs(run: Run, c: char) {
    match run
    case Spaces => c in " \t\n\r"
    case Text => c != '\0' && c != '\"'
    case Digits => '0' <= c <= '9' || c in ".eE+-"
    case Letters => 'a' <= c <= 'z' || 'A' <= c <= 'Z' || c == '_'
  }

  /** Numerals and letters one by one. */
  lemma OneByOne(c: char)
    ensures Belongs(Digits, c) <==> c in "0123456789.eE+-"
    ensures Belongs(Letters, c) <==>
              c in "abcdefghijklmnopqrstuvwxyz" || c in "ABCDEFGHIJKLMNOPQRSTUVWXYZ" || c == '_'
  {
    LowerCase(c);
    UpperCase(c);
  }

  lemma LowerCase(c: char)
    ensures c in "abcdefghijklmnopqrstuvwxyz" <==> 'a' <= c <= 'z'
  {
  }

  lemma UpperCase(c: char)
    ensures c in "ABCDEFGHIJKLMNOPQRSTUVWXYZ" <==> 'A' <= c <= 'Z'
  {
  }

  /** The tests of the scanner pick out these characters. */
  lemma Classes(run: Run, c: char)
    ensures InRun(run, c) <==> Belongs(run, c)
  {
  }

  /** A text as `strlen` sees it. */
  ghost predicate NulFree(s: string) {
    forall i | 0 <= i < |s| :: s[i] != '\0'
  }

  /** The character at a position; the terminator beyond the end. */
  ghost function CharAt(s: string, p: nat): char {
    if p < |s| then s[p] else '\0'
  }

  /** Where the run of characters that starts at `p` ends. */
  ghost function RunEnd(s: string, p: nat, run: Run): (r: nat)
    ensures p <= r && (r <= |s| || r == p)
    decreases |s| - p
  {
    if p < |s| && InRun(run, s[p]) then RunEnd(s, p + 1, run) else p
  }

  lemma {:induction false} RunEndStops(s: string, p: nat, run: Run)
    ensures var r := RunEnd(s, p, run);
            (forall i | p <= i < r :: i < |s| && InRun(run, s[i])) && (r < |s| ==> !InRun(run, s[r]))
    decreases |s| - p
  {
    if p < |s| && InRun(run, s[p]) {
      RunEndStops(s, p + 1, run);
    }
  }

  /** The characters from `p` up to `q` are the longest run that starts at `p`. */
  ghost predicate Longest(s: string, p: nat, q: nat, run: Run) {
    && p <= q <= |s| && (forall i | p <= i < q :: Belongs(run, s[i]))
    && (q < |s| ==> !Belongs(run, s[q]))
  }

  lemma RunIs(s: string, p: nat, run: Run)
    requires p <= |s|
    ensures Longest(s, p, RunEnd(s, p, run), run)
  {
    var q := RunEnd(s, p, run);
    RunEndStops(s, p, run);
    forall i | p <= i < q
      ensures Belongs(run, s[i])
    {
      Classes(run, s[i]);
    }
    if q < |s| {
      Classes(run, s[q]);
    }
  }

  /** What a caller finds where a function ended without a return value, for a word that
      starts at a given position. */
  type Junk = nat -> Kind

  /** `_getTokenTypeFromLiteral`: prefixes of the three words are accepted; for any
      other word the function ends without a return value, and `junk` stands for
      whatever its caller finds. */
  function WordKind(w: string, junk: Kind): Kind {
    if w <= "true" then True
    else if w <= "false" then False
    else if w <= "null" then Null
    else junk
  }

  /** The token that starts at `p`, which is not a space, and where the cursor is after it. */
  ghost function Lexeme(s: string, p: nat, junk: Junk): (r: (Token, nat))
    ensures p < r.1 && (r.1 <= |s| || p >= |s| || CharAt(s, p) == '\"')
  {
    var c := CharAt(s, p);
    if Punctuation(c).Some? then (Token(Punctuation(c).value, None), p + 1)
    else if c == '\0' then (Token(Eof, None), p + 1)
    else if c == '\"' then
      var q := RunEnd(s, p + 1, Text);
      (Token(String, Some(s[p + 1..q])), q + 1)
    else if IsNumber(c) then
      var q := RunEnd(s, p, Digits);
      (Token(Number, Some(s[p..q])), q)
    else if IsLetter(c) then
      var q := RunEnd(s, p, Letters);
      (Token(WordKind(s[p..q], junk(p)), None), q)
    else (Token(Illegal, None), p + 1)
  }

  /** All tokens from `p` on, up to the first end-of-input token. */
  ghost function Lex(s: string, p: nat, junk: Junk): seq<Token>
    decreases |s| + 1 - p
  {
    var (t, q) := Lexeme(s, RunEnd(s, p, Spaces), junk);
    if t.kind == Eof then [t]
    else [t] + Lex(s, q, junk)
  }

  /** The tokens still to come after `t`, with the cursor at `p`. */
  ghost function Rest(s: string, p: nat, t: Token, junk: Junk): seq<Token> {
    if t.kind == Eof then [] else Lex(s, p, junk)
  }

  lemma LexStep(s: string, p: nat, junk: Junk, done: seq<Token>)
    requires NulFree(s)
    ensures var (t, q) := Lexeme(s, RunEnd(s, p, Spaces), junk);
            && done + Lex(s, p, junk) == done + [t] + Rest(s, q, t, junk)
            && (t.kind != Eof ==> p < q <= |s| + 1)
  {
  }

  class Lexer {
    const input: string
    const inputLength: nat
    const junk: Junk
    var position: nat
    var readPosition: nat
    var ch: char

    ghost predicate Valid()
      reads this
    {
      && inputLength == |input| && NulFree(input)
      && readPosition == position + 1 && ch == CharAt(input, position)
    }

    /** `lexerCreate`. */
    constructor (input: string, junk: Junk)
      requires NulFree(input)
      ensures Valid() && this.input == input && this.junk == junk && position == 0
    {
      this.input, this.junk := input, junk;
      inputLength := |input|;
      position := 0;
      readPosition := 0;
      ch := if |input| > 0 then input[0] else '\0';
      new;
      ReadChar();
    }

    /** `_lexerReadChar`. */
    method ReadChar()
      requires inputLength == |input| && NulFree(input)
      modifies this
      ensures Valid() && position == old(readPosition)
    {
      if readPosition >= inputLength {
        ch := '\0';
      } else {
        ch := input[readPosition];
      }
      position := readPosition;
      readPosition := readPosition + 1;
    }

    /** `_lexerSkipWhitespace`. */
    method SkipWhitespace()
      requires Valid()
      modifies this
      ensures Valid() && position == RunEnd(input, old(position), Spaces)
      ensures old(position) <= |input| ==> Longest(input, old(position), position, Spaces)
    {
      if position <= |input| {
        RunIs(input, position, Spaces);
      }
      while ch == ' ' || ch == '\t' || ch == '\n' || ch == '\r'
        invariant Valid()
        invariant RunEnd(input, old(position), Spaces) == RunEnd(input, position, Spaces)
        decreases |input| - position
      {
        ReadChar();
      }
    }

    /** `_lexerReadString`. */
    method ReadString() returns (text: string)
      requires Valid() && position <= |input|
      modifies this
      ensures Valid() && position == RunEnd(input, old(position), Text)
      ensures Longest(input, old(position), position, Text)
      ensures text == input[old(position)..position]
    {
      var start := position;
      RunIs(input, start, Text);
      while ch != '\0' && ch != '\"'
        invariant Valid() && start <= position <= |input|
        invariant RunEnd(input, start, Text) == RunEnd(input, position, Text)
        decreases |input| - position
      {
        ReadChar();
      }
      return input[start..position];
    }

    /** `_lexerReadNumber`. */
    method ReadNumber() returns (text: string)
      requires Valid() && position <= |input|
      modifies this
      ensures Valid() && position == RunEnd(input, old(position), Digits)
      ensures Longest(input, old(position), position, Digits)
      ensures text == input[old(position)..position]
    {
      var start := position;
      RunIs(input, start, Digits);
      while IsNumber(ch)
        invariant Valid() && start <= position <= |input|
        invariant RunEnd(input, start, Digits) == RunEnd(input, position, Digits)
        decreases |input| - position
      {
        ReadChar();
      }
      return input[start..position];
    }

    /** `_lexerReadIdentifier`. */
    method ReadIdentifier() returns (text: string)
      requires Valid() && position <= |input|
      modifies this
      ensures Valid() && position == RunEnd(input, old(position), Letters)
      ensures Longest(input, old(position), position, Letters)
      ensures text == input[old(position)..position]
    {
      var start := position;
      RunIs(input, start, Letters);
      while IsLetter(ch)
        invariant Valid() && start <= position <= |input|
        invariant RunEnd(input, start, Letters) == RunEnd(input, position, Letters)
        decreases |input| - position
      {
        ReadChar();
      }
      return input[start..position];
    }

    /** `lexerNext`. */
    method Next() returns (token: Token)
      requires Valid()
      modifies this
      ensures Valid()
      ensures (token, position) == Lexeme(input, RunEnd(input, old(position), Spaces), junk)
    {
      SkipWhitespace();
      var found := Punctuation(ch);
      token := Token(Illegal, None);
      if found.Some? {
        token := Token(found.value, None);
      } else if ch == '\0' {
        token := Token(Eof, None);
      }
      if ch == '\"' {
        ReadChar();
        var text := ReadString();
        token := Token(String, Some(text));
        ReadChar();
        return;
      } else if IsNumber(ch) {
        var text := ReadNumber();
        return Token(Number, Some(text));
      } else if IsLetter(ch) {
        var start := position;
        var text := ReadIdentifier();
        return Token(WordKind(text, junk(start)), None);
      }
      ReadChar();
    }
  }

  /** Bytes of a `Token` and of its address. */
  const TOKEN_SIZE := 16
  const ADDRESS_SIZE := 8

  /** `realloc` of an array of addresses, to a number of bytes. */
  method Realloc(a: array<Token>, bytes: nat) returns (b: array<Token>)
    ensures fresh(b) && b.Length == bytes / ADDRESS_SIZE
    ensures forall n | 0 <= n <= a.Length && n <= b.Length :: b[..n] == a[..n]
  {
    b := new Token[bytes / ADDRESS_SIZE];
    forall j | 0 <= j < a.Length && j < b.Length {
      b[j] := a[j];
    }
  }

  /** `tokensArray[i] = lexerNext(lexer)`. */
  method ReadToken(lexer: Lexer, tokens: array<Token>, i: nat) returns (token: Token)
    requires lexer.Valid() && i < tokens.Length
    modifies lexer, tokens
    ensures lexer.Valid() && tokens[..i + 1] == old(tokens[..i]) + [token]
    ensures old(tokens[..i]) + Lex(lexer.input, old(lexer.position), lexer.junk)
         == tokens[..i + 1] + Rest(lexer.input, lexer.position, token, lexer.junk)
    ensures token.kind != Eof ==> old(lexer.position) < lexer.position <= |lexer.input| + 1
  {
    LexStep(lexer.input, lexer.position, lexer.junk, tokens[..i]);
    token := lexer.Next();
    tokens[i] := token;
  }

  /** `parseTokens`: the array grows to the size computed one round before, yet every
      write is within it. */
  method ParseTokens(json: string, junk: Junk) returns (tokens: array<Token>, length: nat)
    requires NulFree(json)
    ensures length <= tokens.Length && tokens[..length] == Lex(json, 0, junk)
  {
    tokens := new Token[TOKEN_SIZE / ADDRESS_SIZE];
    var size := TOKEN_SIZE;
    var lexer := new Lexer(json, junk);
    var i := 0;
    var token := ReadToken(lexer, tokens, i);
    while token.kind != Eof
      invariant lexer.Valid() && lexer.input == json && lexer.junk == junk && fresh(lexer) && fresh(tokens)
      invariant size == TOKEN_SIZE * (i + 1) && i < tokens.Length
      invariant Lex(json, 0, junk) == tokens[..i + 1] + Rest(json, lexer.position, token, junk)
      invariant token.kind != Eof ==> lexer.position <= |json| + 1
      decreases if token.kind == Eof then 0 else |json| + 2 - lexer.position
    {
      var newLength := size + TOKEN_SIZE;
      tokens := Realloc(tokens, size);
      size := newLength;
      i := i + 1;
      token := ReadToken(lexer, tokens, i);
    }
    length := size / TOKEN_SIZE;
  }
}

/** What the scanner's output tells about the text. */
module JsonLexing {
  import opened JsonTokens
  import opened JsonLexer

  /** The words, by the first of the three that they are a prefix of. */
  ghost function KindOf(w: string, otherwise: Kind): Kind {
    if |w| <= 4 && w == "true"[..|w|] then True
    else if |w| <= 5 && w == "false"[..|w|] then False
    else if |w| <= 4 && w == "null"[..|w|] then Null
    else otherwise
  }

  // On every text, the lexeme that starts with each character, and how far it goes.

  lemma MarkIs(s: string, p: nat, junk: Junk)
    requires p < |s| && s[p] in "{}[],:"
    ensures var k := match s[p]
                     case '{' => LeftBrace
                     case '}' => RightBrace
                     case '[' => LeftBracket
                     case ']' => RightBracket
                     case ',' => Comma
                     case _ => Colon;
            Lexeme(s, p, junk) == (Token(k, None), p + 1)
  {
  }

  /** A string goes up to the next quote, or to the end of the text. */
  lemma StringIs(s: string, p: nat, junk: Junk)
    requires p < |s| && s[p] == '\"'
    ensures var (t, q) := Lexeme(s, p, junk);
            p < q - 1 && Longest(s, p + 1, q - 1, Text) && t == Token(String, Some(s[p + 1..q - 1]))
  {
    RunIs(s, p + 1, Text);
  }

  lemma NumberIs(s: string, p: nat, junk: Junk)
    requires p < |s| && Belongs(Digits, s[p])
    ensures var (t, q) := Lexeme(s, p, junk);
            p < q && Longest(s, p, q, Digits) && t == Token(Number, Some(s[p..q]))
  {
    Classes(Digits, s[p]);
    RunIs(s, p, Digits);
  }

  lemma WordIs(s: string, p: nat, junk: Junk)
    requires p < |s| && Belongs(Letters, s[p]) && !Belongs(Digits, s[p])
    ensures var (t, q) := Lexeme(s, p, junk);
            p < q && Longest(s, p, q, Letters) && t == Token(KindOf(s[p..q], junk(p)), None)
  {
    Classes(Digits, s[p]);
    Classes(Letters, s[p]);
    WordFrom(s, p, junk);
  }

  lemma WordFrom(s: string, p: nat, junk: Junk)
    requires p < |s| && InRun(Letters, s[p]) && !InRun(Digits, s[p])
    ensures var (t, q) := Lexeme(s, p, junk);
            p < q && Longest(s, p, q, Letters) && t == Token(KindOf(s[p..q], junk(p)), None)
  {
    RunIs(s, p, Letters);
    KindOfIs(s[p..RunEnd(s, p, Letters)], junk(p));
  }

  lemma KindOfIs(w: string, otherwise: Kind)
    ensures WordKind(w, otherwise) == KindOf(w, otherwise)
  {
  }

  /** No other character starts anything; the end of the text is the end of input. */
  lemma NothingElseIs(s: string, p: nat, junk: Junk)
    requires NulFree(s)
    requires p < |s| ==> s[p] !in "{}[],:\"" && !Belongs(Digits, s[p]) && !Belongs(Letters, s[p])
    ensures Lexeme(s, p, junk) == (Token(if p < |s| then Illegal else Eof, None), p + 1)
  {
    if p < |s| {
      Classes(Digits, s[p]);
      Classes(Letters, s[p]);
    }
  }

  /** There is exactly one end-of-input token, and it comes last. */
  lemma {:induction false} EofComesLast(s: string, p: nat, junk: Junk)
    requires NulFree(s)
    ensures var r := Lex(s, p, junk);
            Terminated(r) && forall j | 0 <= j < |r| - 1 :: r[j].kind != Eof
    decreases |s| + 1 - p
  {
    var (t, q) := Lexeme(s, RunEnd(s, p, Spaces), junk);
    if t.kind != Eof {
      EofComesLast(s, q, junk);
      var rest := Lex(s, q, junk);
      assert Lex(s, p, junk) == [t] + rest;
    }
  }

  /** Where each lexeme starts and where the cursor is after it. */
  ghost function Spans(s: string, p: nat, junk: Junk): seq<(nat, nat)>
    decreases |s| + 1 - p
  {
    var start := RunEnd(s, p, Spaces);
    var (t, q) := Lexeme(s, start, junk);
    [(start, q)] + if t.kind == Eof then [] else Spans(s, q, junk)
  }

  /** The lexemes are in order and do not overlap. */
  lemma {:induction false} SpansOrdered(s: string, p: nat, junk: Junk)
    requires NulFree(s)
    ensures var r := Spans(s, p, junk);
            && |r| == |Lex(s, p, junk)|
            && (forall j | 0 <= j < |r| :: p <= r[j].0 < r[j].1)
            && (forall j, k | 0 <= j < k < |r| :: r[j].1 <= r[k].0)
    decreases |s| + 1 - p
  {
    var start := RunEnd(s, p, Spaces);
    var (t, q) := Lexeme(s, start, junk);
    if t.kind != Eof {
      SpansOrdered(s, q, junk);
      var rest := Spans(s, q, junk);
      assert Spans(s, p, junk) == [(start, q)] + rest;
    }
  }

  ghost predicate Covered(spans: seq<(nat, nat)>, x: nat) {
    exists j | 0 <= j < |spans| :: spans[j].0 <= x < spans[j].1
  }

  /** Where the cursor is after the last lexeme. */
  ghost function Scanned(s: string, p: nat, junk: Junk): nat
    decreases |s| + 1 - p
  {
    var (t, q) := Lexeme(s, RunEnd(s, p, Spaces), junk);
    if t.kind == Eof then q else Scanned(s, q, junk)
  }

  /** Whatever has been scanned and is in no lexeme is white space. */
  lemma {:induction false} SpansCover(s: string, p: nat, junk: Junk, x: nat)
    requires p <= x < |s| && x < Scanned(s, p, junk)
    ensures Belongs(Spaces, s[x]) || Covered(Spans(s, p, junk), x)
    decreases |s| + 1 - p
  {
    var start := RunEnd(s, p, Spaces);
    RunEndStops(s, p, Spaces);
    if start <= x {
      var r, q := Spans(s, p, junk), Lexeme(s, start, junk).1;
      if x < q {
        assert r[0] == (start, q);
      } else {
        SpansCover(s, q, junk, x);
        if !Belongs(Spaces, s[x]) {
          var rest := Spans(s, q, junk);
          var j :| 0 <= j < |rest| && rest[j].0 <= x < rest[j].1;
          assert r[j + 1] == rest[j];
        }
      }
    }
  }

  /** The word reads as one of the three that there are. */
  ghost predicate Known(w: string) {
    w <= "true" || w <= "false" || w <= "null"
  }

  /** A word without a return value always leaves the same behind. */
  ghost function Always(k: Kind): Junk {
    (start: nat) => k
  }

  /** Every run of letters that starts a lexeme is such a word. */
  ghost predicate WordsKnown(s: string, p: nat)
    decreases |s| + 1 - p
  {
    var start := RunEnd(s, p, Spaces);
    start < |s| ==>
      && (Belongs(Letters, s[start]) && !Belongs(Digits, s[start]) ==> Known(s[start..RunEnd(s, start, Letters)]))
      && WordsKnown(s, Lexeme(s, start, Always(Eof)).1)
  }

  /** Where a lexeme ends does not depend on it, and it is the end of input behind the
      text, or for an unknown word that happens to be taken for it. */
  lemma LexemeStops(s: string, p: nat, junk: Junk)
    requires NulFree(s)
    ensures Lexeme(s, p, junk).1 == Lexeme(s, p, Always(Eof)).1
    ensures Lexeme(s, p, junk).0.kind == Eof <==>
              || p >= |s|
              || (&& Belongs(Letters, s[p]) && !Belongs(Digits, s[p]) && !Known(s[p..RunEnd(s, p, Letters)])
                  && junk(p) == Eof)
  {
  }

  lemma {:induction false} KnownScanned(s: string, p: nat, junk: Junk)
    requires NulFree(s) && WordsKnown(s, p)
    ensures Scanned(s, p, junk) > |s|
    decreases |s| + 1 - p
  {
    var start := RunEnd(s, p, Spaces);
    LexemeStops(s, start, junk);
    if start < |s| {
      KnownScanned(s, Lexeme(s, start, junk).1, junk);
    }
  }

  lemma {:induction false} ScannedKnown(s: string, p: nat)
    requires NulFree(s) && Scanned(s, p, Always(Eof)) > |s|
    ensures WordsKnown(s, p)
    decreases |s| + 1 - p
  {
    var start := RunEnd(s, p, Spaces);
    LexemeStops(s, start, Always(Eof));
    if start < |s| {
      ScannedKnown(s, Lexeme(s, start, Always(Eof)).1);
    }
  }

  /** The scanner gets past the end of the text, whatever words without a return value
      leave behind. */
  ghost predicate SurelyScanned(s: string, p: nat) {
    forall junk: Junk :: Scanned(s, p, junk) > |s|
  }

  /** The scanner is sure to read the whole text exactly when every word in it is a prefix
      of one of the three. */
  lemma AllScanned(s: string, p: nat)
    requires NulFree(s)
    ensures WordsKnown(s, p) <==> SurelyScanned(s, p)
  {
    if WordsKnown(s, p) {
      forall junk: Junk
        ensures Scanned(s, p, junk) > |s|
      {
        KnownScanned(s, p, junk);
      }
    } else if SurelyScanned(s, p) {
      ScannedKnown(s, p);
    }
  }

  // --------------------------------------------------------------- printing

  /** A token that some text stands for: quote-free strings, nonempty number lexemes,
      the three words, and punctuation. */
  ghost predicate Printable(t: Token) {
    match t.kind
    case String => t.literal.Some? && forall c | c in t.literal.value :: c != '\0' && c != '\"'
    case Number =>
      t.literal.Some? && t.literal.value != "" && forall c | c in t.literal.value :: c in "0123456789.eE+-"
    case LeftBrace | RightBrace | LeftBracket | RightBracket | Comma | Colon => t.literal.None?
    case True | False | Null => t.literal.None?
    case _ => false
  }

  function Print(t: Token): string {
    match t.kind
    case LeftBrace => "{"
    case RightBrace => "}"
    case LeftBracket => "["
    case RightBracket => "]"
    case Comma => ","
    case Colon => ":"
    case True => "true"
    case False => "false"
    case Null => "null"
    case String => if t.literal.Some? then "\"" + t.literal.value + "\"" else ""
    case Number => if t.literal.Some? then t.literal.value else ""
    case _ => ""
  }

  /** The text of a token list from its `i`-th token on, with a gap before each token and
      one at the end. */
  function PrintingFrom(ts: seq<Token>, gaps: seq<string>, i: nat): string
    requires |gaps| == |ts| + 1 && i <= |ts|
    decreases |ts| - i
  {
    if i == |ts| then gaps[i] else gaps[i] + Print(ts[i]) + PrintingFrom(ts, gaps, i + 1)
  }

  function Printing(ts: seq<Token>, gaps: seq<string>): string
    requires |gaps| == |ts| + 1
  {
    PrintingFrom(ts, gaps, 0)
  }

  ghost predicate Word(t: Token) {
    t.kind == Number || t.kind == True || t.kind == False || t.kind == Null
  }

  ghost predicate Blank(g: string) {
    forall c | c in g :: c in " \t\n\r"
  }

  /** Gaps are white space, and two words never touch. */
  ghost predicate Spaced(ts: seq<Token>, gaps: seq<string>) {
    && |gaps| == |ts| + 1
    && (forall i | 0 <= i < |gaps| :: Blank(gaps[i]))
    && (forall i {:trigger gaps[i]} | 0 < i < |ts| :: Word(ts[i - 1]) && Word(ts[i]) ==> gaps[i] != "")
  }

  ghost predicate AllPrintable(ts: seq<Token>) {
    forall i | 0 <= i < |ts| :: Printable(ts[i])
  }

  lemma RunEndIs(s: string, p: nat, q: nat, run: Run)
    requires Longest(s, p, q, run)
    ensures RunEnd(s, p, run) == q
  {
    RunIs(s, p, run);
  }

  /** The character does not prolong a number or a word. */
  ghost predicate EndsWord(c: char) {
    !Belongs(Digits, c) && !Belongs(Letters, c)
  }

  /** How the text of a token starts. */
  lemma PrintHead(t: Token)
    requires Printable(t)
    ensures Print(t) != "" && !Belongs(Spaces, Print(t)[0]) && Print(t)[0] != '\0'
    ensures !Word(t) ==> EndsWord(Print(t)[0])
  {
    if t.kind == Number {
      assert Print(t)[0] in t.literal.value;
      OneByOne(Print(t)[0]);
    }
  }

  /** `w` stands at position `p`. */
  ghost predicate Stands(s: string, p: nat, w: string) {
    p + |w| <= |s| && s[p..p + |w|] == w
  }

  lemma StandsAt(s: string, p: nat, w: string, i: nat)
    requires Stands(s, p, w) && i < |w|
    ensures s[p + i] == w[i]
  {
    assert s[p + i] == s[p..p + |w|][i];
  }

  /** The token printed at `p` is read back, and the cursor ends up right behind it. */
  lemma LexemeOf(s: string, p: nat, t: Token, junk: Junk)
    requires Printable(t) && Stands(s, p, Print(t))
    requires var q := p + |Print(t)|;
             Word(t) && q < |s| ==> EndsWord(s[q])
    ensures Lexeme(s, p, junk) == (t, p + |Print(t)|)
  {
    PrintHead(t);
    if t.kind == String {
      StringLexeme(s, p, t, junk);
    } else if t.kind == Number {
      NumberLexeme(s, p, t, junk);
    } else if Word(t) {
      WordLexeme(s, p, t, junk);
    } else {
      StandsAt(s, p, Print(t), 0);
    }
  }

  lemma StringLexeme(s: string, p: nat, t: Token, junk: Junk)
    requires Printable(t) && t.kind == String
    requires Stands(s, p, Print(t))
    ensures Lexeme(s, p, junk) == (t, p + |Print(t)|)
  {
    var w, text := Print(t), t.literal.value;
    StandsAt(s, p, w, 0);
    StandsAt(s, p, w, |w| - 1);
    forall i | 0 <= i < |text|
      ensures s[p + 1 + i] == text[i]
    {
      StandsAt(s, p, w, i + 1);
    }
    Quoted(s, p, text, junk);
  }

  lemma Quoted(s: string, p: nat, text: string, junk: Junk)
    requires p + |text| + 2 <= |s| && s[p] == '\"' && s[p + 1 + |text|] == '\"'
    requires forall i | 0 <= i < |text| :: s[p + 1 + i] == text[i]
    requires forall c | c in text :: c != '\0' && c != '\"'
    ensures Lexeme(s, p, junk) == (Token(String, Some(text)), p + |text| + 2)
  {
    var q := p + 1 + |text|;
    forall i | p + 1 <= i < q
      ensures Belongs(Text, s[i])
    {
      assert s[p + 1 + (i - p - 1)] == text[i - p - 1] && text[i - p - 1] in text;
    }
    RunEndIs(s, p + 1, q, Text);
    assert s[p + 1..q] == text;
  }

  lemma NumberLexeme(s: string, p: nat, t: Token, junk: Junk)
    requires Printable(t) && t.kind == Number
    requires Stands(s, p, Print(t))
    requires var q := p + |Print(t)|; q < |s| ==> !Belongs(Digits, s[q])
    ensures Lexeme(s, p, junk) == (t, p + |Print(t)|)
  {
    var w, q := Print(t), p + |Print(t)|;
    forall i | p <= i < q
      ensures Belongs(Digits, s[i])
    {
      StandsAt(s, p, w, i - p);
      assert w[i - p] in w;
      OneByOne(s[i]);
    }
    RunEndIs(s, p, q, Digits);
    Classes(Digits, s[p]);
  }

  lemma WordLexeme(s: string, p: nat, t: Token, junk: Junk)
    requires Printable(t) && (t.kind == True || t.kind == False || t.kind == Null)
    requires Stands(s, p, Print(t))
    requires var q := p + |Print(t)|; q < |s| ==> !Belongs(Letters, s[q])
    ensures Lexeme(s, p, junk) == (t, p + |Print(t)|)
  {
    var w, q := Print(t), p + |Print(t)|;
    forall i | p <= i < q
      ensures Belongs(Letters, s[i])
    {
      StandsAt(s, p, w, i - p);
    }
    RunEndIs(s, p, q, Letters);
    StandsAt(s, p, w, 0);
    assert t == Token(t.kind, None);
    assert !("false" <= "true") && !("null" <= "true") && !("null" <= "false") by {
      assert "false"[0] != "true"[0] && "null"[0] != "true"[0] && "null"[0] != "false"[0];
    }
    assert WordKind(w, junk(p)) == t.kind;
  }

  lemma StandsThere(s: string, p: nat, g: string, w: string, rest: string)
    requires p <= |s| && s[p..] == g + w + rest
    ensures Stands(s, p, g) && Stands(s, p + |g|, w) && s[p + |g| + |w|..] == rest
  {
    var u := s[p..];
    assert u[..|g|] == g && u[|g|..|g| + |w|] == w && u[|g| + |w|..] == rest;
    assert s[p..p + |g|] == u[..|g|];
    assert s[p + |g|..p + |g| + |w|] == u[|g|..|g| + |w|];
    assert s[p + |g| + |w|..] == u[|g| + |w|..];
  }

  /** A gap ends where the first other character stands. */
  lemma GapSkipped(s: string, p: nat, g: string)
    requires Stands(s, p, g) && Blank(g) && (p + |g| < |s| ==> !Belongs(Spaces, s[p + |g|]))
    ensures RunEnd(s, p, Spaces) == p + |g|
  {
    forall i | p <= i < p + |g|
      ensures Belongs(Spaces, s[i])
    {
      StandsAt(s, p, g, i - p);
      assert g[i - p] in g;
    }
    RunEndIs(s, p, p + |g|, Spaces);
  }

  /** A gap and a token: what is scanned first, and where the scanner is then. */
  lemma SpacedLexeme(s: string, p: nat, g: string, t: Token, junk: Junk)
    requires SpacedToken(s, p, g, t)
    ensures Lexeme(s, RunEnd(s, p, Spaces), junk) == (t, p + |g| + |Print(t)|) && t.kind != Eof
  {
    var start := p + |g|;
    GapBefore(s, p, g, t);
    assert Lexeme(s, start, junk) == (t, start + |Print(t)|) by {
      LexemeOf(s, start, t, junk);
    }
  }

  /** The gap ends where the token starts. */
  lemma GapBefore(s: string, p: nat, g: string, t: Token)
    requires Stands(s, p, g) && Blank(g) && Printable(t) && Stands(s, p + |g|, Print(t))
    ensures RunEnd(s, p, Spaces) == p + |g|
  {
    PrintHead(t);
    StandsAt(s, p + |g|, Print(t), 0);
    GapSkipped(s, p, g);
  }

  /** A gap, a token, and nothing behind it that would prolong it. */
  ghost predicate SpacedToken(s: string, p: nat, g: string, t: Token) {
    var q := p + |g| + |Print(t)|;
    && Stands(s, p, g) && Blank(g) && Printable(t) && Stands(s, p + |g|, Print(t))
    && (Word(t) && q < |s| ==> EndsWord(s[q]))
  }

  lemma FirstLexed(s: string, p: nat, g: string, t: Token, q: nat, junk: Junk)
    requires SpacedToken(s, p, g, t) && q == p + |g| + |Print(t)|
    ensures Lex(s, p, junk) == [t] + Lex(s, q, junk)
  {
    assert Lexeme(s, RunEnd(s, p, Spaces), junk) == (t, q) && t.kind != Eof by {
      SpacedLexeme(s, p, g, t, junk);
    }
    LexemeLexed(s, p, t, q, junk);
  }

  lemma LexemeLexed(s: string, p: nat, t: Token, q: nat, junk: Junk)
    requires Lexeme(s, RunEnd(s, p, Spaces), junk) == (t, q) && t.kind != Eof
    ensures Lex(s, p, junk) == [t] + Lex(s, q, junk)
  {
  }

  /** Where the gap before the `i`-th token starts. */
  ghost function Offset(ts: seq<Token>, gaps: seq<string>, i: nat): nat
    requires |gaps| == |ts| + 1 && i <= |ts|
  {
    if i == 0 then 0 else Offset(ts, gaps, i - 1) + |gaps[i - 1]| + |Print(ts[i - 1])|
  }

  lemma {:induction false} PrintedAt(ts: seq<Token>, gaps: seq<string>, i: nat)
    requires |gaps| == |ts| + 1 && i <= |ts|
    ensures var s, p := Printing(ts, gaps), Offset(ts, gaps, i);
            p <= |s| && s[p..] == PrintingFrom(ts, gaps, i)
  {
    if i == 0 {
      assert Printing(ts, gaps)[0..] == PrintingFrom(ts, gaps, 0);
    } else {
      PrintedAt(ts, gaps, i - 1);
      StandsThere(Printing(ts, gaps), Offset(ts, gaps, i - 1), gaps[i - 1], Print(ts[i - 1]),
                  PrintingFrom(ts, gaps, i));
    }
  }

  /** How the text goes on behind a word. */
  lemma BehindWord(ts: seq<Token>, gaps: seq<string>, i: nat)
    requires AllPrintable(ts) && Spaced(ts, gaps) && i < |ts| && Word(ts[i])
    ensures var rest := PrintingFrom(ts, gaps, i + 1);
            rest != "" ==> EndsWord(rest[0])
  {
    var g := gaps[i + 1];
    assert Blank(g);
    if g != "" {
      assert g[0] in g;
    } else if i + 1 < |ts| {
      PrintHead(ts[i + 1]);
    }
  }

  lemma TokenSpaced(ts: seq<Token>, gaps: seq<string>, i: nat)
    requires AllPrintable(ts) && Spaced(ts, gaps) && i < |ts|
    ensures SpacedToken(Printing(ts, gaps), Offset(ts, gaps, i), gaps[i], ts[i])
  {
    assert Blank(gaps[i]);
    PrintedAt(ts, gaps, i);
    if Word(ts[i]) {
      BehindWord(ts, gaps, i);
    }
    SpacedThere(Printing(ts, gaps), Offset(ts, gaps, i), gaps[i], ts[i], PrintingFrom(ts, gaps, i + 1));
  }

  lemma SpacedThere(s: string, p: nat, g: string, t: Token, rest: string)
    requires p <= |s| && s[p..] == g + Print(t) + rest && Blank(g) && Printable(t)
    requires Word(t) && rest != "" ==> EndsWord(rest[0])
    ensures SpacedToken(s, p, g, t)
  {
    StandsThere(s, p, g, Print(t), rest);
    var q := p + |g| + |Print(t)|;
    assert q < |s| ==> s[q] == s[q..][0];
  }

  lemma PrintNulFree(t: Token)
    requires Printable(t)
    ensures NulFree(Print(t))
  {
    var w := Print(t);
    forall i | 0 <= i < |w|
      ensures w[i] != '\0'
    {
      if t.kind == String {
        assert 0 < i < |w| - 1 ==> w[i] == t.literal.value[i - 1] && t.literal.value[i - 1] in t.literal.value;
      } else if t.kind == Number {
        assert w[i] in t.literal.value;
      }
    }
  }

  lemma {:induction false} PrintingNulFree(ts: seq<Token>, gaps: seq<string>, i: nat)
    requires AllPrintable(ts) && Spaced(ts, gaps) && i <= |ts|
    ensures NulFree(PrintingFrom(ts, gaps, i))
    decreases |ts| - i
  {
    assert Blank(gaps[i]);
    assert forall j | 0 <= j < |gaps[i]| :: gaps[i][j] in gaps[i];
    if i < |ts| {
      PrintNulFree(ts[i]);
      PrintingNulFree(ts, gaps, i + 1);
    }
  }

  /** From the `i`-th token on, scanning gives the tokens back, and the end of input. */
  lemma {:induction false} LexPrinting(ts: seq<Token>, gaps: seq<string>, i: nat, junk: Junk)
    requires AllPrintable(ts) && Spaced(ts, gaps) && i <= |ts| && NulFree(Printing(ts, gaps))
    ensures Lex(Printing(ts, gaps), Offset(ts, gaps, i), junk) == ts[i..] + [Token(Eof, None)]
    decreases |ts| - i
  {
    if i == |ts| {
      EndLexed(ts, gaps, junk);
    } else {
      TokenLexed(ts, gaps, i, junk);
      LexPrinting(ts, gaps, i + 1, junk);
      OneMore(ts, i, Token(Eof, None));
    }
  }

  lemma OneMore(ts: seq<Token>, i: nat, e: Token)
    requires i < |ts|
    ensures [ts[i]] + (ts[i + 1..] + [e]) == ts[i..] + [e]
  {
  }

  /** `parseTokens` inverts printing: scanning any spaced printing of a token list gives
      the list back, and the end of input. */
  lemma RoundTrip(ts: seq<Token>, gaps: seq<string>, junk: Junk)
    requires AllPrintable(ts) && Spaced(ts, gaps)
    ensures NulFree(Printing(ts, gaps))
    ensures Lex(Printing(ts, gaps), 0, junk) == ts + [Token(Eof, None)]
  {
    PrintingNulFree(ts, gaps, 0);
    LexPrinting(ts, gaps, 0, junk);
    assert ts[0..] == ts;
  }

  lemma TokenLexed(ts: seq<Token>, gaps: seq<string>, i: nat, junk: Junk)
    requires AllPrintable(ts) && Spaced(ts, gaps) && i < |ts| && NulFree(Printing(ts, gaps))
    ensures var s := Printing(ts, gaps);
            Lex(s, Offset(ts, gaps, i), junk) == [ts[i]] + Lex(s, Offset(ts, gaps, i + 1), junk)
  {
    TokenSpaced(ts, gaps, i);
    FirstLexed(Printing(ts, gaps), Offset(ts, gaps, i), gaps[i], ts[i], Offset(ts, gaps, i + 1), junk);
  }

  lemma EndLexed(ts: seq<Token>, gaps: seq<string>, junk: Junk)
    requires Spaced(ts, gaps)
    ensures Lex(Printing(ts, gaps), Offset(ts, gaps, |ts|), junk) == [Token(Eof, None)]
  {
    var s, p, g := Printing(ts, gaps), Offset(ts, gaps, |ts|), gaps[|ts|];
    PrintedAt(ts, gaps, |ts|);
    assert s[p..p + |g|] == s[p..];
    assert Blank(g);
    GapSkipped(s, p, g);
  }
}

/** Scanner and parser together. */
module JsonPipeline {
  import opened JsonTokens
  import opened JsonParser
  import opened JsonGrammar
  import opened JsonLexer
  import opened JsonLexing

  /** The strings and numbers of a value can be printed without escapes. */
  ghost predicate Writable(v: Json) {
    match v
    case JScalar(s) => Printable(Single(s))
    case JArray(es) => es.Some? ==> WritableElems(es.value)
    case JObject(ms) => ms.Some? ==> WritableMembers(ms.value)
  }

  ghost predicate WritableElems(es: Elems) {
    Writable(es.head) && (es.Elem? ==> WritableElems(es.tail))
  }

  ghost predicate WritableMembers(ms: Members) {
    (forall c | c in ms.key :: c != '\0' && c != '\"') && Writable(ms.head) && (ms.Member? ==> WritableMembers(ms.tail))
  }

  lemma {:induction false} TokensPrintable(v: Json)
    requires Writable(v)
    ensures AllPrintable(Tokens(v))
    decreases v, 0
  {
    match v
    case JScalar(_) =>
    case JArray(es) =>
      if es.Some? {
        ElemTokensPrintable(es.value);
      }
    case JObject(ms) =>
      if ms.Some? {
        MemberTokensPrintable(ms.value);
      }
  }

  lemma {:induction false} ElemTokensPrintable(es: Elems)
    requires WritableElems(es)
    ensures AllPrintable(ElemTokens(es))
    decreases es, 1
  {
    TokensPrintable(es.head);
    if es.Elem? {
      ElemTokensPrintable(es.tail);
    }
  }

  lemma {:induction false} MemberTokensPrintable(ms: Members)
    requires WritableMembers(ms)
    ensures AllPrintable(MemberTokens(ms))
    decreases ms, 1
  {
    TokensPrintable(ms.head);
    if ms.Member? {
      MemberTokensPrintable(ms.tail);
    }
  }

  /** From text to value: scanning and parsing any spaced text of an array or object. */
  lemma TextParsed(v: Json, gaps: seq<string>, junk: Junk)
    requires Writable(v) && Spaced(Tokens(v), gaps) && !v.JScalar?
    ensures NulFree(Printing(Tokens(v), gaps))
    ensures var ts := Lex(Printing(Tokens(v), gaps), 0, junk);
            && Terminated(ts)
            && (v.JArray? ==> ArrayAt(ts, 0) == Some(ParsedArray(v.elems)))
            && (v.JObject? ==> ObjectAt(ts, 0) == Some(ParsedObject(v.members)))
  {
    TokensPrintable(v);
    RoundTrip(Tokens(v), gaps, junk);
    var ts := Lex(Printing(Tokens(v), gaps), 0, junk);
    assert ts[0..|Tokens(v)|] == Tokens(v);
    if v.JArray? {
      ArrayParsed(ts, 0, v.elems);
    } else {
      ObjectParsed(ts, 0, v.members);
    }
  }

  /** And of the text of a value that breaks off somewhere between two of its tokens: NULL. */
  lemma TextCutOff(v: Json, j: nat, gaps: seq<string>, junk: Junk)
    requires Writable(v) && j < |Tokens(v)| && Spaced(Tokens(v)[..j], gaps)
    ensures NulFree(Printing(Tokens(v)[..j], gaps))
    ensures var ts := Lex(Printing(Tokens(v)[..j], gaps), 0, junk);
            Terminated(ts) && ArrayAt(ts, 0) == None && ObjectAt(ts, 0) == None
  {
    TokensPrintable(v);
    RoundTrip(Tokens(v)[..j], gaps, junk);
    CutOff(v, j);
  }

  /** `parseTokens` followed by `parseObject`, as `main` in the parser does. */
  method ParseObjectText(json: string, junk: Junk) returns (r: Option<seq<Property>>)
    requires NulFree(json)
    ensures Terminated(Lex(json, 0, junk)) && r == ObjectAt(Lex(json, 0, junk), 0)
  {
    var tokens, length := ParseTokens(json, junk);
    EofComesLast(json, 0, junk);
    r := ParseObject(tokens[..length], 0);
  }
}
