/** Value trees, their tokens, and what the builders make of them. */
module JsonGrammar {
  import opened JsonNesting
  import opened JsonParser
  import opened JsonTokens

  datatype Scalar = JString(text: string) | JNumber(text: string) | JTrue | JFalse | JNull

  datatype Json = JScalar(scalar: Scalar) | JArray(elems: Option<Elems>) | JObject(members: Option<Members>)

  datatype Elems = LastElem(head: Json) | Elem(head: Json, tail: Elems)

  datatype Members = LastMember(key: string, head: Json) | Member(key: string, head: Json, tail: Members)

  function Mark(k: Kind): Token {
    Token(k, None)
  }

  /** The one token of a value that is neither an array nor an object. */
  function Single(v: Scalar): Token {
    match v
    case JString(s) => Token(String, Some(s))
    case JNumber(s) => Token(Number, Some(s))
    case JTrue => Mark(True)
    case JFalse => Mark(False)
    case JNull => Mark(Null)
  }

  /** The token stream of a value (RFC 8259, sections 2 to 5). */
  function Tokens(v: Json): seq<Token> {
    match v
    case JScalar(s) => [Single(s)]
    case JArray(None) => [Mark(LeftBracket)] + [Mark(RightBracket)]
    case JArray(Some(es)) => [Mark(LeftBracket)] + (ElemTokens(es) + [Mark(RightBracket)])
    case JObject(None) => [Mark(LeftBrace)] + [Mark(RightBrace)]
    case JObject(Some(ms)) => [Mark(LeftBrace)] + (MemberTokens(ms) + [Mark(RightBrace)])
  }

  function ElemTokens(es: Elems): seq<Token> {
    match es
    case LastElem(h) => Tokens(h)
    case Elem(h, t) => Tokens(h) + ([Mark(Comma)] + ElemTokens(t))
  }

  function MemberTokens(ms: Members): seq<Token> {
    match ms
    case LastMember(k, h) => [Token(String, Some(k))] + ([Mark(Colon)] + Tokens(h))
    case Member(k, h, t) =>
      [Token(String, Some(k))] + ([Mark(Colon)] + (Tokens(h) + ([Mark(Comma)] + MemberTokens(t))))
  }

  /** `w` stands at position `i`, with at least one token behind it. */
  ghost predicate At(ts: seq<Token>, i: nat, w: seq<Token>) {
    i + |w| < |ts| && ts[i..i + |w|] == w
  }

  // ------------------------------------------------ a value, token by token

  /** The number of tokens of a value. */
  ghost function Width(v: Json): (r: nat)
    ensures r > 0
  {
    match v
    case JScalar(_) => 1
    case JArray(es) => if es.None? then 2 else ElemsWidth(es.value) + 2
    case JObject(ms) => if ms.None? then 2 else MembersWidth(ms.value) + 2
  }

  ghost function ElemsWidth(es: Elems): (r: nat)
    ensures r > 0
  {
    Width(es.head) + if es.LastElem? then 0 else 1 + ElemsWidth(es.tail)
  }

  ghost function MembersWidth(ms: Members): (r: nat)
    ensures r > 0
  {
    2 + Width(ms.head) + if ms.LastMember? then 0 else 1 + MembersWidth(ms.tail)
  }

  /** The tokens of a value stand from position `i` on. */
  ghost predicate Spelt(ts: seq<Token>, i: nat, v: Json)
    decreases v
  {
    match v
    case JScalar(s) => i < |ts| && ts[i] == Single(s)
    case JArray(es) => SpeltArray(ts, i, i + Width(v) - 1, es)
    case JObject(ms) => SpeltObject(ts, i, i + Width(v) - 1, ms)
  }

  /** The tokens of an array stand from position `i` up to `last`. */
  ghost predicate SpeltArray(ts: seq<Token>, i: nat, last: nat, es: Option<Elems>)
    decreases es
  {
    && i < last < |ts| && ts[i].kind == LeftBracket && ts[last].kind == RightBracket
    && if es.None? then last == i + 1
       else last == i + 1 + ElemsWidth(es.value) && SpeltElems(ts, i + 1, es.value)
  }

  ghost predicate SpeltObject(ts: seq<Token>, i: nat, last: nat, ms: Option<Members>)
    decreases ms
  {
    && i < last < |ts| && ts[i].kind == LeftBrace && ts[last].kind == RightBrace
    && if ms.None? then last == i + 1
       else last == i + 1 + MembersWidth(ms.value) && SpeltMembers(ts, i + 1, ms.value)
  }

  ghost predicate SpeltElems(ts: seq<Token>, i: nat, es: Elems)
    decreases es
  {
    && Spelt(ts, i, es.head)
    && (es.Elem? ==>
          var c := i + Width(es.head);
          c < |ts| && ts[c].kind == Comma && SpeltElems(ts, c + 1, es.tail))
  }

  ghost predicate SpeltMembers(ts: seq<Token>, i: nat, ms: Members)
    decreases ms
  {
    && i + 2 < |ts| && ts[i] == Token(String, Some(ms.key)) && ts[i + 1].kind == Colon && Spelt(ts, i + 2, ms.head)
    && (ms.Member? ==>
          var c := i + 2 + Width(ms.head);
          c < |ts| && ts[c].kind == Comma && SpeltMembers(ts, c + 1, ms.tail))
  }

  lemma AtParts(ts: seq<Token>, i: nat, u: seq<Token>, w: seq<Token>)
    requires At(ts, i, u + w)
    ensures At(ts, i, u) && At(ts, i + |u|, w)
  {
    assert ts[i..i + |u|] == (u + w)[..|u|];
    assert ts[i + |u|..i + |u| + |w|] == (u + w)[|u|..];
  }

  lemma AtToken(ts: seq<Token>, i: nat, x: Token, w: seq<Token>)
    requires At(ts, i, [x] + w)
    ensures ts[i] == x && At(ts, i + 1, w)
  {
    AtParts(ts, i, [x], w);
    assert ts[i] == ts[i..i + 1][0];
  }

  lemma AtComma(ts: seq<Token>, i: nat, c: nat, u: seq<Token>, w: seq<Token>)
    requires At(ts, i, u + ([Mark(Comma)] + w)) && c == i + |u|
    ensures At(ts, i, u) && c < |ts| && ts[c].kind == Comma && At(ts, c + 1, w)
  {
    AtParts(ts, i, u, [Mark(Comma)] + w);
    AtToken(ts, c, Mark(Comma), w);
  }

  lemma AtKey(ts: seq<Token>, i: nat, key: Token, w: seq<Token>)
    requires At(ts, i, [key] + ([Mark(Colon)] + w))
    ensures ts[i] == key && ts[i + 1].kind == Colon && At(ts, i + 2, w)
  {
    AtToken(ts, i, key, [Mark(Colon)] + w);
    AtToken(ts, i + 1, Mark(Colon), w);
  }

  /** A member with another behind it. */
  lemma AtMember(ts: seq<Token>, i: nat, c: nat, key: Token, u: seq<Token>, w: seq<Token>)
    requires At(ts, i, [key] + ([Mark(Colon)] + (u + ([Mark(Comma)] + w)))) && c == i + 2 + |u|
    ensures c < |ts| && ts[i] == key && ts[i + 1].kind == Colon && ts[c].kind == Comma
    ensures At(ts, i + 2, u) && At(ts, c + 1, w)
  {
    AtKey(ts, i, key, u + ([Mark(Comma)] + w));
    AtComma(ts, i + 2, c, u, w);
  }

  /** Where the token stream of a value stands, it is spelt token by token. */
  lemma {:induction false} TokensSpelt(ts: seq<Token>, i: nat, v: Json)
    requires At(ts, i, Tokens(v))
    ensures |Tokens(v)| == Width(v) && Spelt(ts, i, v)
    decreases v, 0
  {
    match v
    case JScalar(s) => AtToken(ts, i, Single(s), []);
    case JArray(es) => ArrayTokensSpelt(ts, i, es);
    case JObject(ms) => ObjectTokensSpelt(ts, i, ms);
  }

  lemma {:induction false} ArrayTokensSpelt(ts: seq<Token>, i: nat, es: Option<Elems>)
    requires At(ts, i, Tokens(JArray(es)))
    ensures |Tokens(JArray(es))| == Width(JArray(es)) && SpeltArray(ts, i, i + Width(JArray(es)) - 1, es)
    decreases es, 1
  {
    match es
    case None =>
      AtToken(ts, i, Mark(LeftBracket), [Mark(RightBracket)]);
      AtToken(ts, i + 1, Mark(RightBracket), []);
    case Some(elems) =>
      AtToken(ts, i, Mark(LeftBracket), ElemTokens(elems) + [Mark(RightBracket)]);
      AtParts(ts, i + 1, ElemTokens(elems), [Mark(RightBracket)]);
      AtToken(ts, i + 1 + |ElemTokens(elems)|, Mark(RightBracket), []);
      ElemTokensSpelt(ts, i + 1, elems);
  }

  lemma {:induction false} ObjectTokensSpelt(ts: seq<Token>, i: nat, ms: Option<Members>)
    requires At(ts, i, Tokens(JObject(ms)))
    ensures |Tokens(JObject(ms))| == Width(JObject(ms)) && SpeltObject(ts, i, i + Width(JObject(ms)) - 1, ms)
    decreases ms, 1
  {
    match ms
    case None =>
      AtToken(ts, i, Mark(LeftBrace), [Mark(RightBrace)]);
      AtToken(ts, i + 1, Mark(RightBrace), []);
    case Some(members) =>
      AtToken(ts, i, Mark(LeftBrace), MemberTokens(members) + [Mark(RightBrace)]);
      AtParts(ts, i + 1, MemberTokens(members), [Mark(RightBrace)]);
      AtToken(ts, i + 1 + |MemberTokens(members)|, Mark(RightBrace), []);
      MemberTokensSpelt(ts, i + 1, members);
  }

  lemma {:induction false} ElemTokensSpelt(ts: seq<Token>, i: nat, es: Elems)
    requires At(ts, i, ElemTokens(es))
    ensures |ElemTokens(es)| == ElemsWidth(es) && SpeltElems(ts, i, es)
    decreases es, 1
  {
    match es
    case LastElem(h) => TokensSpelt(ts, i, h);
    case Elem(h, t) =>
      var c := i + |Tokens(h)|;
      AtComma(ts, i, c, Tokens(h), ElemTokens(t));
      TokensSpelt(ts, i, h);
      ElemTokensSpelt(ts, c + 1, t);
  }

  lemma {:induction false} MemberTokensSpelt(ts: seq<Token>, i: nat, ms: Members)
    requires At(ts, i, MemberTokens(ms))
    ensures |MemberTokens(ms)| == MembersWidth(ms) && SpeltMembers(ts, i, ms)
    decreases ms, 1
  {
    match ms
    case LastMember(k, h) =>
      AtKey(ts, i, Token(String, Some(k)), Tokens(h));
      TokensSpelt(ts, i + 2, h);
    case Member(k, h, t) =>
      var c := i + 2 + |Tokens(h)|;
      AtMember(ts, i, c, Token(String, Some(k)), Tokens(h), MemberTokens(t));
      TokensSpelt(ts, i + 2, h);
      MemberTokensSpelt(ts, c + 1, t);
      SpeltFurther(ts, i, c, ms);
  }

  lemma SpeltFurther(ts: seq<Token>, i: nat, c: nat, ms: Members)
    requires ms.Member? && c == i + 2 + Width(ms.head) < |ts| && Spelt(ts, i + 2, ms.head)
    requires ts[i] == Token(String, Some(ms.key)) && ts[i + 1].kind == Colon && ts[c].kind == Comma
    requires SpeltMembers(ts, c + 1, ms.tail)
    ensures SpeltMembers(ts, i, ms)
  {
  }

  /** Neither a bracket nor the end of input. */
  ghost predicate Plain(k: Kind) {
    k !in {LeftBrace, RightBrace, LeftBracket, RightBracket, Eof}
  }

  // ------------------------------------------------- the stack over a value

  lemma StackPlain(ts: seq<Token>, i: nat, stack: seq<Kind>)
    requires Terminated(ts) && i < |ts| && Plain(ts[i].kind) && stack != []
    ensures i + 1 < |ts| && StackScan(ts, i, stack) == StackScan(ts, i + 1, stack)
  {
  }

  /** A key and its colon. */
  lemma StackKey(ts: seq<Token>, i: nat, stack: seq<Kind>)
    requires Terminated(ts) && i + 1 < |ts| && ts[i].kind == String && ts[i + 1].kind == Colon && stack != []
    ensures i + 2 < |ts| && StackScan(ts, i, stack) == StackScan(ts, i + 2, stack)
  {
    StackPlain(ts, i, stack);
    StackPlain(ts, i + 1, stack);
  }

  lemma StackPush(ts: seq<Token>, i: nat, stack: seq<Kind>, close: Kind)
    requires Terminated(ts) && i < |ts| && Closer(ts[i].kind) == Some(close) && stack != []
    ensures i + 1 < |ts| && StackScan(ts, i, stack) == StackScan(ts, i + 1, stack + [close])
  {
  }

  /** A closing token with its closer on top of others. */
  lemma StackPop(ts: seq<Token>, i: nat, stack: seq<Kind>, above: seq<Kind>)
    requires Terminated(ts) && i < |ts| && stack != [] && above == stack + [ts[i].kind]
    requires ts[i].kind == RightBrace || ts[i].kind == RightBracket
    ensures i + 1 < |ts| && StackScan(ts, i, above) == StackScan(ts, i + 1, stack)
  {
    assert above[..|above| - 1] == stack;
  }

  /** A value leaves the stack as it found it. */
  lemma {:induction false} StackOver(ts: seq<Token>, i: nat, end: nat, stack: seq<Kind>, v: Json)
    requires Terminated(ts) && Spelt(ts, i, v) && end == i + Width(v) && stack != []
    ensures end < |ts| && StackScan(ts, i, stack) == StackScan(ts, end, stack)
    decreases v, 0
  {
    match v
    case JScalar(_) => StackPlain(ts, i, stack);
    case JArray(es) => StackArray(ts, i, end - 1, stack, es);
    case JObject(ms) => StackObject(ts, i, end - 1, stack, ms);
  }

  lemma {:induction false} StackArray(ts: seq<Token>, i: nat, last: nat, stack: seq<Kind>, es: Option<Elems>)
    requires Terminated(ts) && SpeltArray(ts, i, last, es) && stack != []
    ensures last + 1 < |ts| && StackScan(ts, i, stack) == StackScan(ts, last + 1, stack)
    decreases es, 2
  {
    StackPush(ts, i, stack, RightBracket);
    if es.Some? {
      StackElems(ts, i + 1, last, stack + [RightBracket], es.value);
    }
    StackPop(ts, last, stack, stack + [RightBracket]);
  }

  lemma {:induction false} StackObject(ts: seq<Token>, i: nat, last: nat, stack: seq<Kind>, ms: Option<Members>)
    requires Terminated(ts) && SpeltObject(ts, i, last, ms) && stack != []
    ensures last + 1 < |ts| && StackScan(ts, i, stack) == StackScan(ts, last + 1, stack)
    decreases ms, 2
  {
    StackPush(ts, i, stack, RightBrace);
    if ms.Some? {
      StackMembers(ts, i + 1, last, stack + [RightBrace], ms.value);
    }
    StackPop(ts, last, stack, stack + [RightBrace]);
  }

  lemma {:induction false} StackElems(ts: seq<Token>, i: nat, end: nat, stack: seq<Kind>, es: Elems)
    requires Terminated(ts) && SpeltElems(ts, i, es) && end == i + ElemsWidth(es) && stack != []
    ensures end < |ts| && StackScan(ts, i, stack) == StackScan(ts, end, stack)
    decreases es, 1
  {
    var c := i + Width(es.head);
    StackOver(ts, i, c, stack, es.head);
    if es.Elem? {
      StackPlain(ts, c, stack);
      StackElems(ts, c + 1, end, stack, es.tail);
    }
  }

  lemma {:induction false} StackMembers(ts: seq<Token>, i: nat, end: nat, stack: seq<Kind>, ms: Members)
    requires Terminated(ts) && SpeltMembers(ts, i, ms) && end == i + MembersWidth(ms) && stack != []
    ensures end < |ts| && StackScan(ts, i, stack) == StackScan(ts, end, stack)
    decreases ms, 1
  {
    var c := i + 2 + Width(ms.head);
    StackKey(ts, i, stack);
    StackOver(ts, i + 2, c, stack, ms.head);
    if ms.Member? {
      StackPlain(ts, c, stack);
      StackMembers(ts, c + 1, end, stack, ms.tail);
    }
  }

  /** The tokens of an array or object are a well-nested group. */
  lemma ArrayNested(ts: seq<Token>, i: nat, last: nat, es: Option<Elems>)
    requires Terminated(ts) && SpeltArray(ts, i, last, es)
    ensures Nested(ts, i, last)
  {
    if es.Some? {
      StackElems(ts, i + 1, last, [RightBracket], es.value);
    }
    ClosedLast(ts, i, last, RightBracket);
  }

  lemma ObjectNested(ts: seq<Token>, i: nat, last: nat, ms: Option<Members>)
    requires Terminated(ts) && SpeltObject(ts, i, last, ms)
    ensures Nested(ts, i, last)
  {
    if ms.Some? {
      StackMembers(ts, i + 1, last, [RightBrace], ms.value);
    }
    ClosedLast(ts, i, last, RightBrace);
  }

  lemma ClosedLast(ts: seq<Token>, i: nat, last: nat, close: Kind)
    requires Terminated(ts) && i < last < |ts| && Closer(ts[i].kind) == Some(close) && ts[last].kind == close
    requires StackScan(ts, i + 1, [close]) == StackScan(ts, last, [close])
    ensures Nested(ts, i, last)
  {
    assert StackScan(ts, last, [close]) == last;
  }

  /** So what holds for well-nested groups holds for values: the matcher finds the last
      token, for one. */
  lemma ValueNested(ts: seq<Token>, i: nat, v: Json)
    requires Terminated(ts) && At(ts, i, Tokens(v)) && !v.JScalar?
    ensures var end := i + |Tokens(v)| - 1; end > i && Nested(ts, i, end) && Enclosing(ts, i) == end
  {
    var end := i + Width(v) - 1;
    TokensSpelt(ts, i, v);
    if v.JArray? {
      ArrayNested(ts, i, end, v.elems);
    } else {
      ObjectNested(ts, i, end, v.members);
    }
    MatcherCorrect(ts, i, end);
  }

  // ------------------------------------------ finding the commas of a value

  lemma UnhiddenPlain(ts: seq<Token>, i: nat, limit: int, b: int, k: int)
    requires limit <= |ts| && i < limit && Plain(ts[i].kind)
    ensures if b <= 0 && k <= 0 && ts[i].kind == Comma
            then Unhidden(ts, i, limit, b, k) == [i] + Unhidden(ts, i + 1, limit, b, k)
            else Unhidden(ts, i, limit, b, k) == Unhidden(ts, i + 1, limit, b, k)
  {
  }

  /** A key and its colon. */
  lemma UnhiddenKey(ts: seq<Token>, i: nat, limit: int, b: int, k: int)
    requires limit <= |ts| && i + 1 < limit && ts[i].kind == String && ts[i + 1].kind == Colon
    ensures Unhidden(ts, i, limit, b, k) == Unhidden(ts, i + 2, limit, b, k)
  {
    UnhiddenPlain(ts, i, limit, b, k);
    UnhiddenPlain(ts, i + 1, limit, b, k);
  }

  /** Both brackets of a group, seen with one more open bracket inside. */
  lemma UnhiddenArray(ts: seq<Token>, i: nat, end: nat, limit: int, b: nat, k: nat)
    requires i < end < limit <= |ts| && ts[i].kind == LeftBracket && ts[end].kind == RightBracket
    ensures Unhidden(ts, i, limit, b, k) == Unhidden(ts, i + 1, limit, b, k + 1)
    ensures Unhidden(ts, end, limit, b, k + 1) == Unhidden(ts, end + 1, limit, b, k)
  {
  }

  lemma UnhiddenObject(ts: seq<Token>, i: nat, end: nat, limit: int, b: nat, k: nat)
    requires i < end < limit <= |ts| && ts[i].kind == LeftBrace && ts[end].kind == RightBrace
    ensures Unhidden(ts, i, limit, b, k) == Unhidden(ts, i + 1, limit, b + 1, k)
    ensures Unhidden(ts, end, limit, b + 1, k) == Unhidden(ts, end + 1, limit, b, k)
  {
  }

  /** Nothing inside a value is a comma of the surrounding level. */
  lemma {:induction false} UnhiddenOver(ts: seq<Token>, i: nat, end: nat, limit: nat, b: nat, k: nat, v: Json)
    requires Spelt(ts, i, v) && end == i + Width(v) <= limit <= |ts|
    ensures Unhidden(ts, i, limit, b, k) == Unhidden(ts, end, limit, b, k)
    decreases v, 0
  {
    match v
    case JScalar(_) => UnhiddenPlain(ts, i, limit, b, k);
    case JArray(es) =>
      UnhiddenArray(ts, i, end - 1, limit, b, k);
      UnhiddenInArray(ts, i, end - 1, limit, b, k + 1, es);
    case JObject(ms) =>
      UnhiddenObject(ts, i, end - 1, limit, b, k);
      UnhiddenInObject(ts, i, end - 1, limit, b + 1, k, ms);
  }

  /** Inside brackets every comma is hidden. */
  lemma {:induction false} UnhiddenInArray(ts: seq<Token>, i: nat, last: nat, limit: nat, b: nat, k: nat,
                                           es: Option<Elems>)
    requires SpeltArray(ts, i, last, es) && last <= limit <= |ts| && b + k > 0
    ensures Unhidden(ts, i + 1, limit, b, k) == Unhidden(ts, last, limit, b, k)
    decreases es, 2
  {
    if es.Some? {
      UnhiddenElems(ts, i + 1, last, limit, b, k, es.value);
    }
  }

  lemma {:induction false} UnhiddenInObject(ts: seq<Token>, i: nat, last: nat, limit: nat, b: nat, k: nat,
                                            ms: Option<Members>)
    requires SpeltObject(ts, i, last, ms) && last <= limit <= |ts| && b + k > 0
    ensures Unhidden(ts, i + 1, limit, b, k) == Unhidden(ts, last, limit, b, k)
    decreases ms, 2
  {
    if ms.Some? {
      UnhiddenMembers(ts, i + 1, last, limit, b, k, ms.value);
    }
  }

  lemma {:induction false} UnhiddenElems(ts: seq<Token>, i: nat, end: nat, limit: nat, b: nat, k: nat, es: Elems)
    requires SpeltElems(ts, i, es) && end == i + ElemsWidth(es) <= limit <= |ts| && b + k > 0
    ensures Unhidden(ts, i, limit, b, k) == Unhidden(ts, end, limit, b, k)
    decreases es, 1
  {
    var c := i + Width(es.head);
    UnhiddenOver(ts, i, c, limit, b, k, es.head);
    if es.Elem? {
      UnhiddenPlain(ts, c, limit, b, k);
      UnhiddenElems(ts, c + 1, end, limit, b, k, es.tail);
    }
  }

  lemma {:induction false} UnhiddenMembers(ts: seq<Token>, i: nat, end: nat, limit: nat, b: nat, k: nat, ms: Members)
    requires SpeltMembers(ts, i, ms) && end == i + MembersWidth(ms) <= limit <= |ts| && b + k > 0
    ensures Unhidden(ts, i, limit, b, k) == Unhidden(ts, end, limit, b, k)
    decreases ms, 1
  {
    var c := i + 2 + Width(ms.head);
    UnhiddenKey(ts, i, limit, b, k);
    UnhiddenOver(ts, i + 2, c, limit, b, k, ms.head);
    if ms.Member? {
      UnhiddenPlain(ts, c, limit, b, k);
      UnhiddenMembers(ts, c + 1, end, limit, b, k, ms.tail);
    }
  }

  /** The last value before the closing token is scanned without its own last token. */
  lemma UnhiddenLast(ts: seq<Token>, i: nat, limit: nat, v: Json)
    requires Spelt(ts, i, v) && limit + 1 == i + Width(v) <= |ts|
    ensures Unhidden(ts, i, limit, 0, 0) == []
  {
    if v.JArray? {
      UnhiddenInArray(ts, i, limit, limit, 0, 1, v.elems);
    } else if v.JObject? {
      UnhiddenInObject(ts, i, limit, limit, 1, 0, v.members);
    }
  }

  /** A value of the group's own level and the comma behind it. */
  lemma UnhiddenUpTo(ts: seq<Token>, i: nat, c: nat, limit: nat, v: Json)
    requires Spelt(ts, i, v) && c == i + Width(v) < limit <= |ts| && ts[c].kind == Comma
    ensures Unhidden(ts, i, limit, 0, 0) == [c] + Unhidden(ts, c + 1, limit, 0, 0)
  {
    UnhiddenOver(ts, i, c, limit, 0, 0, v);
    UnhiddenPlain(ts, c, limit, 0, 0);
  }

  /** The same behind a key. */
  lemma UnhiddenLastMember(ts: seq<Token>, i: nat, limit: nat, v: Json)
    requires Spelt(ts, i + 2, v) && limit + 1 == i + 2 + Width(v) <= |ts|
    requires ts[i].kind == String && ts[i + 1].kind == Colon
    ensures Unhidden(ts, i, limit, 0, 0) == []
  {
    UnhiddenKey(ts, i, limit, 0, 0);
    UnhiddenLast(ts, i + 2, limit, v);
  }

  lemma UnhiddenUpToMember(ts: seq<Token>, i: nat, c: nat, limit: nat, v: Json)
    requires Spelt(ts, i + 2, v) && c == i + 2 + Width(v) < limit <= |ts|
    requires ts[i].kind == String && ts[i + 1].kind == Colon && ts[c].kind == Comma
    ensures Unhidden(ts, i, limit, 0, 0) == [c] + Unhidden(ts, c + 1, limit, 0, 0)
  {
    UnhiddenKey(ts, i, limit, 0, 0);
    UnhiddenUpTo(ts, i + 2, c, limit, v);
  }

  /** The positions of the commas between the elements written from `i` on. */
  ghost function ElemCommas(es: Elems, i: nat): seq<nat> {
    match es
    case LastElem(_) => []
    case Elem(h, t) =>
      var c := i + Width(h);
      [c] + ElemCommas(t, c + 1)
  }

  ghost function MemberCommas(ms: Members, i: nat): seq<nat> {
    match ms
    case LastMember(_, _) => []
    case Member(_, h, t) =>
      var c := i + 2 + Width(h);
      [c] + MemberCommas(t, c + 1)
  }

  lemma {:induction false} ElemCommasFound(ts: seq<Token>, i: nat, limit: nat, es: Elems)
    requires SpeltElems(ts, i, es) && limit + 1 == i + ElemsWidth(es) <= |ts|
    ensures Unhidden(ts, i, limit, 0, 0) == ElemCommas(es, i)
    decreases es
  {
    match es
    case LastElem(h) => UnhiddenLast(ts, i, limit, h);
    case Elem(h, t) =>
      var c := i + Width(h);
      UnhiddenUpTo(ts, i, c, limit, h);
      ElemCommasFound(ts, c + 1, limit, t);
  }

  lemma {:induction false} MemberCommasFound(ts: seq<Token>, i: nat, limit: nat, ms: Members)
    requires SpeltMembers(ts, i, ms) && limit + 1 == i + MembersWidth(ms) <= |ts|
    ensures Unhidden(ts, i, limit, 0, 0) == MemberCommas(ms, i)
    decreases ms
  {
    match ms
    case LastMember(_, h) => UnhiddenLastMember(ts, i, limit, h);
    case Member(_, h, t) =>
      var c := i + 2 + Width(h);
      UnhiddenUpToMember(ts, i, c, limit, h);
      MemberCommasFound(ts, c + 1, limit, t);
  }

  // ------------------------------------------------ what the builders return

  /** Every container comes back without its last member, and an object that is an
      element of an array comes back as an unwritten value. */
  ghost function ParsedElems(es: Elems): seq<Value> {
    if es.LastElem? then []
    else [if es.head.JObject? then Indeterminate else ParsedValue(es.head)] + ParsedElems(es.tail)
  }

  ghost function ParsedMembers(ms: Members): seq<Property> {
    if ms.LastMember? then []
    else [Property(Some(ms.key), ParsedValue(ms.head))] + ParsedMembers(ms.tail)
  }

  ghost function ParsedArray(es: Option<Elems>): seq<Value> {
    if es.None? then [] else ParsedElems(es.value)
  }

  ghost function ParsedObject(ms: Option<Members>): seq<Property> {
    if ms.None? then [] else ParsedMembers(ms.value)
  }

  ghost function ParsedValue(v: Json): Value {
    match v
    case JScalar(s) => ScalarValue(s)
    case JArray(es) => ArrayValue(Some(ParsedArray(es)))
    case JObject(ms) => ObjectValue(Some(ParsedObject(ms)))
  }

  ghost function ScalarValue(s: Scalar): Value {
    match s
    case JString(text) => StringValue(Some(text))
    case JNumber(text) => NumberValue(Some(text))
    case JTrue => BooleanValue(true)
    case JFalse => BooleanValue(false)
    case JNull => NullValue
  }

  /** `parseArray` at the tokens of an array. */
  lemma ArrayParsed(ts: seq<Token>, i: nat, es: Option<Elems>)
    requires Terminated(ts) && At(ts, i, Tokens(JArray(es)))
    ensures ArrayAt(ts, i) == Some(ParsedArray(es))
  {
    ArrayTokensSpelt(ts, i, es);
    SpeltArrayParsed(ts, i, i + Width(JArray(es)) - 1, es);
  }

  /** `parseObject` at the tokens of an object. */
  lemma ObjectParsed(ts: seq<Token>, i: nat, ms: Option<Members>)
    requires Terminated(ts) && At(ts, i, Tokens(JObject(ms)))
    ensures ObjectAt(ts, i) == Some(ParsedObject(ms))
  {
    ObjectTokensSpelt(ts, i, ms);
    SpeltObjectParsed(ts, i, i + Width(JObject(ms)) - 1, ms);
  }

  /** The first `j` tokens of a value, and the end of input. */
  ghost function Cut(v: Json, j: nat): seq<Token>
    requires j <= |Tokens(v)|
  {
    Tokens(v)[..j] + [Token(Eof, None)]
  }

  /** The tokens of a value cut off anywhere: both builders return NULL. */
  lemma CutOff(v: Json, j: nat)
    requires j < |Tokens(v)|
    ensures Terminated(Cut(v, j)) && ArrayAt(Cut(v, j), 0) == None && ObjectAt(Cut(v, j), 0) == None
  {
    var ts, cut := Tokens(v) + [Token(Eof, None)], Cut(v, j);
    if j > 0 && !v.JScalar? {
      assert ts[0..|Tokens(v)|] == Tokens(v);
      ValueNested(ts, 0, v);
      assert cut == ts[..j] + [Token(Eof, None)] && cut[0] == ts[0];
      ScanCut(ts, cut, 1, j, Closer(ts[0].kind).value, 0, 0);
    }
  }

  lemma {:induction false} SpeltArrayParsed(ts: seq<Token>, i: nat, last: nat, es: Option<Elems>)
    requires Terminated(ts) && SpeltArray(ts, i, last, es)
    ensures ArrayAt(ts, i) == Some(ParsedArray(es))
    decreases es, 2
  {
    ArrayNested(ts, i, last, es);
    MatcherCorrect(ts, i, last);
    if es.None? {
      ArrayFrom(ts, i, last, []);
    } else {
      ElemCommasFound(ts, i + 1, last - 1, es.value);
      ArrayFrom(ts, i, last, ElemCommas(es.value, i + 1));
      ElementsParsed(ts, i, es.value);
    }
  }

  lemma {:induction false} SpeltObjectParsed(ts: seq<Token>, i: nat, last: nat, ms: Option<Members>)
    requires Terminated(ts) && SpeltObject(ts, i, last, ms)
    ensures ObjectAt(ts, i) == Some(ParsedObject(ms))
    decreases ms, 2
  {
    ObjectNested(ts, i, last, ms);
    MatcherCorrect(ts, i, last);
    if ms.None? {
      ObjectFrom(ts, i, last, []);
    } else {
      MemberCommasFound(ts, i + 1, last - 1, ms.value);
      ObjectFrom(ts, i, last, MemberCommas(ms.value, i + 1));
      PropertiesParsed(ts, i, ms.value);
    }
  }

  lemma ArrayFrom(ts: seq<Token>, i: nat, last: nat, ps: seq<nat>)
    requires Terminated(ts) && i < |ts| && ts[i].kind == LeftBracket
    requires Enclosing(ts, i) == last && Unhidden(ts, i + 1, last - 1, 0, 0) == ps
    ensures Placed(ts, i, ps) && ArrayAt(ts, i) == Some(ElementsAt(ts, i, ps))
  {
    SeparatorsAscending(ts, i, last);
  }

  lemma ObjectFrom(ts: seq<Token>, i: nat, last: nat, ps: seq<nat>)
    requires Terminated(ts) && i < |ts| && ts[i].kind == LeftBrace
    requires Enclosing(ts, i) == last && Unhidden(ts, i + 1, last - 1, 0, 0) == ps
    ensures Placed(ts, i, ps) && ObjectAt(ts, i) == Some(PropertiesAt(ts, i, ps))
  {
    SeparatorsAscending(ts, i, last);
  }

  lemma {:induction false} ElementsParsed(ts: seq<Token>, i: nat, es: Elems)
    requires Terminated(ts) && SpeltElems(ts, i + 1, es)
    requires Placed(ts, i, ElemCommas(es, i + 1))
    ensures ElementsAt(ts, i, ElemCommas(es, i + 1)) == ParsedElems(es)
    decreases es, 1
  {
    if es.Elem? {
      var ps, next := ElemCommas(es, i + 1), i + 1 + Width(es.head);
      assert ps[0] == next && ps[1..] == ElemCommas(es.tail, next + 1);
      ElementParsed(ts, i, es.head);
      ElementsParsed(ts, next, es.tail);
    }
  }

  /** An element with a comma behind it. */
  lemma {:induction false} ElementParsed(ts: seq<Token>, i: nat, v: Json)
    requires Terminated(ts) && i < |ts| - 3 && Spelt(ts, i + 1, v)
    requires i + 1 + Width(v) < |ts| && ts[i + 1 + Width(v)].kind == Comma
    ensures ElementAt(ts, i) == if v.JObject? then Indeterminate else ParsedValue(v)
    decreases v, 0
  {
    match v
    case JScalar(s) => ElementSingle(ts, i, s);
    case JArray(es) => SpeltArrayParsed(ts, i + 1, i + Width(v), es);
    case JObject(ms) => ElementObject(ts, i, i + Width(v), ms);
  }

  lemma ElementSingle(ts: seq<Token>, i: nat, s: Scalar)
    requires Terminated(ts) && i < |ts| - 3 && ts[i + 1] == Single(s) && ts[i + 2].kind == Comma
    ensures ElementAt(ts, i) == ScalarValue(s)
  {
  }

  /** An object does not begin with two braces, so its place is not written. */
  lemma ElementObject(ts: seq<Token>, i: nat, last: nat, ms: Option<Members>)
    requires Terminated(ts) && i < |ts| - 3 && SpeltObject(ts, i + 1, last, ms)
    ensures ElementAt(ts, i) == Indeterminate
  {
  }

  lemma {:induction false} PropertiesParsed(ts: seq<Token>, i: nat, ms: Members)
    requires Terminated(ts) && SpeltMembers(ts, i + 1, ms)
    requires Placed(ts, i, MemberCommas(ms, i + 1))
    ensures PropertiesAt(ts, i, MemberCommas(ms, i + 1)) == ParsedMembers(ms)
    decreases ms, 1
  {
    if ms.Member? {
      var ps, next := MemberCommas(ms, i + 1), i + 3 + Width(ms.head);
      assert ps[0] == next && ps[1..] == MemberCommas(ms.tail, next + 1);
      PropertyParsed(ts, i, ms.key, ms.head);
      PropertiesParsed(ts, next, ms.tail);
    }
  }

  lemma {:induction false} PropertyParsed(ts: seq<Token>, i: nat, key: string, v: Json)
    requires Terminated(ts) && i < |ts| - 3 && Spelt(ts, i + 3, v)
    requires ts[i + 1] == Token(String, Some(key))
    ensures PropertyAt(ts, i) == Property(Some(key), ParsedValue(v))
    decreases v, 0
  {
    match v
    case JScalar(s) =>
    case JArray(es) => SpeltArrayParsed(ts, i + 3, i + 2 + Width(v), es);
    case JObject(ms) => SpeltObjectParsed(ts, i + 3, i + 2 + Width(v), ms);
  }

  // -------------------------------------------- how far that is from the value

  /** The whole value, as the design intends it. */
  ghost function WholeElems(es: Elems): seq<Value> {
    [WholeValue(es.head)] + if es.LastElem? then [] else WholeElems(es.tail)
  }

  ghost function WholeMembers(ms: Members): seq<Property> {
    [Property(Some(ms.key), WholeValue(ms.head))] + if ms.LastMember? then [] else WholeMembers(ms.tail)
  }

  ghost function WholeArray(es: Option<Elems>): seq<Value> {
    if es.None? then [] else WholeElems(es.value)
  }

  ghost function WholeObject(ms: Option<Members>): seq<Property> {
    if ms.None? then [] else WholeMembers(ms.value)
  }

  ghost function WholeValue(v: Json): Value {
    match v
    case JScalar(s) => ScalarValue(s)
    case JArray(es) => ArrayValue(Some(WholeArray(es)))
    case JObject(ms) => ObjectValue(Some(WholeObject(ms)))
  }

  lemma {:induction false} ElemsCounted(es: Elems)
    ensures |WholeElems(es)| == |ParsedElems(es)| + 1
  {
    if es.Elem? {
      ElemsCounted(es.tail);
    }
  }

  lemma {:induction false} MembersCounted(ms: Members)
    ensures |WholeMembers(ms)| == |ParsedMembers(ms)| + 1
  {
    if ms.Member? {
      MembersCounted(ms.tail);
    }
  }

  /** The builders return all of a container exactly when it is empty. */
  lemma WholeIffEmpty(es: Option<Elems>, ms: Option<Members>)
    ensures ParsedArray(es) == WholeArray(es) <==> es.None?
    ensures ParsedObject(ms) == WholeObject(ms) <==> ms.None?
  {
    if es.Some? {
      ElemsCounted(es.value);
    }
    if ms.Some? {
      MembersCounted(ms.value);
    }
  }

  /** The value with the last member of every container left out, and nothing else
      changed. */
  ghost function TrimmedElems(es: Elems): seq<Value> {
    if es.LastElem? then [] else [TrimmedValue(es.head)] + TrimmedElems(es.tail)
  }

  ghost function TrimmedMembers(ms: Members): seq<Property> {
    if ms.LastMember? then [] else [Property(Some(ms.key), TrimmedValue(ms.head))] + TrimmedMembers(ms.tail)
  }

  ghost function TrimmedValue(v: Json): Value {
    match v
    case JScalar(s) => ScalarValue(s)
    case JArray(es) => ArrayValue(Some(if es.None? then [] else TrimmedElems(es.value)))
    case JObject(ms) => ObjectValue(Some(if ms.None? then [] else TrimmedMembers(ms.value)))
  }

  /** No array holds an object, last members of containers left aside. */
  ghost predicate NoObjectElems(es: Elems) {
    es.LastElem? || (!es.head.JObject? && NoObjectElement(es.head) && NoObjectElems(es.tail))
  }

  ghost predicate NoObjectMembers(ms: Members) {
    ms.LastMember? || (NoObjectElement(ms.head) && NoObjectMembers(ms.tail))
  }

  ghost predicate NoObjectElement(v: Json) {
    match v
    case JScalar(_) => true
    case JArray(es) => es.Some? ==> NoObjectElems(es.value)
    case JObject(ms) => ms.Some? ==> NoObjectMembers(ms.value)
  }

  /** Leaving out last members is all the builders do exactly when no array holds an
      object in another place than the last. */
  lemma {:induction false} TrimmedIffNoObjects(v: Json)
    ensures ParsedValue(v) == TrimmedValue(v) <==> NoObjectElement(v)
    decreases v, 0
  {
    match v
    case JScalar(_) =>
    case JArray(es) =>
      if es.Some? {
        ElemsTrimmedIff(es.value);
      }
    case JObject(ms) =>
      if ms.Some? {
        MembersTrimmedIff(ms.value);
      }
  }

  lemma {:induction false} ElemsTrimmedIff(es: Elems)
    ensures ParsedElems(es) == TrimmedElems(es) <==> NoObjectElems(es)
    decreases es, 1
  {
    if es.Elem? {
      TrimmedIffNoObjects(es.head);
      ElemsTrimmedIff(es.tail);
      var p, t := ParsedElems(es), TrimmedElems(es);
      assert p[1..] == ParsedElems(es.tail) && t[1..] == TrimmedElems(es.tail);
      assert p == [p[0]] + p[1..] && t == [t[0]] + t[1..];
    }
  }

  lemma {:induction false} MembersTrimmedIff(ms: Members)
    ensures ParsedMembers(ms) == TrimmedMembers(ms) <==> NoObjectMembers(ms)
    decreases ms, 1
  {
    if ms.Member? {
      TrimmedIffNoObjects(ms.head);
      MembersTrimmedIff(ms.tail);
      var p, t := ParsedMembers(ms), TrimmedMembers(ms);
      assert p[1..] == ParsedMembers(ms.tail) && t[1..] == TrimmedMembers(ms.tail);
      assert p == [p[0]] + p[1..] && t == [t[0]] + t[1..];
    }
  }
}
