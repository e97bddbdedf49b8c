/** The tokens that pass from the lexer to the parser. */
module JsonTokens {

  datatype Option<+T> = None | Some(value: T)

  datatype Kind =
    | LeftBrace | RightBrace | LeftBracket | RightBracket | Comma | Colon
    | String | Number | Null | Array | Object | Boolean | True | False | Illegal | Eof

  /** A token; `None` stands for a NULL literal. */
  datatype Token = Token(kind: Kind, literal: Option<string>)

  /** What the lexer hands over: an end-of-input token comes last. */
  ghost predicate Terminated(ts: seq<Token>) {
    |ts| > 0 && ts[|ts| - 1].kind == Eof
  }
}

/** The bracket matcher, the separator finder and the recursive builders. */
module JsonParser {
  import opened JsonTokens

  // ----------------------------------------------------------- the matcher

  /** The closing kind for an opening one. */
  ghost function Closer(k: Kind): Option<Kind> {
    match k
    case LeftBrace => Some(RightBrace)
    case LeftBracket => Some(RightBracket)
    case _ => None
  }

  /** The number of open braces after a token. */
  ghost function Braces(k: Kind, n: nat): nat {
    if k.LeftBrace? then n + 1 else if k.RightBrace? && n > 0 then n - 1 else n
  }

  ghost function Brackets(k: Kind, n: nat): nat {
    if k.LeftBracket? then n + 1 else if k.RightBracket? && n > 0 then n - 1 else n
  }

  /** Scanning with two counters: the first `close` at which both are zero, or -1. */
  ghost function Scan(ts: seq<Token>, i: nat, close: Kind, b: nat, k: nat): (r: int)
    requires Terminated(ts) && i < |ts|
    ensures r == -1 || i <= r < |ts| - 1
    decreases |ts| - i
  {
    if ts[i].kind == Eof then -1
    else if ts[i].kind == close && b == 0 && k == 0 then i
    else Scan(ts, i + 1, close, Braces(ts[i].kind, b), Brackets(ts[i].kind, k))
  }

  ghost function Enclosing(ts: seq<Token>, start: nat): (r: int)
    requires Terminated(ts) && start < |ts|
    ensures r == -1 || start < r < |ts| - 1
    ensures r >= 0 ==> Closer(ts[start].kind).Some?
  {
    match Closer(ts[start].kind)
    case None => -1
    case Some(close) => Scan(ts, start + 1, close, 0, 0)
  }

  /** Opening tokens minus closing ones of one kind, from `i` up to `j`. */
  ghost function Excess(ts: seq<Token>, i: nat, j: nat, open: Kind, close: Kind): int
    requires i <= j <= |ts|
    decreases j - i
  {
    if i == j then 0
    else Excess(ts, i + 1, j, open, close) + if ts[i].kind == open then 1 else if ts[i].kind == close then -1 else 0
  }

  /** Nothing that is opened from `i` on is open at `p`. */
  ghost predicate AllShut(ts: seq<Token>, i: nat, p: nat, open: Kind, close: Kind)
    requires p <= |ts|
  {
    forall q | i <= q <= p :: Excess(ts, q, p, open, close) <= 0
  }

  /** `p` is a place where the matcher may stop: a closing token, before the end of input,
      at which neither a brace nor a bracket opened from `i` on is open. */
  ghost predicate Closes(ts: seq<Token>, i: nat, p: nat, close: Kind) {
    && i <= p < |ts| && ts[p].kind == close && (forall q | i <= q <= p :: ts[q].kind != Eof)
    && AllShut(ts, i, p, LeftBrace, RightBrace) && AllShut(ts, i, p, LeftBracket, RightBracket)
  }

  /** The same when braces and brackets are open before `i` already. */
  ghost predicate ClosesWith(ts: seq<Token>, i: nat, p: nat, close: Kind, b: nat, k: nat) {
    && i <= p < |ts| && ts[p].kind == close && (forall q | i <= q <= p :: ts[q].kind != Eof)
    && AllShut(ts, i + 1, p, LeftBrace, RightBrace) && b + Excess(ts, i, p, LeftBrace, RightBrace) <= 0
    && AllShut(ts, i + 1, p, LeftBracket, RightBracket) && k + Excess(ts, i, p, LeftBracket, RightBracket) <= 0
  }

  lemma AllShutFrom(ts: seq<Token>, i: nat, p: nat, open: Kind, close: Kind)
    requires i <= p <= |ts|
    ensures AllShut(ts, i, p, open, close) <==>
              Excess(ts, i, p, open, close) <= 0 && AllShut(ts, i + 1, p, open, close)
  {
  }

  /** A counter that does not go below zero. */
  lemma CountedFrom(ts: seq<Token>, i: nat, p: nat, open: Kind, close: Kind, n: nat)
    requires i < p <= |ts| && open != close
    ensures var t := ts[i].kind;
            var n' := if t == open then n + 1 else if t == close && n > 0 then n - 1 else n;
            AllShut(ts, i + 1, p, open, close) && n + Excess(ts, i, p, open, close) <= 0 <==>
              AllShut(ts, i + 2, p, open, close) && n' + Excess(ts, i + 1, p, open, close) <= 0
  {
    ExcessFrom(ts, i, p, open, close);
    AllShutFrom(ts, i + 1, p, open, close);
  }

  lemma ExcessFrom(ts: seq<Token>, i: nat, p: nat, open: Kind, close: Kind)
    requires i < p <= |ts|
    ensures var e := Excess(ts, i + 1, p, open, close);
            Excess(ts, i, p, open, close)
            == (if ts[i].kind == open then e + 1 else if ts[i].kind == close then e - 1 else e)
  {
  }

  lemma ClosesFurther(ts: seq<Token>, i: nat, p: nat, close: Kind, b: nat, k: nat)
    requires i < p < |ts| && ts[i].kind != Eof
    ensures ClosesWith(ts, i, p, close, b, k) <==>
              ClosesWith(ts, i + 1, p, close, Braces(ts[i].kind, b), Brackets(ts[i].kind, k))
  {
    CountedFrom(ts, i, p, LeftBrace, RightBrace, b);
    CountedFrom(ts, i, p, LeftBracket, RightBracket, k);
  }

  ghost predicate CanClose(ts: seq<Token>, i: nat, close: Kind) {
    exists p: nat :: Closes(ts, i, p, close)
  }

  /** The first place where the matcher may stop, or -1. */
  ghost predicate IsFirst(ts: seq<Token>, i: nat, r: int, close: Kind) {
    if r == -1 then !CanClose(ts, i, close)
    else r >= 0 && Closes(ts, i, r, close) && forall p: nat | p < r :: !Closes(ts, i, p, close)
  }

  lemma {:induction false} ScanIff(ts: seq<Token>, i: nat, close: Kind, b: nat, k: nat)
    requires Terminated(ts) && i < |ts| && close != Eof
    ensures var r := Scan(ts, i, close, b, k);
            && (r >= 0 ==> ClosesWith(ts, i, r, close, b, k))
            && forall p | i <= p && (r >= 0 ==> p < r) :: !ClosesWith(ts, i, p, close, b, k)
    decreases |ts| - i
  {
    var t := ts[i].kind;
    if t != Eof && !(t == close && b == 0 && k == 0) {
      ScanIff(ts, i + 1, close, Braces(t, b), Brackets(t, k));
      forall p | i < p < |ts|
        ensures ClosesWith(ts, i, p, close, b, k) <==> ClosesWith(ts, i + 1, p, close, Braces(t, b), Brackets(t, k))
      {
        ClosesFurther(ts, i, p, close, b, k);
      }
    }
  }

  /** On every stream the matcher returns the first place where it may stop, or -1 when
      there is none. */
  lemma EnclosingIff(ts: seq<Token>, start: nat)
    requires Terminated(ts) && start < |ts|
    ensures ts[start].kind != LeftBrace && ts[start].kind != LeftBracket ==> Enclosing(ts, start) == -1
    ensures ts[start].kind == LeftBrace ==> IsFirst(ts, start + 1, Enclosing(ts, start), RightBrace)
    ensures ts[start].kind == LeftBracket ==> IsFirst(ts, start + 1, Enclosing(ts, start), RightBracket)
  {
    if Closer(ts[start].kind).Some? {
      var close, from := Closer(ts[start].kind).value, start + 1;
      ScanIff(ts, from, close, 0, 0);
      forall p: nat
        ensures Closes(ts, from, p, close) <==> ClosesWith(ts, from, p, close, 0, 0)
      {
        if from <= p < |ts| {
          AllShutFrom(ts, from, p, LeftBrace, RightBrace);
          AllShutFrom(ts, from, p, LeftBracket, RightBracket);
        }
      }
    }
  }

  /** `_findEnclosingTokenPosition`. */
  method FindEnclosing(ts: seq<Token>, start: nat) returns (r: int)
    requires Terminated(ts) && start < |ts|
    ensures r == Enclosing(ts, start)
  {
    var close;
    var token := ts[start].kind;
    if token == LeftBrace {
      close := RightBrace;
    } else if token == LeftBracket {
      close := RightBracket;
    } else {
      return -1;
    }
    var braces, brackets := 0, 0;
    var i := start + 1;
    while ts[i].kind != Eof
      invariant start < i < |ts| && braces >= 0 && brackets >= 0
      invariant Enclosing(ts, start) == Scan(ts, i, close, braces, brackets)
      decreases |ts| - i
    {
      if ts[i].kind == close && braces == 0 && brackets == 0 {
        break;
      }
      if ts[i].kind == LeftBrace {
        braces := braces + 1;
      } else if ts[i].kind == LeftBracket {
        brackets := brackets + 1;
      } else if ts[i].kind == RightBrace && braces > 0 {
        braces := braces - 1;
      } else if ts[i].kind == RightBracket && brackets > 0 {
        brackets := brackets - 1;
      }
      i := i + 1;
    }
    if ts[i].kind != close {
      return -1;
    }
    return i;
  }

  // -------------------------------------------------------- the separators

  /** One counter of the separator scan; it may go below zero. */
  ghost function Step(k: Kind, open: Kind, close: Kind, n: int): int {
    if k == open then n + 1 else if k == close then n - 1 else n
  }

  /** The commas from `i` on, up to `limit`, that neither counter hides. */
  ghost function Unhidden(ts: seq<Token>, i: nat, limit: int, b: int, k: int): seq<nat>
    requires limit <= |ts|
    decreases limit - i
  {
    if i >= limit then []
    else
      var b' := Step(ts[i].kind, LeftBrace, RightBrace, b);
      var k' := Step(ts[i].kind, LeftBracket, RightBracket, k);
      var rest := Unhidden(ts, i + 1, limit, b', k');
      if b' <= 0 && k' <= 0 && ts[i].kind == Comma then [i] + rest else rest
  }

  /** Positions of commas from `lo` on below `hi`, in increasing order. */
  ghost predicate Ascending(ts: seq<Token>, r: seq<nat>, lo: nat, hi: int)
    requires hi <= |ts|
  {
    && (forall j | 0 <= j < |r| :: lo <= r[j] < hi && ts[r[j]].kind == Comma)
    && (forall j, j' | 0 <= j < j' < |r| :: r[j] < r[j'])
  }

  lemma {:induction false} UnhiddenAscending(ts: seq<Token>, i: nat, limit: int, b: int, k: int)
    requires limit <= |ts|
    ensures Ascending(ts, Unhidden(ts, i, limit, b, k), i, limit)
    decreases limit - i
  {
    if i < limit {
      var b', k' := Step(ts[i].kind, LeftBrace, RightBrace, b), Step(ts[i].kind, LeftBracket, RightBracket, k);
      var rest := Unhidden(ts, i + 1, limit, b', k');
      UnhiddenAscending(ts, i + 1, limit, b', k');
      assert Unhidden(ts, i, limit, b, k) == rest || Unhidden(ts, i, limit, b, k) == [i] + rest;
    }
  }

  /** On every stream, a comma is found exactly if from the start of the scan up to it no
      more braces and no more brackets are opened than closed. */
  lemma {:induction false} UnhiddenIff(ts: seq<Token>, i: nat, limit: int, b: int, k: int, p: nat)
    requires limit <= |ts|
    ensures p in Unhidden(ts, i, limit, b, k) <==>
              && i <= p < limit && ts[p].kind == Comma
              && b + Excess(ts, i, p, LeftBrace, RightBrace) <= 0
              && k + Excess(ts, i, p, LeftBracket, RightBracket) <= 0
    decreases limit - i
  {
    if i < limit {
      var b', k' := Step(ts[i].kind, LeftBrace, RightBrace, b), Step(ts[i].kind, LeftBracket, RightBracket, k);
      var rest := Unhidden(ts, i + 1, limit, b', k');
      UnhiddenIff(ts, i + 1, limit, b', k', p);
      UnhiddenAscending(ts, i + 1, limit, b', k');
      assert Unhidden(ts, i, limit, b, k) == if b' <= 0 && k' <= 0 && ts[i].kind == Comma then [i] + rest else rest;
    }
  }

  ghost function Separators(ts: seq<Token>, start: nat, end: int): seq<nat>
    requires end <= |ts|
  {
    Unhidden(ts, start + 1, end - 1, 0, 0)
  }

  lemma SeparatorsAscending(ts: seq<Token>, start: nat, end: int)
    requires end <= |ts|
    ensures Ascending(ts, Separators(ts, start, end), start + 1, end - 1)
  {
    UnhiddenAscending(ts, start + 1, end - 1, 0, 0);
  }

  /** On every stream, the separators are the commas that have as many closing as opening
      tokens of each kind before them, or more; one directly before the end excepted. */
  lemma SeparatorsIff(ts: seq<Token>, start: nat, end: int, p: nat)
    requires end <= |ts|
    ensures p in Separators(ts, start, end) <==>
              && start < p < end - 1 && ts[p].kind == Comma
              && Excess(ts, start + 1, p, LeftBrace, RightBrace) <= 0
              && Excess(ts, start + 1, p, LeftBracket, RightBracket) <= 0
  {
    UnhiddenIff(ts, start + 1, end - 1, 0, 0, p);
  }

  /** `_getSeparatorsData`. */
  method GetSeparators(ts: seq<Token>, start: nat, end: int) returns (positions: seq<nat>)
    requires start < end <= |ts|
    ensures positions == Separators(ts, start, end)
  {
    positions := [];
    var braces, brackets := 0, 0;
    var i := start + 1;
    while i < end - 1
      invariant start < i
      invariant Separators(ts, start, end) == positions + Unhidden(ts, i, end - 1, braces, brackets)
    {
      match ts[i].kind {
        case LeftBrace => braces := braces + 1;
        case LeftBracket => brackets := brackets + 1;
        case RightBrace => braces := braces - 1;
        case RightBracket => brackets := brackets - 1;
        case _ =>
      }
      if !(braces > 0 || brackets > 0) && ts[i].kind == Comma {
        assert positions + ([i] + Unhidden(ts, i + 1, end - 1, braces, brackets))
            == positions + [i] + Unhidden(ts, i + 1, end - 1, braces, brackets);
        positions := positions + [i];
      }
      i := i + 1;
    }
  }

  // ----------------------------------------------------------- the builders

  /** A `JSON_value`. NULL results of the builders are `None`; `Indeterminate` is the
      value that `_parseValue` returns without having written it. */
  datatype Value =
    | StringValue(text: Option<string>)
    | NumberValue(number: Option<string>)
    | BooleanValue(boolean: bool)
    | NullValue
    | ObjectValue(properties: Option<seq<Property>>)
    | ArrayValue(elements: Option<seq<Value>>)
    | Indeterminate

  datatype Property = Property(key: Option<string>, value: Value)

  /** `_parseValue`. */
  function ParseValue(t: Token): Value {
    match t.kind
    case String => StringValue(t.literal)
    case Number => NumberValue(t.literal)
    case True => BooleanValue(true)
    case False => BooleanValue(false)
    case Null => NullValue
    case _ => Indeterminate
  }

  /** Separators behind `from`, in order, far enough from the end of the stream. */
  ghost predicate Placed(ts: seq<Token>, from: nat, ps: seq<nat>) {
    && from < |ts|
    && (forall j | 0 <= j < |ps| :: from < ps[j] < |ts| - 3)
    && (forall j, j' | 0 <= j < j' < |ps| :: ps[j] < ps[j'])
  }

  /** What `parseArray` returns. */
  ghost function ArrayAt(ts: seq<Token>, start: nat): Option<seq<Value>>
    requires Terminated(ts) && start < |ts|
    decreases |ts| - start, 2
  {
    if ts[start].kind != LeftBracket || Enclosing(ts, start) < 0 then None
    else
      var ps := Separators(ts, start, Enclosing(ts, start));
      SeparatorsAscending(ts, start, Enclosing(ts, start));
      Some(ElementsAt(ts, start, ps))
  }

  /** One element for every separator, each read behind `from` or the separator before. */
  ghost function ElementsAt(ts: seq<Token>, from: nat, ps: seq<nat>): (r: seq<Value>)
    requires Terminated(ts) && Placed(ts, from, ps)
    ensures |r| == |ps|
    decreases |ts| - from, 1, |ps|
  {
    if ps == [] then []
    else
      var next := ps[0];
      [ElementAt(ts, from)] + ElementsAt(ts, next, ps[1..])
  }

  ghost function ElementAt(ts: seq<Token>, i: nat): Value
    requires Terminated(ts) && i < |ts| - 3
    decreases |ts| - i, 0
  {
    if ts[i + 1].kind == LeftBracket then ArrayValue(ArrayAt(ts, i + 1))
    else if ts[i + 2].kind == LeftBrace then ObjectValue(ObjectAt(ts, i + 1))
    else ParseValue(ts[i + 1])
  }

  /** What `parseObject` returns. */
  ghost function ObjectAt(ts: seq<Token>, start: nat): Option<seq<Property>>
    requires Terminated(ts) && start < |ts|
    decreases |ts| - start, 2
  {
    if ts[start].kind != LeftBrace || Enclosing(ts, start) < 0 then None
    else
      var ps := Separators(ts, start, Enclosing(ts, start));
      SeparatorsAscending(ts, start, Enclosing(ts, start));
      Some(PropertiesAt(ts, start, ps))
  }

  ghost function PropertiesAt(ts: seq<Token>, from: nat, ps: seq<nat>): (r: seq<Property>)
    requires Terminated(ts) && Placed(ts, from, ps)
    ensures |r| == |ps|
    decreases |ts| - from, 1, |ps|
  {
    if ps == [] then []
    else
      var next := ps[0];
      [PropertyAt(ts, from)] + PropertiesAt(ts, next, ps[1..])
  }

  ghost function PropertyAt(ts: seq<Token>, i: nat): Property
    requires Terminated(ts) && i < |ts| - 3
    decreases |ts| - i, 0
  {
    Property(ts[i + 1].literal,
             if ts[i + 3].kind == LeftBrace then ObjectValue(ObjectAt(ts, i + 3))
             else if ts[i + 3].kind == LeftBracket then ArrayValue(ArrayAt(ts, i + 3))
             else ParseValue(ts[i + 3]))
  }

  /** The elements from the `j`-th on are those behind the separator before it. */
  lemma {:induction false} ElementsFrom(ts: seq<Token>, from: nat, ps: seq<nat>, j: nat)
    requires Terminated(ts) && Placed(ts, from, ps) && j < |ps|
    ensures ElementsAt(ts, from, ps)[j] == ElementAt(ts, if j == 0 then from else ps[j - 1])
    decreases j
  {
    if j > 0 {
      ElementsFrom(ts, ps[0], ps[1..], j - 1);
    }
  }

  lemma {:induction false} PropertiesFrom(ts: seq<Token>, from: nat, ps: seq<nat>, j: nat)
    requires Terminated(ts) && Placed(ts, from, ps) && j < |ps|
    ensures PropertiesAt(ts, from, ps)[j] == PropertyAt(ts, if j == 0 then from else ps[j - 1])
    decreases j
  {
    if j > 0 {
      PropertiesFrom(ts, ps[0], ps[1..], j - 1);
    }
  }

  /** The value of a single token: a token that is none leaves it unwritten. */
  ghost predicate Plainly(t: Token, v: Value) {
    && (v == StringValue(t.literal) <==> t.kind == String)
    && (v == NumberValue(t.literal) <==> t.kind == Number)
    && (v == BooleanValue(true) <==> t.kind == True)
    && (v == BooleanValue(false) <==> t.kind == False)
    && (v == NullValue <==> t.kind == Null)
    && (v == Indeterminate <==> t.kind !in {String, Number, True, False, Null})
  }

  /** On every stream, what becomes of the tokens behind the opening bracket or behind a
      separator. */
  lemma ArrayElement(ts: seq<Token>, start: nat, j: nat)
    requires Terminated(ts) && start < |ts| && ArrayAt(ts, start) != None && j < |ArrayAt(ts, start).value|
    ensures Enclosing(ts, start) >= 0
    ensures var ps := Separators(ts, start, Enclosing(ts, start));
            && |ArrayAt(ts, start).value| == |ps| && Placed(ts, start, ps)
            && var q, e := if j == 0 then start else ps[j - 1], ArrayAt(ts, start).value[j];
               if ts[q + 1].kind == LeftBracket then e == ArrayValue(ArrayAt(ts, q + 1))
               else if ts[q + 2].kind == LeftBrace then e == ObjectValue(ObjectAt(ts, q + 1))
               else Plainly(ts[q + 1], e)
  {
    var ps := Separators(ts, start, Enclosing(ts, start));
    SeparatorsAscending(ts, start, Enclosing(ts, start));
    ElementsFrom(ts, start, ps, j);
  }

  lemma ObjectProperty(ts: seq<Token>, start: nat, j: nat)
    requires Terminated(ts) && start < |ts| && ObjectAt(ts, start) != None && j < |ObjectAt(ts, start).value|
    ensures Enclosing(ts, start) >= 0
    ensures var ps := Separators(ts, start, Enclosing(ts, start));
            && |ObjectAt(ts, start).value| == |ps| && Placed(ts, start, ps)
            && var q, e := if j == 0 then start else ps[j - 1], ObjectAt(ts, start).value[j];
               && e.key == ts[q + 1].literal
               && if ts[q + 3].kind == LeftBrace then e.value == ObjectValue(ObjectAt(ts, q + 3))
                  else if ts[q + 3].kind == LeftBracket then e.value == ArrayValue(ArrayAt(ts, q + 3))
                  else Plainly(ts[q + 3], e.value)
  {
    var ps := Separators(ts, start, Enclosing(ts, start));
    SeparatorsAscending(ts, start, Enclosing(ts, start));
    PropertiesFrom(ts, start, ps, j);
  }

  /** `parseArray`, on every stream of tokens. */
  method ParseArray(ts: seq<Token>, start: nat) returns (r: Option<seq<Value>>)
    requires Terminated(ts) && start < |ts|
    ensures r == ArrayAt(ts, start)
    ensures r != None <==> ts[start].kind == LeftBracket && CanClose(ts, start + 1, RightBracket)
    decreases |ts| - start
  {
    if ts[start].kind != LeftBracket {
      return None;
    }
    var end := FindEnclosing(ts, start);
    EnclosingIff(ts, start);
    if end < 0 {
      return None;
    }
    var positions := GetSeparators(ts, start, end);
    SeparatorsAscending(ts, start, end);
    ghost var want := ElementsAt(ts, start, positions);
    var elements := new Value[|positions|](_ => Indeterminate);
    var i, j := start, 0;
    while j < |positions|
      invariant 0 <= j <= |positions|
      invariant i == if j == 0 then start else positions[j - 1]
      invariant forall x | 0 <= x < j :: elements[x] == want[x]
    {
      ElementsFrom(ts, start, positions, j);
      if ts[i + 1].kind == LeftBracket {
        var inner := ParseArray(ts, i + 1);
        elements[j] := ArrayValue(inner);
      } else if ts[i + 2].kind == LeftBrace {
        var inner := ParseObject(ts, i + 1);
        elements[j] := ObjectValue(inner);
      } else {
        elements[j] := ParseValue(ts[i + 1]);
      }
      i := positions[j];
      j := j + 1;
    }
    assert elements[..] == want;
    return Some(elements[..]);
  }

  /** `parseObject`, on every stream of tokens. */
  method ParseObject(ts: seq<Token>, start: nat) returns (r: Option<seq<Property>>)
    requires Terminated(ts) && start < |ts|
    ensures r == ObjectAt(ts, start)
    ensures r != None <==> ts[start].kind == LeftBrace && CanClose(ts, start + 1, RightBrace)
    decreases |ts| - start
  {
    if ts[start].kind != LeftBrace {
      return None;
    }
    var end := FindEnclosing(ts, start);
    EnclosingIff(ts, start);
    if end < 0 {
      return None;
    }
    var positions := GetSeparators(ts, start, end);
    SeparatorsAscending(ts, start, end);
    ghost var want := PropertiesAt(ts, start, positions);
    var properties := new Property[|positions|](_ => Property(None, Indeterminate));
    var i, j, p := start, 0, 0;
    while j < |positions|
      invariant 0 <= j == p <= |positions|
      invariant i == if j == 0 then start else positions[j - 1]
      invariant forall x | 0 <= x < j :: properties[x] == want[x]
    {
      PropertiesFrom(ts, start, positions, j);
      var key := ts[i + 1].literal;
      var value;
      if ts[i + 3].kind == LeftBrace {
        var inner := ParseObject(ts, i + 3);
        value := ObjectValue(inner);
      } else if ts[i + 3].kind == LeftBracket {
        var inner := ParseArray(ts, i + 3);
        value := ArrayValue(inner);
      } else {
        value := ParseValue(ts[i + 3]);
      }
      properties[p] := Property(key, value);
      p := p + 1;
      i := positions[j];
      j := j + 1;
    }
    assert properties[..] == want;
    return Some(properties[..]);
  }
}
