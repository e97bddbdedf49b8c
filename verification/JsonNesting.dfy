/** Well-nested token groups, seen with a stack. */
module JsonNesting {
  import opened JsonTokens
  import opened JsonParser

  /** The stack discipline: every closing token must match the innermost open one,
      whose closer is on top. The result is where the stack runs empty, or -1. */
  ghost function StackScan(ts: seq<Token>, i: nat, stack: seq<Kind>): (r: int)
    requires Terminated(ts) && i < |ts| && stack != []
    ensures r == -1 || i <= r < |ts| - 1
    decreases |ts| - i
  {
    var t := ts[i].kind;
    if t == Eof then -1
    else if Closer(t).Some? then StackScan(ts, i + 1, stack + [Closer(t).value])
    else if t != RightBrace && t != RightBracket then StackScan(ts, i + 1, stack)
    else if t != stack[|stack| - 1] then -1
    else if |stack| == 1 then i
    else StackScan(ts, i + 1, stack[..|stack| - 1])
  }

  /** The opener at `start` begins a well-nested group that ends at `end`. */
  ghost predicate Nested(ts: seq<Token>, start: nat, end: nat) {
    && Terminated(ts) && start < |ts| && Closer(ts[start].kind).Some?
    && StackScan(ts, start + 1, [Closer(ts[start].kind).value]) == end
  }

  ghost function Count(stack: seq<Kind>, k: Kind): nat {
    multiset(stack)[k]
  }

  /** `rest`, the part of the stack above its bottom, is what the counters count. */
  ghost predicate Counted(rest: seq<Kind>, b: int, k: int) {
    && b == Count(rest, RightBrace) && k == Count(rest, RightBracket)
    && forall x | x in rest :: x == RightBrace || x == RightBracket
  }

  lemma CountedStep(rest: seq<Kind>, x: Kind)
    ensures Counted(rest, Count(rest, RightBrace), Count(rest, RightBracket)) && x == RightBrace ==>
              Counted(rest + [x], Count(rest, RightBrace) + 1, Count(rest, RightBracket))
    ensures Counted(rest, Count(rest, RightBrace), Count(rest, RightBracket)) && x == RightBracket ==>
              Counted(rest + [x], Count(rest, RightBrace), Count(rest, RightBracket) + 1)
  {
  }

  /** Above a nonempty rest some counter is positive; with an empty one both are zero. */
  lemma CountedEmpty(rest: seq<Kind>, b: int, k: int)
    requires Counted(rest, b, k)
    ensures rest == [] <==> b == 0 && k == 0
  {
    if rest != [] {
      assert rest[0] in rest && multiset(rest)[rest[0]] > 0;
    }
  }

  /** Taking the top off takes one off its counter. */
  lemma CountedPop(rest: seq<Kind>, b: int, k: int)
    requires Counted(rest, b, k) && rest != []
    ensures var top, below := rest[|rest| - 1], rest[..|rest| - 1];
            if top == RightBrace then b > 0 && Counted(below, b - 1, k)
            else top == RightBracket && k > 0 && Counted(below, b, k - 1)
  {
    var top, below := rest[|rest| - 1], rest[..|rest| - 1];
    assert rest == below + [top];
    assert top in rest;
    assert forall x | x in below :: x in rest;
  }

  /** On a well-nested group two independent counters find what a stack finds. */
  lemma {:induction false} CountersFollowStack(ts: seq<Token>, i: nat, close: Kind, rest: seq<Kind>, b: nat, k: nat)
    requires Terminated(ts) && i < |ts| && Counted(rest, b, k)
    requires close == RightBrace || close == RightBracket
    requires StackScan(ts, i, [close] + rest) >= 0
    ensures Scan(ts, i, close, b, k) == StackScan(ts, i, [close] + rest)
    decreases |ts| - i
  {
    var t, stack := ts[i].kind, [close] + rest;
    CountedEmpty(rest, b, k);
    if Closer(t).Some? {
      var x := Closer(t).value;
      CountedStep(rest, x);
      assert stack + [x] == [close] + (rest + [x]);
      CountersFollowStack(ts, i + 1, close, rest + [x], Braces(t, b), Brackets(t, k));
    } else if t != RightBrace && t != RightBracket {
      CountersFollowStack(ts, i + 1, close, rest, b, k);
    } else if rest != [] {
      CountedPop(rest, b, k);
      assert stack[..|stack| - 1] == [close] + rest[..|rest| - 1];
      CountersFollowStack(ts, i + 1, close, rest[..|rest| - 1], Braces(t, b), Brackets(t, k));
    }
  }

  /** `_findEnclosingTokenPosition` returns the stack-discipline match. */
  lemma MatcherCorrect(ts: seq<Token>, start: nat, end: nat)
    requires Nested(ts, start, end)
    ensures Enclosing(ts, start) == end
  {
    var close := Closer(ts[start].kind).value;
    assert [close] + [] == [close];
    CountersFollowStack(ts, start + 1, close, [], 0, 0);
  }

  /** `[{[}]]`: the braces cross the inner brackets. */
  ghost function Crossed(): seq<Token> {
    [Token(LeftBracket, None), Token(LeftBrace, None), Token(LeftBracket, None),
     Token(RightBrace, None), Token(RightBracket, None), Token(RightBracket, None), Token(Eof, None)]
  }

  /** Outside well-nested groups the counters may accept what a stack rejects: here they do. */
  lemma MatcherAcceptsMore()
    ensures Terminated(Crossed()) && Enclosing(Crossed(), 0) == 5
    ensures StackScan(Crossed(), 1, [RightBracket]) == -1
  {
    var ts := Crossed();
    assert Scan(ts, 4, RightBracket, 0, 1) == 5;
    assert Scan(ts, 2, RightBracket, 1, 0) == 5;
    assert StackScan(ts, 3, [RightBracket, RightBrace, RightBracket]) == -1;
    assert [RightBracket, RightBrace] + [RightBracket] == [RightBracket, RightBrace, RightBracket];
    assert StackScan(ts, 2, [RightBracket, RightBrace]) == -1;
    assert [RightBracket] + [RightBrace] == [RightBracket, RightBrace];
  }

  // -------------------------------------------------------- the separators

  /** Openers minus closers, of either kind, from `i` up to `j`. */
  ghost function Depth(ts: seq<Token>, i: nat, j: nat): int
    requires i <= j <= |ts|
    decreases j - i
  {
    if i == j then 0
    else Depth(ts, i, j - 1) + Level(ts[j - 1].kind)
  }

  ghost function Level(k: Kind): int {
    if Closer(k).Some? then 1 else if k == RightBrace || k == RightBracket then -1 else 0
  }

  /** A comma at the nesting level of the group that starts before `from`. */
  ghost predicate OwnComma(ts: seq<Token>, from: nat, p: nat) {
    from <= p < |ts| && ts[p].kind == Comma && Depth(ts, from, p) == 0
  }

  /** What the scan from `i` finds are the own commas from `i` on. */
  ghost predicate FindsOwn(ts: seq<Token>, from: nat, i: nat, limit: nat, b: int, k: int)
    requires limit <= |ts|
  {
    forall p: nat :: p in Unhidden(ts, i, limit, b, k) <==> i <= p < limit && OwnComma(ts, from, p)
  }

  /** A token that is not an own comma of the group, or one that is and is not hidden. */
  lemma FindsOneMore(ts: seq<Token>, from: nat, i: nat, limit: nat, b: int, k: int)
    requires limit <= |ts| && i < limit
    requires var b', k' := Step(ts[i].kind, LeftBrace, RightBrace, b), Step(ts[i].kind, LeftBracket, RightBracket, k);
             && FindsOwn(ts, from, i + 1, limit, b', k')
             && (OwnComma(ts, from, i) <==> b' <= 0 && k' <= 0 && ts[i].kind == Comma)
    ensures FindsOwn(ts, from, i, limit, b, k)
  {
    var b', k' := Step(ts[i].kind, LeftBrace, RightBrace, b), Step(ts[i].kind, LeftBracket, RightBracket, k);
    var found, rest := Unhidden(ts, i, limit, b, k), Unhidden(ts, i + 1, limit, b', k');
    assert found == if OwnComma(ts, from, i) then [i] + rest else rest;
  }

  /** On a well-nested group the separator scan meets exactly its own commas. */
  lemma {:induction false} CommasFollowStack(ts: seq<Token>, from: nat, i: nat, limit: nat,
                                             close: Kind, rest: seq<Kind>, b: int, k: int)
    requires Terminated(ts) && from <= i <= limit < |ts| && Counted(rest, b, k)
    requires close == RightBrace || close == RightBracket
    requires StackScan(ts, i, [close] + rest) >= limit
    requires Depth(ts, from, i) == |rest|
    ensures FindsOwn(ts, from, i, limit, b, k)
    decreases limit - i
  {
    if i < limit {
      var t, stack := ts[i].kind, [close] + rest;
      var b', k' := Step(t, LeftBrace, RightBrace, b), Step(t, LeftBracket, RightBracket, k);
      CountedEmpty(rest, b, k);
      assert OwnComma(ts, from, i) <==> t == Comma && rest == [];
      if Closer(t).Some? {
        var x := Closer(t).value;
        CountedStep(rest, x);
        assert stack + [x] == [close] + (rest + [x]);
        CommasFollowStack(ts, from, i + 1, limit, close, rest + [x], b', k');
      } else if t != RightBrace && t != RightBracket {
        CommasFollowStack(ts, from, i + 1, limit, close, rest, b', k');
      } else if rest != [] {
        CountedPop(rest, b, k);
        assert stack[..|stack| - 1] == [close] + rest[..|rest| - 1];
        CommasFollowStack(ts, from, i + 1, limit, close, rest[..|rest| - 1], b', k');
      }
      FindsOneMore(ts, from, i, limit, b, k);
    }
  }

  /** `_getSeparatorsData` returns, in increasing order, the commas at the group's own
      level, except one directly before the closing token. */
  lemma SeparatorsExact(ts: seq<Token>, start: nat, end: nat)
    requires Nested(ts, start, end)
    ensures forall p: nat :: p in Separators(ts, start, end) <==>
              p < end - 1 && OwnComma(ts, start + 1, p)
    ensures forall j, j' | 0 <= j < j' < |Separators(ts, start, end)| ::
              Separators(ts, start, end)[j] < Separators(ts, start, end)[j']
  {
    var close := Closer(ts[start].kind).value;
    assert [close] + [] == [close];
    SeparatorsAscending(ts, start, end);
    if start + 1 <= end - 1 {
      CommasFollowStack(ts, start + 1, start + 1, end - 1, close, [], 0, 0);
    }
  }

  /** At the closing token of a well-nested group its own level is reached again. */
  lemma {:induction false} LevelAtEnd(ts: seq<Token>, from: nat, i: nat, close: Kind, rest: seq<Kind>)
    requires Terminated(ts) && from <= i < |ts|
    requires close == RightBrace || close == RightBracket
    requires StackScan(ts, i, [close] + rest) >= 0 && Depth(ts, from, i) == |rest|
    ensures Depth(ts, from, StackScan(ts, i, [close] + rest)) == 0
    decreases |ts| - i
  {
    var t, stack := ts[i].kind, [close] + rest;
    if Closer(t).Some? {
      assert stack + [Closer(t).value] == [close] + (rest + [Closer(t).value]);
      LevelAtEnd(ts, from, i + 1, close, rest + [Closer(t).value]);
    } else if t != RightBrace && t != RightBracket {
      LevelAtEnd(ts, from, i + 1, close, rest);
    } else if rest != [] {
      assert stack[..|stack| - 1] == [close] + rest[..|rest| - 1];
      LevelAtEnd(ts, from, i + 1, close, rest[..|rest| - 1]);
    }
  }

  /** All own commas are found exactly when there is no trailing one. */
  lemma SeparatorsComplete(ts: seq<Token>, start: nat, end: nat)
    requires Nested(ts, start, end)
    ensures (forall p: nat :: p in Separators(ts, start, end) <==> p < end && OwnComma(ts, start + 1, p))
       <==> ts[end - 1].kind != Comma
  {
    var close := Closer(ts[start].kind).value;
    assert [close] + [] == [close];
    SeparatorsExact(ts, start, end);
    LevelAtEnd(ts, start + 1, start + 1, close, []);
    if ts[end - 1].kind == Comma {
      assert start + 1 <= end - 1;
      assert Depth(ts, start + 1, end) == Depth(ts, start + 1, end - 1) + Level(Comma);
      assert OwnComma(ts, start + 1, end - 1);
      assert end - 1 !in Separators(ts, start, end);
    }
  }

  /** At a comma of the group's own level the stack holds the group's closer alone, so
      cutting there leaves well-nested slices. */
  lemma {:induction false} CutsAreNested(ts: seq<Token>, from: nat, i: nat, close: Kind, rest: seq<Kind>, p: nat)
    requires Terminated(ts) && from <= i <= p < |ts|
    requires close == RightBrace || close == RightBracket
    requires StackScan(ts, i, [close] + rest) > p && Depth(ts, from, i) == |rest|
    requires OwnComma(ts, from, p)
    ensures StackScan(ts, p + 1, [close]) == StackScan(ts, i, [close] + rest)
    decreases |ts| - i
  {
    var t, stack := ts[i].kind, [close] + rest;
    if i == p {
      assert rest == [] && stack == [close];
    } else if Closer(t).Some? {
      assert stack + [Closer(t).value] == [close] + (rest + [Closer(t).value]);
      CutsAreNested(ts, from, i + 1, close, rest + [Closer(t).value], p);
    } else if t != RightBrace && t != RightBracket {
      CutsAreNested(ts, from, i + 1, close, rest, p);
    } else if rest != [] {
      assert stack[..|stack| - 1] == [close] + rest[..|rest| - 1];
      CutsAreNested(ts, from, i + 1, close, rest[..|rest| - 1], p);
    }
  }

  /** Behind every separator the rest of the group is well-nested again. */
  lemma SeparatorsCut(ts: seq<Token>, start: nat, end: nat, j: nat)
    requires Nested(ts, start, end) && j < |Separators(ts, start, end)|
    ensures Separators(ts, start, end)[j] < end
    ensures StackScan(ts, Separators(ts, start, end)[j] + 1, [Closer(ts[start].kind).value]) == end
  {
    var close, p := Closer(ts[start].kind).value, Separators(ts, start, end)[j];
    assert [close] + [] == [close];
    SeparatorsExact(ts, start, end);
    assert p in Separators(ts, start, end);
    CutsAreNested(ts, start + 1, start + 1, close, [], p);
  }

  /** The brackets still open after the tokens from `i` up to `j`, if all closing ones
      match; `open` are those open before. */
  ghost function StillOpen(ts: seq<Token>, i: nat, j: nat, open: seq<Kind>): Option<seq<Kind>>
    requires i <= j <= |ts|
    decreases j - i
  {
    if i == j then Some(open)
    else
      var t := ts[i].kind;
      if t == Eof then None
      else if Closer(t).Some? then StillOpen(ts, i + 1, j, open + [Closer(t).value])
      else if t != RightBrace && t != RightBracket then StillOpen(ts, i + 1, j, open)
      else if open == [] || t != open[|open| - 1] then None
      else StillOpen(ts, i + 1, j, open[..|open| - 1])
  }

  /** The tokens from `i` up to `j` are well-nested in themselves. */
  ghost predicate WellNested(ts: seq<Token>, i: nat, j: nat) {
    i <= j <= |ts| && StillOpen(ts, i, j, []) == Some([])
  }

  /** Inside a well-nested group, from its own level to its own level, everything is closed. */
  lemma {:induction false} LevelToLevel(ts: seq<Token>, from: nat, i: nat, close: Kind, rest: seq<Kind>, p: nat)
    requires Terminated(ts) && from <= i <= p < |ts|
    requires close == RightBrace || close == RightBracket
    requires StackScan(ts, i, [close] + rest) >= p && Depth(ts, from, i) == |rest| && Depth(ts, from, p) == 0
    ensures StillOpen(ts, i, p, rest) == Some([])
    decreases p - i
  {
    if i < p {
      var t, stack := ts[i].kind, [close] + rest;
      assert Depth(ts, from, i + 1) == Depth(ts, from, i) + Level(t);
      if Closer(t).Some? {
        assert stack + [Closer(t).value] == [close] + (rest + [Closer(t).value]);
        LevelToLevel(ts, from, i + 1, close, rest + [Closer(t).value], p);
      } else if t != RightBrace && t != RightBracket {
        LevelToLevel(ts, from, i + 1, close, rest, p);
      } else if rest != [] {
        assert stack[|stack| - 1] == rest[|rest| - 1];
        assert stack[..|stack| - 1] == [close] + rest[..|rest| - 1];
        LevelToLevel(ts, from, i + 1, close, rest[..|rest| - 1], p);
      }
    }
  }

  /** Where the `j`-th slice of a group cut at its separators starts and ends. */
  ghost function SliceStart(ts: seq<Token>, start: nat, end: nat, j: nat): nat
    requires end <= |ts| && j <= |Separators(ts, start, end)|
  {
    if j == 0 then start + 1 else Separators(ts, start, end)[j - 1] + 1
  }

  ghost function SliceEnd(ts: seq<Token>, start: nat, end: nat, j: nat): nat
    requires end <= |ts| && j <= |Separators(ts, start, end)|
  {
    if j == |Separators(ts, start, end)| then end else Separators(ts, start, end)[j]
  }

  /** Cutting a group at its separators gives well-nested slices. */
  lemma SlicesNested(ts: seq<Token>, start: nat, end: nat, j: nat)
    requires Nested(ts, start, end) && j <= |Separators(ts, start, end)|
    ensures WellNested(ts, SliceStart(ts, start, end, j), SliceEnd(ts, start, end, j))
  {
    var close, ps := Closer(ts[start].kind).value, Separators(ts, start, end);
    var from, a, b := start + 1, SliceStart(ts, start, end, j), SliceEnd(ts, start, end, j);
    assert [close] + [] == [close];
    SeparatorsExact(ts, start, end);
    LevelAtEnd(ts, from, from, close, []);
    if j > 0 {
      assert ps[j - 1] in ps;
      SeparatorsCut(ts, start, end, j - 1);
      assert Depth(ts, from, a) == Depth(ts, from, a - 1) + Level(Comma);
    }
    if j < |ps| {
      assert ps[j] in ps;
      assert j > 0 ==> ps[j - 1] < ps[j];
    }
    LevelToLevel(ts, from, a, close, [], b);
  }

  // --------------------------------------------------------- groups in groups

  /** A bracket that is opened in a well-nested stretch is closed in it. */
  lemma {:induction false} ClosedInside(ts: seq<Token>, i: nat, j: nat, base: seq<Kind>, close: Kind, rest: seq<Kind>)
    requires Terminated(ts) && i <= j <= |ts| && i < |ts|
    requires StillOpen(ts, i, j, base + ([close] + rest)) == Some([])
    ensures i <= StackScan(ts, i, [close] + rest) < j
    decreases j - i
  {
    var t, stack := ts[i].kind, [close] + rest;
    if Closer(t).Some? {
      var x := Closer(t).value;
      assert base + stack + [x] == base + ([close] + (rest + [x]));
      assert stack + [x] == [close] + (rest + [x]);
      ClosedInside(ts, i + 1, j, base, close, rest + [x]);
    } else if t != RightBrace && t != RightBracket {
      ClosedInside(ts, i + 1, j, base, close, rest);
    } else {
      var open := base + stack;
      assert open[|open| - 1] == stack[|stack| - 1];
      if rest != [] {
        assert open[..|open| - 1] == base + ([close] + rest[..|rest| - 1]);
        assert stack[..|stack| - 1] == [close] + rest[..|rest| - 1];
        ClosedInside(ts, i + 1, j, base, close, rest[..|rest| - 1]);
      }
    }
  }

  lemma {:induction false} OpenedInside(ts: seq<Token>, i: nat, j: nat, open: seq<Kind>, q: nat)
    requires Terminated(ts) && i <= q < j <= |ts| && Closer(ts[q].kind).Some?
    requires StillOpen(ts, i, j, open) == Some([])
    ensures 0 <= Enclosing(ts, q) < j && Nested(ts, q, Enclosing(ts, q))
    decreases q - i
  {
    var t := ts[i].kind;
    if i == q {
      var close := Closer(t).value;
      assert open + [close] == open + ([close] + []) && [close] + [] == [close];
      ClosedInside(ts, i + 1, j, open, close, []);
      MatcherCorrect(ts, q, StackScan(ts, q + 1, [close]));
    } else if Closer(t).Some? {
      OpenedInside(ts, i + 1, j, open + [Closer(t).value], q);
    } else if t != RightBrace && t != RightBracket {
      OpenedInside(ts, i + 1, j, open, q);
    } else {
      OpenedInside(ts, i + 1, j, open[..|open| - 1], q);
    }
  }

  /** Whatever group starts in a slice of a well-nested group is well-nested and ends in
      that slice, so the builders' calls of each other nest strictly. */
  lemma SpanInside(ts: seq<Token>, start: nat, end: nat, j: nat, q: nat)
    requires Nested(ts, start, end) && j <= |Separators(ts, start, end)|
    requires SliceStart(ts, start, end, j) <= q < SliceEnd(ts, start, end, j) <= |ts| && Closer(ts[q].kind).Some?
    ensures q < Enclosing(ts, q) < SliceEnd(ts, start, end, j) && Nested(ts, q, Enclosing(ts, q))
  {
    SlicesNested(ts, start, end, j);
    OpenedInside(ts, SliceStart(ts, start, end, j), SliceEnd(ts, start, end, j), [], q);
  }

  // ------------------------------------------ where the matcher accepts more

  lemma {:induction false} StackSkips(ts: seq<Token>, i: nat, j: nat, close: Kind, open: seq<Kind>)
    requires Terminated(ts) && i <= j < |ts| && StillOpen(ts, i, j, open) == Some([])
    ensures StackScan(ts, i, [close] + open) == StackScan(ts, j, [close])
    decreases j - i
  {
    var t, stack := ts[i].kind, [close] + open;
    if i == j {
      assert stack == [close];
    } else if Closer(t).Some? {
      assert stack + [Closer(t).value] == [close] + (open + [Closer(t).value]);
      StackSkips(ts, i + 1, j, close, open + [Closer(t).value]);
    } else if t != RightBrace && t != RightBracket {
      StackSkips(ts, i + 1, j, close, open);
    } else {
      assert stack[|stack| - 1] == open[|open| - 1];
      assert stack[..|stack| - 1] == [close] + open[..|open| - 1];
      StackSkips(ts, i + 1, j, close, open[..|open| - 1]);
    }
  }

  /** An end that the matcher finds is the one that a stack finds exactly when all between
      the brackets is well-nested; otherwise the stack rejects the group. */
  lemma {:induction false} MatcherAgreesIff(ts: seq<Token>, start: nat)
    requires Terminated(ts) && start < |ts| && Enclosing(ts, start) >= 0
    ensures var end, stack := Enclosing(ts, start), StackScan(ts, start + 1, [Closer(ts[start].kind).value]);
            if WellNested(ts, start + 1, end) then stack == end else stack == -1
  {
    var close, end := Closer(ts[start].kind).value, Enclosing(ts, start);
    assert [close] + [] == [close];
    ScanStops(ts, start + 1, close, 0, 0);
    if WellNested(ts, start + 1, end) {
      StackSkips(ts, start + 1, end, close, []);
      assert StackScan(ts, end, [close]) == end;
    } else if StackScan(ts, start + 1, [close]) >= 0 {
      MatcherCorrect(ts, start, StackScan(ts, start + 1, [close]));
      LevelAtEnd(ts, start + 1, start + 1, close, []);
      LevelToLevel(ts, start + 1, start + 1, close, [], end);
    }
  }

  lemma {:induction false} ScanStops(ts: seq<Token>, i: nat, close: Kind, b: nat, k: nat)
    requires Terminated(ts) && i < |ts| && Scan(ts, i, close, b, k) >= 0
    ensures ts[Scan(ts, i, close, b, k)].kind == close
    decreases |ts| - i
  {
    if ts[i].kind != close || b != 0 || k != 0 {
      ScanStops(ts, i + 1, close, Braces(ts[i].kind, b), Brackets(ts[i].kind, k));
    }
  }

  /** If up to the end of input every closing token matches the innermost open one, and
      the group is not closed by then, the counters find no end either. */
  lemma {:induction false} OpenToTheEnd(ts: seq<Token>, i: nat, j: nat, close: Kind, rest: seq<Kind>, b: nat, k: nat)
    requires Terminated(ts) && i <= j < |ts| && ts[j].kind == Eof && Counted(rest, b, k)
    requires close == RightBrace || close == RightBracket
    requires StillOpen(ts, i, j, [close] + rest) != None && StackScan(ts, i, [close] + rest) == -1
    ensures Scan(ts, i, close, b, k) == -1
    decreases j - i
  {
    var t, stack := ts[i].kind, [close] + rest;
    CountedEmpty(rest, b, k);
    if i < j {
      if Closer(t).Some? {
        var x := Closer(t).value;
        CountedStep(rest, x);
        assert stack + [x] == [close] + (rest + [x]);
        OpenToTheEnd(ts, i + 1, j, close, rest + [x], Braces(t, b), Brackets(t, k));
      } else if t != RightBrace && t != RightBracket {
        OpenToTheEnd(ts, i + 1, j, close, rest, b, k);
      } else if rest != [] {
        CountedPop(rest, b, k);
        assert stack[..|stack| - 1] == [close] + rest[..|rest| - 1];
        OpenToTheEnd(ts, i + 1, j, close, rest[..|rest| - 1], Braces(t, b), Brackets(t, k));
      }
    }
  }

  /** A group that input ends in has no end for the matcher, and NULL is returned for it. */
  lemma UnclosedGroup(ts: seq<Token>, start: nat, end: nat)
    requires Terminated(ts) && start < end < |ts| && Closer(ts[start].kind).Some? && ts[end].kind == Eof
    requires StillOpen(ts, start + 1, end, [Closer(ts[start].kind).value]) != None
    requires StackScan(ts, start + 1, [Closer(ts[start].kind).value]) == -1
    ensures Enclosing(ts, start) == -1 && ArrayAt(ts, start) == None && ObjectAt(ts, start) == None
  {
    var close := Closer(ts[start].kind).value;
    assert [close] + [] == [close];
    OpenToTheEnd(ts, start + 1, end, close, [], 0, 0);
  }

  /** So has a group behind whose start no closing token of its kind follows. */
  lemma NoCloserFollows(ts: seq<Token>, start: nat)
    requires Terminated(ts) && start < |ts|
    requires forall p | start < p < |ts| :: Closer(ts[start].kind) != Some(ts[p].kind)
    ensures Enclosing(ts, start) == -1 && ArrayAt(ts, start) == None && ObjectAt(ts, start) == None
  {
    EnclosingIff(ts, start);
  }

  /** A scan that the end of input cuts short. */
  lemma {:induction false} ScanCut(ts: seq<Token>, cut: seq<Token>, i: nat, n: nat, close: Kind, b: nat, k: nat)
    requires Terminated(ts) && i <= n < |ts| && cut == ts[..n] + [Token(Eof, None)]
    requires Scan(ts, i, close, b, k) >= n
    ensures Scan(cut, i, close, b, k) == -1
    decreases n - i
  {
    if i < n {
      ScanCut(ts, cut, i + 1, n, close, Braces(ts[i].kind, b), Brackets(ts[i].kind, k));
    }
  }

  /** No bracket of the other kind from `i` on. */
  ghost predicate OneKind(ts: seq<Token>, i: nat, close: Kind) {
    forall j | i <= j < |ts| ::
      if close == RightBrace then ts[j].kind != LeftBracket && ts[j].kind != RightBracket
      else ts[j].kind != LeftBrace && ts[j].kind != RightBrace
  }

  lemma {:induction false} OneKindFollows(ts: seq<Token>, i: nat, close: Kind, stack: seq<Kind>)
    requires Terminated(ts) && i < |ts| && OneKind(ts, i, close) && (close == RightBrace || close == RightBracket)
    requires stack != [] && forall x | x in stack :: x == close
    ensures close == RightBrace ==> StackScan(ts, i, stack) == Scan(ts, i, close, |stack| - 1, 0)
    ensures close == RightBracket ==> StackScan(ts, i, stack) == Scan(ts, i, close, 0, |stack| - 1)
    decreases |ts| - i
  {
    var t := ts[i].kind;
    assert stack[|stack| - 1] in stack;
    if t != Eof {
      if Closer(t).Some? {
        OneKindFollows(ts, i + 1, close, stack + [close]);
      } else if t != close {
        OneKindFollows(ts, i + 1, close, stack);
      } else if |stack| > 1 {
        var below := stack[..|stack| - 1];
        assert forall x | x in below :: x in stack;
        OneKindFollows(ts, i + 1, close, below);
      }
    }
  }

  /** With one kind of bracket the matcher and a stack never differ. */
  lemma OneKindAgrees(ts: seq<Token>, start: nat)
    requires Terminated(ts) && start < |ts| && Closer(ts[start].kind).Some?
    requires OneKind(ts, start, Closer(ts[start].kind).value)
    ensures Enclosing(ts, start) == StackScan(ts, start + 1, [Closer(ts[start].kind).value])
  {
    OneKindFollows(ts, start + 1, Closer(ts[start].kind).value, [Closer(ts[start].kind).value]);
  }
}
