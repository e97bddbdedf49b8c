/** The callbacks of the server, and the event loop that calls them. */
module Callbacks {
  import opened Requests
  import opened Connections

  const UV_EOF := -4095

  /** What the event loop can report next. */
  datatype Event =
    | Connect(status: int, accepted: bool)
    | Read(client: Ptr, size: nat, nread: int, bytes: string)
    | Expire(timer: Ptr)
    | Start(work: Ptr)
    | Finish(work: Ptr)
    | After(work: Ptr)
    | Written(write: Ptr)
    | Closed(handle: Ptr)

  /** What a call of `read_cb` adds to the history of its connection. */
  ghost function AfterRead(h: History, nread: int, buffer: string): History
    requires nread <= |buffer|
  {
    if nread < 0 then Ended(h)
    else
      var g := Received(h, buffer[..nread]);
      if Complete(Concat(g.received)) then Submitted(g) else g
  }

  lemma SameRead(h: History, nread: int, buffer: string, bytes: string)
    requires nread <= |bytes| && bytes <= buffer
    ensures AfterRead(h, nread, buffer) == AfterRead(h, nread, bytes)
  {
    assert nread >= 0 ==> buffer[..nread] == bytes[..nread];
  }

  /** The block an event is about. */
  ghost function Subject(e: Event): Ptr {
    match e
    case Connect(_, _) => NULL
    case Read(c, _, _, _) => c
    case Expire(t) => t
    case Start(w) => w
    case Finish(w) => w
    case After(w) => w
    case Written(w) => w
    case Closed(h) => h
  }

  /** A chunk that leaves the request incomplete. */
  ghost predicate OnlyChunk(h: History, e: Event)
    requires e.Read? ==> e.nread <= |e.bytes|
  {
    e.Read? && NextHistory(h, e).closes == h.closes && NextHistory(h, e).queuedAt == h.queuedAt
  }

  /** The steps that make up the worker's part and its completion. */
  ghost predicate OfWorker(e: Event) {
    e.Start? || e.Finish? || e.After?
  }

  /** What an event adds to the history of the connection it is about. A timer that
      expires while the request is being served adds nothing. */
  ghost function NextHistory(h: History, e: Event): History
    requires e.Read? ==> e.nread <= |e.bytes|
  {
    match e
    case Read(_, _, nread, bytes) => AfterRead(h, nread, bytes)
    case Expire(_) => if h.queuedAt != [] then h else Ended(h)
    case After(_) => Replied(h, RESPONSE)
    case Written(_) => Ended(h)
    case _ => h
  }

  /** What libuv promises: a callback comes only for what is still open, armed, or
      pending, and a work request runs once and completes once. */
  predicate Due(m: Memory, e: Event) {
    match e
    case Connect(_, _) => true
    case Read(c, size, nread, bytes) =>
      && c in m && m[c].Tcp? && m[c].reading && !m[c].closing && |bytes| <= size
      && (nread == -1 || nread == UV_EOF || nread == |bytes|)
    case Expire(t) => t in m && m[t].Timer? && m[t].armed && !m[t].closing
    case Start(w) => w in m && m[w].Work? && m[w].stage == Queued
    case Finish(w) => w in m && m[w].Work? && m[w].stage == Running
    case After(w) => w in m && m[w].Work? && m[w].stage == Finished
    case Written(w) => w in m && m[w].Write?
    case Closed(h) => h in m && Closing(m[h])
  }

  // ---------------------------------------------------- from state to state

  /** The server between callbacks. */
  datatype State = State(memory: Memory, owner: Owners, histories: Histories, next: Ptr)

  ghost predicate Sound(s: State) {
    && NULL !in s.owner && s.memory.Keys <= s.owner.Keys && (forall p | p in s.owner :: p < s.next)
    && AllHealthy(s.memory, s.owner, s.histories)
  }

  /** What an event changes that a history does not show: handles, and the stage of a work
      request. */
  ghost predicate Changed(m: Memory, owner: Owners, m': Memory, owner': Owners, h: History, e: Event, d: Ptr)
    requires Subject(e) in m && (e.Read? ==> e.nread <= |e.bytes|)
  {
    if e.Closed? then Closing(m[e.handle]) && m' == m - {e.handle} && owner' == owner
    else
      && d in m && m[d].Record?
      && (if NextHistory(h, e).closes > h.closes then HandlesClose(m, m', d)
          else HandlesGoOn(m, m', d, e.Expire? || e.After?))
      && (e.Start? || e.Finish? ==> LowerStage(m, m', d, e.work))
      && (e.Expire? && h.queuedAt != [] ==>
            && m[d].fields.timer == e.timer && m[e.timer].Timer? && m[e.timer].armed
            && m' == m[e.timer := Timer(d, false, false)] && owner' == owner)
  }

  ghost predicate LowerStage(m: Memory, m': Memory, d: Ptr, w: Ptr) {
    && d in m && m[d].Record? && m[d].fields.workReq == w && w in m && m[w].Work?
    && d in m' && m'[d].Record? && m'[d].fields.workReq == w && w in m' && m'[w].Work?
    && StageRank(m'[w].stage) < StageRank(m[w].stage)
  }

  /** What an event that is due makes of the state. */
  ghost predicate Next(s: State, e: Event, s': State)
    requires Due(s.memory, e)
  {
    && Sound(s) && Sound(s')
    && if e.Connect? then
         && s'.histories == (if e.status == -1 then s.histories
                             else s.histories[s.next := if e.accepted then EMPTY else Ended(EMPTY)])
         && Elsewhere(s.memory, s.owner, s'.memory, s'.owner, s.next)
       else
         && Subject(e) in s.owner
         && var d := s.owner[Subject(e)];
            && d in s.histories
            && Did(s.memory, s.owner, s.histories, s'.memory, s'.owner, s'.histories, d, NextHistory(s.histories[d], e))
            && Changed(s.memory, s.owner, s'.memory, s'.owner, s.histories[d], e, d)
  }

  /** The event acts on connection `r`. */
  ghost predicate About(s: State, e: Event, r: Ptr) {
    !e.Connect? && Subject(e) in s.owner && s.owner[Subject(e)] == r
  }

  /** A callback for connection `r`, not for a chunk that leaves its request incomplete. */
  ghost predicate Counts(s: State, e: Event, r: Ptr) {
    Due(s.memory, e) && About(s, e, r) && r in s.histories && !OnlyChunk(s.histories[r], e)
  }

  lemma RankStepIn(m: Memory, owner: Owners, h: History,
                   m': Memory, owner': Owners, h': History, e: Event, d: Ptr)
    requires Healthy(m, owner, d, h) && Healthy(m', owner', d, h') && NULL !in m
    requires !e.Connect? && Owns(m, owner, d, Subject(e)) && (e.Read? ==> e.nread <= |e.bytes|)
    requires h' == NextHistory(h, e) && Changed(m, owner, m', owner', h, e, d)
    ensures if OnlyChunk(h, e) then Rank(m', owner', d) == Rank(m, owner, d)
            else Rank(m', owner', d) < Rank(m, owner, d)
  {
    match e
    case Closed(p) =>
      EndedBefore(m, owner, d, h, p);
      HandleRank(m, owner, d, p);
    case Start(w) => WorkQueuedBefore(m, owner, h, d, w); StageRankFalls(m, owner, h, m', owner', d);
    case Finish(w) => WorkQueuedBefore(m, owner, h, d, w); StageRankFalls(m, owner, h, m', owner', d);
    case Expire(t) =>
      if h.queuedAt != [] {
        TimerRankFalls(m, owner, h, d);
      } else {
        RankFalls(m, owner, h, m', owner', h', d);
      }
    case Read(_, _, _, _) =>
      if OnlyChunk(h, e) {
        RankStays(m, owner, h, m', owner', h', d);
      } else {
        RankFalls(m, owner, h, m', owner', h', d);
      }
    case After(_) => RankFalls(m, owner, h, m', owner', h', d);
    case Written(_) => RankFalls(m, owner, h, m', owner', h', d);
    case Connect(_, _) =>
  }

  lemma WorkQueuedBefore(m: Memory, owner: Owners, h: History, d: Ptr, w: Ptr)
    requires Healthy(m, owner, d, h) && d in m && m[d].Record? && m[d].fields.workReq == w && w in m && NULL !in m
    ensures h.queuedAt != []
  {
  }

  /** Every callback but one for a chunk that leaves the request incomplete lowers the
      rank of its connection. */
  lemma RankStep(s: State, e: Event, s': State)
    requires Due(s.memory, e) && Next(s, e, s') && !e.Connect?
    ensures var d := s.owner[Subject(e)];
            var before, after := Rank(s.memory, s.owner, d), Rank(s'.memory, s'.owner, d);
            if OnlyChunk(s.histories[d], e) then after == before else after < before
  {
    var d := s.owner[Subject(e)];
    RankStepIn(s.memory, s.owner, s.histories[d], s'.memory, s'.owner, s'.histories[d], e, d);
  }

  lemma OtherRanks(s: State, e: Event, s': State, r: Ptr)
    requires Due(s.memory, e) && Next(s, e, s') && r in s.histories && !About(s, e, r)
    ensures Rank(s'.memory, s'.owner, r) == Rank(s.memory, s.owner, r)
  {
    var d := if e.Connect? then s.next else s.owner[Subject(e)];
    RankFramed(s.memory, s.owner, s'.memory, s'.owner, d, s.histories, r);
  }

  /** What the worker holds stays as it is, whatever else happens. */
  lemma WorkerUndisturbed(s: State, e: Event, s': State, r: Ptr)
    requires Due(s.memory, e) && Next(s, e, s') && r in s.histories
    requires r in s.memory && s.memory[r].Record? && Holder(s.memory, r) == Worker && !(OfWorker(e) && About(s, e, r))
    ensures Kept(s.memory, s'.memory, r)
  {
    if !About(s, e, r) {
      var d := if e.Connect? then s.next else s.owner[Subject(e)];
      OthersKept(s.memory, s.owner, s.histories, s'.memory, s'.owner, d, r);
    } else if e.Expire? {
      WorkStarted(s.memory, s.owner, s.histories, r);
      ExpiryKeeps(s.memory, s.owner, s.histories, r);
    } else {
      LoopHolds(s.memory, s.owner, s.histories, Subject(e));
    }
  }

  /** Between callbacks, what a connection that is not closed has, by its history. */
  lemma InBetween(s: State, r: Ptr)
    requires Sound(s) && r in s.histories && r in s.memory
    ensures s.memory[r].Record? && s.histories[r].closes == 0
    ensures var h, m, f := s.histories[r], s.memory, s.memory[r].fields;
            && f.client in m && m[f.client] == Tcp(r, h.queuedAt == [], false)
            && f.timer in m && m[f.timer].Timer? && m[f.timer].data == r && !m[f.timer].closing
            && (h.queuedAt == [] ==> m[f.timer].armed && h.sent == [])
            && (h.queuedAt == [] ==> f.workReq == NULL && f.response == NULL && f.writeReq == NULL)
            && (h.sent != [] ==> !m[f.timer].armed)
    ensures var h, m, f := s.histories[r], s.memory, s.memory[r].fields;
            h.queuedAt != [] ==>
              && f.workReq in m && m[f.workReq].Work? && m[f.workReq].data == r
              && var stage := m[f.workReq].stage;
                 && stage != Unqueued
                 && (stage == Queued || stage == Running ==> f.response == NULL)
                 && (stage == Finished || stage == Completed ==>
                       f.response in m && m[f.response] == Bytes(RESPONSE + [NUL]))
                 && (if stage == Completed then h.sent == [RESPONSE] && f.writeReq in m && m[f.writeReq] == Write(r)
                     else h.sent == [] && f.writeReq == NULL)
  {
    assert Healthy(s.memory, s.owner, r, s.histories[r]);
  }

  ghost predicate IsHandle(b: Block) {
    b.Tcp? || b.Timer?
  }

  /** A handle leaves the memory by its own close callback only. Until then a closing one
      stays as it is, and an open one changes with its own connection only: it begins to
      close when the connection ends, a client is read until the work is queued, and a
      timer runs until it expires or the response is sent. */
  lemma HandleAfter(s: State, e: Event, s': State, p: Ptr)
    requires Due(s.memory, e) && Next(s, e, s')
    requires p in s.memory && IsHandle(s.memory[p]) && e != Closed(p)
    ensures p in s'.memory && s.owner[p] in s.histories && s.owner[p] in s'.histories
    ensures var b, b', r := s.memory[p], s'.memory[p], s.owner[p];
            if Closing(b) || !About(s, e, r) then b' == b
            else if s'.histories[r].closes > s.histories[r].closes then
              b' == if b.Tcp? then Tcp(r, false, true) else Timer(r, false, true)
            else if b.Tcp? then b' == Tcp(r, s'.histories[r].queuedAt == [], false)
            else b' == Timer(r, b.armed && !e.Expire? && !e.After?, false)
  {
    var r := s.owner[p];
    if About(s, e, r) {
      var h, h' := s.histories[r], s'.histories[r];
      if Closing(s.memory[p]) {
        ClosingHandle(s.memory, s.owner, h, s'.memory, s'.owner, e, r, p);
      } else {
        OpenHandle(s.memory, s.owner, h, s'.memory, s'.owner, h', e, r, p);
      }
    }
  }

  lemma ClosingHandle(m: Memory, owner: Owners, h: History, m': Memory, owner': Owners, e: Event, r: Ptr, p: Ptr)
    requires Healthy(m, owner, r, h) && NULL !in m && Owns(m, owner, r, p) && Closing(m[p])
    requires Subject(e) in m && (e.Read? ==> e.nread <= |e.bytes|)
    requires Changed(m, owner, m', owner', h, e, r) && e != Closed(p)
    ensures p in m' && m'[p] == m[p]
  {
    EndedBefore(m, owner, r, h, p);
  }

  lemma OpenHandle(m: Memory, owner: Owners, h: History, m': Memory, owner': Owners, h': History, e: Event,
                   r: Ptr, p: Ptr)
    requires Healthy(m, owner, r, h) && Healthy(m', owner', r, h') && NULL !in m
    requires Owns(m, owner, r, p) && IsHandle(m[p]) && !Closing(m[p])
    requires Owns(m, owner, r, Subject(e)) && (e.Read? ==> e.nread <= |e.bytes|)
    requires h' == NextHistory(h, e) && Changed(m, owner, m', owner', h, e, r)
    ensures p in m'
    ensures m'[p] == if h'.closes > h.closes then (if m[p].Tcp? then Tcp(r, false, true) else Timer(r, false, true))
                     else if m[p].Tcp? then Tcp(r, h'.queuedAt == [], false)
                     else Timer(r, m[p].armed && !e.Expire? && !e.After?, false)
  {
    FoundIn(m, owner, r, h, p);
    if e.Closed? {
      EndedBefore(m, owner, r, h, e.handle);
    }
  }

  /** What an event does to the history of its connection, from the event alone. */
  lemma HistoryAfter(s: State, e: Event, s': State, r: Ptr)
    requires Due(s.memory, e) && Next(s, e, s') && About(s, e, r)
    ensures r in s.histories && r in s'.histories
    ensures var h, h' := s.histories[r], s'.histories[r];
            match e
            case Connect(_, _) => true
            case Read(_, _, nread, bytes) =>
              if nread < 0 then h' == h.(closes := h.closes + 1)
              else
                && h'.received == h.received + [bytes] && h'.sent == h.sent && h'.closes == h.closes
                && h'.queuedAt == h.queuedAt + if HasLineEnd(Concat(h'.received)) then [|h'.received|] else []
            case Expire(_) => h' == if h.queuedAt == [] then h.(closes := h.closes + 1) else h
            case After(_) => h' == h.(sent := h.sent + [RESPONSE])
            case Written(_) => h' == h.(closes := h.closes + 1)
            case _ => h' == h
  {
    CompleteIff(Concat(s'.histories[r].received));
    if e.Read? && e.nread >= 0 {
      assert e.bytes[..e.nread] == e.bytes;
    }
  }

  /** And to the others: nothing, but that a new one comes up open or closed already. */
  lemma OthersAfter(s: State, e: Event, s': State, r: Ptr)
    requires Due(s.memory, e) && Next(s, e, s') && !About(s, e, r)
    ensures r in s.histories ==> r in s'.histories && s'.histories[r] == s.histories[r]
    ensures r !in s.histories && r in s'.histories ==>
              && e.Connect? && e.status != -1
              && s'.histories[r] == History([], [], [], if e.accepted then 0 else 1)
  {
  }

  /** A callback that counts, for a connection with anything allocated. */
  lemma CallbackDue(s: State, p: Ptr) returns (e: Event)
    requires Sound(s) && p in s.memory
    ensures Counts(s, e, s.owner[p])
  {
    var r := s.owner[p];
    assert Healthy(s.memory, s.owner, r, s.histories[r]) && Owns(s.memory, s.owner, r, p);
    if r !in s.memory {
      e := Closed(p);
    } else {
      var f := s.memory[r].fields;
      if f.workStarted {
        e := WorkDue(s, r, f);
      } else {
        e := Read(f.client, 0, -1, "");
      }
    }
  }

  lemma WorkDue(s: State, r: Ptr, f: Fields) returns (e: Event)
    requires Sound(s) && r in s.histories && s.histories[r].closes == 0
    requires Serving(s.memory, s.owner, r, f, s.histories[r].received, s.histories[r].sent)
    ensures Counts(s, e, r)
  {
    match s.memory[f.workReq].stage {
      case Queued => e := Start(f.workReq);
      case Running => e := Finish(f.workReq);
      case Finished => e := After(f.workReq);
      case Completed => e := Written(f.writeReq);
    }
  }

  // ------------------------------------------------------------ whole runs

  /** An event that is offered when it is not due changes nothing. */
  ghost predicate Turn(s: State, e: Event, s': State) {
    if Due(s.memory, e) then Next(s, e, s') else s' == s
  }

  ghost predicate RunOf(states: seq<State>, events: seq<Event>) {
    && |states| == |events| + 1 && Sound(states[0])
    && forall i | 0 <= i < |events| :: Turn(states[i], events[i], states[i + 1])
  }

  lemma RunFurther(states: seq<State>, events: seq<Event>, i: nat, s': State)
    requires i < |events| && RunOf(states, events[..i]) && Turn(states[i], events[i], s')
    ensures RunOf(states + [s'], events[..i + 1])
  {
  }

  /** The number of such callbacks among the first `k` events of a run. */
  ghost function Callbacks(states: seq<State>, events: seq<Event>, k: nat, r: Ptr): nat
    requires k <= |events| < |states|
  {
    if k == 0 then 0
    else Callbacks(states, events, k - 1, r) + if Counts(states[k - 1], events[k - 1], r) then 1 else 0
  }

  /** How many are still to come at most, for a connection that has come up or not. */
  ghost function Budget(s: State, r: Ptr): nat {
    if r in s.histories then Rank(s.memory, s.owner, r) else MOST_CALLBACKS
  }

  lemma BudgetBounded(s: State, r: Ptr)
    requires Sound(s)
    ensures Budget(s, r) <= MOST_CALLBACKS
  {
    if r in s.histories {
      RankBound(s.memory, s.owner, s.histories, r);
    }
  }

  /** A callback that counts takes from the budget of its own connection, and no event
      adds to any budget. */
  lemma NextSpends(s: State, e: Event, s': State, r: Ptr)
    requires Due(s.memory, e) && Next(s, e, s')
    ensures (if Counts(s, e, r) then 1 else 0) + Budget(s', r) <= Budget(s, r)
  {
    if About(s, e, r) {
      RankStep(s, e, s');
    } else if r in s.histories {
      OtherRanks(s, e, s', r);
    } else {
      BudgetBounded(s', r);
    }
  }

  lemma TurnSpends(s: State, e: Event, s': State, r: Ptr)
    requires Sound(s) && Turn(s, e, s')
    ensures Sound(s') && (if Counts(s, e, r) then 1 else 0) + Budget(s', r) <= Budget(s, r)
  {
    if Due(s.memory, e) {
      NextSpends(s, e, s', r);
    }
  }

  /** Over any run, what a connection was called for and what it may still be called for
      stay within what it could be called for at the start. */
  lemma {:induction false} CallbacksCounted(states: seq<State>, events: seq<Event>, k: nat, r: Ptr)
    requires RunOf(states, events) && k <= |events|
    ensures Sound(states[k]) && Callbacks(states, events, k, r) + Budget(states[k], r) <= Budget(states[0], r)
  {
    if k > 0 {
      CallbacksCounted(states, events, k - 1, r);
      TurnSpends(states[k - 1], events[k - 1], states[k], r);
    }
  }

  /** No connection, be it there at the start or come up on the way, is ever called more
      than `MOST_CALLBACKS` times, chunks that leave its request incomplete aside. */
  lemma CallbacksBounded(states: seq<State>, events: seq<Event>, k: nat, r: Ptr)
    requires RunOf(states, events) && k <= |events|
    ensures Callbacks(states, events, k, r) <= MOST_CALLBACKS
  {
    CallbacksCounted(states, events, k, r);
    BudgetBounded(states[0], r);
  }

  /** A handle that was there and is gone was closed first, and its close callback came. */
  lemma {:induction false} GoneWhenClosed(states: seq<State>, events: seq<Event>, i: nat, k: nat, p: Ptr)
    requires RunOf(states, events) && i <= k <= |events|
    requires p in states[i].memory && IsHandle(states[i].memory[p])
    ensures p in states[k].memory
         || exists j :: i <= j < k && events[j] == Closed(p) && p in states[j].memory && Closing(states[j].memory[p])
    decreases k - i
  {
    if i < k {
      var s, e, s' := states[i], events[i], states[i + 1];
      assert Turn(s, e, s');
      if Due(s.memory, e) && e == Closed(p) {
      } else {
        if Due(s.memory, e) {
          HandleAfter(s, e, s', p);
        }
        GoneWhenClosed(states, events, i + 1, k, p);
      }
    }
  }

  /** The bytes that an event brings for connection `r`. */
  ghost function Payload(s: State, e: Event, r: Ptr): string {
    if e.Read? && e.nread >= 0 && Due(s.memory, e) && About(s, e, r) then e.bytes else ""
  }

  /** Those of the first `k` events of a run, in order. */
  ghost function Delivered(states: seq<State>, events: seq<Event>, k: nat, r: Ptr): string
    requires k <= |events| < |states|
  {
    Concat(seq(k, i requires 0 <= i < k => Payload(states[i], events[i], r)))
  }

  /** The text of a connection, which is empty before it comes up. */
  ghost function TextOf(s: State, r: Ptr): string {
    if r in s.histories then Concat(s.histories[r].received) else ""
  }

  lemma TurnDelivers(s: State, e: Event, s': State, r: Ptr)
    requires Sound(s) && Turn(s, e, s')
    ensures Sound(s') && TextOf(s', r) == TextOf(s, r) + Payload(s, e, r)
  {
    if Due(s.memory, e) {
      if About(s, e, r) {
        HistoryAfter(s, e, s', r);
        if e.Read? && e.nread >= 0 {
          ConcatSnoc(s.histories[r].received, e.bytes);
        }
      } else {
        OthersAfter(s, e, s', r);
      }
    }
  }

  lemma DeliveredFurther(states: seq<State>, events: seq<Event>, i: nat, r: Ptr)
    requires RunOf(states, events) && i < |events|
    ensures TextOf(states[i + 1], r) == TextOf(states[i], r) + Payload(states[i], events[i], r)
  {
    CallbacksCounted(states, events, i, r);
    TurnDelivers(states[i], events[i], states[i + 1], r);
  }

  /** No byte is lost, none is added, and none comes out of order. */
  lemma TextDelivered(states: seq<State>, events: seq<Event>, k: nat, r: Ptr)
    requires RunOf(states, events) && k <= |events|
    ensures TextOf(states[k], r) == TextOf(states[0], r) + Delivered(states, events, k, r)
  {
    var texts := seq(k + 1, i requires 0 <= i <= k => TextOf(states[i], r));
    var parts := seq(k, i requires 0 <= i < k => Payload(states[i], events[i], r));
    forall i | 0 <= i < k
      ensures texts[i + 1] == texts[i] + parts[i]
    {
      DeliveredFurther(states, events, i, r);
    }
    PartsConcat(texts, parts, k);
    assert parts[..k] == parts;
  }

  /** A connection that comes up during a run, by what is read for it: the work is queued
      exactly if a line end has been delivered, and once it is closed it has had the one
      reply exactly in that case. */
  lemma Served(states: seq<State>, events: seq<Event>, k: nat, r: Ptr)
    requires RunOf(states, events) && k <= |events|
    requires r !in states[0].histories && r in states[k].histories
    ensures var h, lineEnd := states[k].histories[r], HasLineEnd(Delivered(states, events, k, r));
            && Concat(h.received) == Delivered(states, events, k, r)
            && (h.queuedAt != [] <==> lineEnd) && |h.queuedAt| <= 1
            && h.closes <= 1 && (h.closes == 0 <==> r in states[k].memory)
            && (h.closes == 1 ==> h.sent == if lineEnd then [RESPONSE] else [])
  {
    var s := states[k];
    TextDelivered(states, events, k, r);
    CallbacksCounted(states, events, k, r);
    ConnectionServed(s.memory, s.owner, s.histories, r);
    var h := s.histories[r];
    assert |h.sent| == 1 ==> h.sent[0] in h.sent && h.sent == [h.sent[0]];
  }

  /** A history goes on: nothing received, queued, sent or closed is taken back. */
  ghost predicate Grows(h: History, h': History) {
    h.received <= h'.received && h.queuedAt <= h'.queuedAt && h.sent <= h'.sent && h.closes <= h'.closes
  }

  ghost predicate AllGrow(hs: Histories, hs': Histories) {
    forall r | r in hs :: r in hs' && Grows(hs[r], hs'[r])
  }

  lemma NextGrows(s: State, e: Event, s': State)
    requires Due(s.memory, e) && Next(s, e, s')
    ensures AllGrow(s.histories, s'.histories)
  {
    assert e.Connect? && e.status != -1 ==> s.next !in s.histories;
  }

  lemma {:induction false} RunGrows(states: seq<State>, events: seq<Event>, k: nat)
    requires RunOf(states, events) && k <= |events|
    ensures AllGrow(states[0].histories, states[k].histories)
  {
    if k > 0 {
      RunGrows(states, events, k - 1);
      if Due(states[k - 1].memory, events[k - 1]) {
        NextGrows(states[k - 1], events[k - 1], states[k]);
      }
    }
  }

  // ------------------------------------------------------------ the server

  lemma ResponseSeen()
    ensures CString(RESPONSE + [NUL]) == RESPONSE
  {
    assert NUL !in STATUS && NUL !in HEADER && NUL !in BODY;
    CStringOf(RESPONSE);
  }

  class Server {
    var memory: Memory
    var next: Ptr
    ghost var owner: Owners
    ghost var freed: set<Ptr>
    ghost var histories: Histories

    /** Whatever was allocated is either in use or was freed. */
    ghost predicate Heap()
      reads this
    {
      && NULL !in owner && 1 <= next
      && (forall p | p in owner :: p < next)
      && memory.Keys !! freed && owner.Keys == memory.Keys + freed
    }

    ghost predicate Valid()
      reads this
    {
      Heap() && AllHealthy(memory, owner, histories)
    }

    ghost predicate Live(d: Ptr)
      reads this
    {
      d in memory && memory[d].Record?
    }

    constructor ()
      ensures Valid() && memory == map[] && histories == map[]
    {
      memory, next := map[], 1;
      owner, freed, histories := map[], {}, map[];
    }

    // ------------------------------------------------------------- memory

    method Malloc(b: Block, ghost r: Ptr) returns (p: Ptr)
      requires Heap()
      modifies this
      ensures Heap() && p == old(next) && p !in old(owner) && p != NULL
      ensures memory == old(memory)[p := b]
      ensures owner == old(owner)[p := if r == NULL then p else r]
      ensures histories == old(histories)
    {
      p := next;
      next := next + 1;
      memory := memory[p := b];
      owner := owner[p := if r == NULL then p else r];
    }

    method Free(p: Ptr)
      requires Heap() && p in memory
      modifies this
      ensures Heap() && memory == old(memory) - {p}
      ensures next == old(next) && owner == old(owner) && histories == old(histories)
    {
      memory := memory - {p};
      freed := freed + {p};
    }

    method Put(p: Ptr, b: Block)
      requires Heap() && p in memory
      modifies this
      ensures Heap() && memory == old(memory)[p := b]
      ensures next == old(next) && owner == old(owner) && histories == old(histories)
    {
      memory := memory[p := b];
    }

    /** `if (p) free(p)`. */
    method FreeUnlessNull(p: Ptr)
      requires Heap() && (p == NULL || p in memory)
      modifies this
      ensures Heap() && memory == old(memory) - {p}
      ensures next == old(next) && owner == old(owner) && histories == old(histories)
    {
      if p != NULL {
        Free(p);
      }
    }

    // ------------------------------------------- shared with the worker thread

    method Text(d: Ptr, ghost user: Thread) returns (p: Ptr)
      requires Live(d) && user == Holder(memory, d)
      ensures p == memory[d].fields.text
    {
      p := memory[d].fields.text;
    }

    method Response(d: Ptr, ghost user: Thread) returns (p: Ptr)
      requires Live(d) && user == Holder(memory, d)
      ensures p == memory[d].fields.response
    {
      p := memory[d].fields.response;
    }

    method SetResponse(d: Ptr, p: Ptr, ghost user: Thread)
      requires Heap() && Live(d) && user == Holder(memory, d)
      modifies this
      ensures Heap() && memory == old(memory)[d := Record(old(memory)[d].fields.(response := p))]
      ensures next == old(next) && owner == old(owner) && histories == old(histories)
    {
      Put(d, Record(memory[d].fields.(response := p)));
    }

    // --------------------------------------------------------------- libuv

    /** `if (handle) uv_close(handle, on_close_free)`. */
    method UvCloseUnlessNull(handle: Ptr)
      requires Heap()
      requires handle == NULL
            || (handle in memory && (memory[handle].Tcp? || memory[handle].Timer?) && !memory[handle].closing)
      modifies this
      ensures Heap() && next == old(next) && owner == old(owner) && histories == old(histories)
      ensures memory == Shutting(old(memory), handle)
    {
      if handle != NULL {
        var b := memory[handle];
        Put(handle, if b.Tcp? then Tcp(b.data, false, true) else Timer(b.data, false, true));
      }
    }

    method TimerStop(timer: Ptr)
      requires Heap() && timer in memory && memory[timer].Timer?
      modifies this
      ensures Heap() && next == old(next) && owner == old(owner) && histories == old(histories)
      ensures var b := old(memory)[timer]; memory == old(memory)[timer := Timer(b.data, false, b.closing)]
    {
      Put(timer, Timer(memory[timer].data, false, memory[timer].closing));
    }

    // ----------------------------------------------------------- callbacks

    /** `close_data`, as far as handles and requests go. */
    method Release(d: Ptr)
      requires Heap() && Live(d) && Closable(memory, d, memory[d].fields)
      modifies this
      ensures Heap() && owner == old(owner) && histories == old(histories)
      ensures memory == Released(old(memory), old(memory)[d].fields)
    {
      var f := memory[d].fields;
      UvCloseUnlessNull(f.client);
      FreeUnlessNull(f.workReq);
      FreeUnlessNull(f.writeReq);
      UvCloseUnlessNull(f.timer);
    }

    /** `close_data`. */
    method CloseData(d: Ptr)
      requires Heap() && Live(d) && Closable(memory, d, memory[d].fields) && d in histories
      modifies this
      ensures Heap() && owner == old(owner)
      ensures memory == Cleared(old(memory), d, old(memory)[d].fields)
      ensures ClosedData(old(memory), d, old(memory)[d].fields, memory)
      ensures histories == old(histories)[d := Ended(old(histories)[d])]
    {
      ghost var m, f := memory, memory[d].fields;
      ReleasedRest(m, d, f);
      Release(d);
      var text := Text(d, Loop);
      FreeUnlessNull(text);
      var response := Response(d, Loop);
      FreeUnlessNull(response);
      Free(d);
      assert memory == Cleared(m, d, f);
      ClearedIs(m, d, f);
      histories := histories[d := Ended(histories[d])];
    }

    /** `on_close_free`. */
    method OnCloseFree(handle: Ptr)
      requires Valid() && handle in memory && Closing(memory[handle])
      modifies this
      ensures Valid() && memory == old(memory) - {handle} && histories == old(histories)
      ensures owner == old(owner) && Elsewhere(old(memory), old(owner), memory, owner, old(owner)[handle])
    {
      HandleFreed(memory, owner, histories, handle);
      Free(handle);
    }

    /** `on_write_end`. */
    method OnWriteEnd(req: Ptr)
      requires Valid() && req in memory && memory[req].Write?
      modifies this
      ensures Valid()
      ensures var d := old(memory)[req].data;
              && old(Live(d)) && d in old(histories)
              && histories == old(histories)[d := Ended(old(histories)[d])] && d !in memory
              && Elsewhere(old(memory), old(owner), memory, owner, d) && HandlesClose(old(memory), memory, d)
    {
      Found(memory, owner, histories, req);
      var d := memory[req].data;
      Ends(memory, owner, histories, d);
      CloseData(d);
    }

    /** `client_timeout_cb`. */
    method ClientTimeoutCb(timer: Ptr)
      requires Valid() && timer in memory && memory[timer].Timer? && memory[timer].armed && !memory[timer].closing
      modifies this
      ensures Valid() && owner == old(owner)
      ensures var d := old(memory)[timer].data;
              && old(Live(d)) && d in old(histories) && Elsewhere(old(memory), old(owner), memory, owner, d) &&
              if old(memory)[d].fields.workStarted
              then memory == old(memory)[timer := Timer(d, false, false)] && histories == old(histories)
              else HandlesClose(old(memory), memory, d) && histories == old(histories)[d := Ended(old(histories)[d])]
    {
      Found(memory, owner, histories, timer);
      var d := memory[timer].data;
      ghost var m, hs := memory, histories;
      TimerStop(timer);
      if memory[d].fields.workStarted {
        AllTimerStopped(m, owner, hs, d);
        return;
      }
      StoppedEnds(m, owner, hs, d);
      CloseData(d);
    }

    /** `process_command`, up to its use of the text. */
    method ReadRequest(req: Ptr) returns (raw: string)
      requires Valid() && req in memory && memory[req].Work? && memory[req].stage == Running
      ensures var d := memory[req].data;
              && d in histories && Complete(Concat(histories[d].received))
              && raw == CString(Concat(histories[d].received))
    {
      Found(memory, owner, histories, req);
      var d := memory[req].data;
      WorkStarted(memory, owner, histories, d);
      CStringGrows(Concat(histories[d].received), []);
      var text := Text(d, Worker);
      raw := CString(memory[text].content);
    }

    /** `process_command`, its store of the response. */
    method StoreResponse(req: Ptr)
      requires Valid() && req in memory && memory[req].Work? && memory[req].stage == Running
      modifies this
      ensures Heap() && histories == old(histories) && Fresh(old(memory), old(owner), old(next))
      ensures var p, d := old(next), old(memory)[req].data;
              && old(Live(d)) && owner == old(owner)[p := d]
              && memory == old(memory)[p := Bytes(RESPONSE + [NUL])]
                                      [d := Record(old(memory)[d].fields.(response := p))]
    {
      Found(memory, owner, histories, req);
      var d := memory[req].data;
      var p := Malloc(Bytes(RESPONSE + [NUL]), d);
      SetResponse(d, p, Worker);
    }

    /** The part of `after_process_command` that sets up the write request. */
    method BeginWrite(d: Ptr, ghost m: Memory)
      requires Heap() && d in m && m[d].Record? && d != NULL
      requires var f := m[d].fields;
               && f.workReq in m && m[f.workReq].Work? && memory == m[f.workReq := Work(d, Completed)]
               && f.timer in m && m[f.timer].Timer? && m[f.timer].data == d && !m[f.timer].closing
      modifies this
      ensures Heap() && Fresh(m, old(owner), old(next)) && histories == old(histories)
      ensures memory == Writing(m, d, old(next)) && owner == old(owner)[old(next) := d]
    {
      var w := Malloc(Write(d), d);
      Put(d, Record(memory[d].fields.(writeReq := w)));
      TimerStop(memory[d].fields.timer);
    }

    /** `after_process_command`; the memory `m` is that before the loop took the request
        back from the worker. */
    method AfterProcessCommand(req: Ptr, ghost m: Memory)
      requires Heap() && req in m && m[req].Work? && m[req].stage == Finished
      requires AllHealthy(m, owner, histories) && memory == m[req := Work(m[req].data, Completed)]
      modifies this
      ensures Valid()
      ensures var d := m[req].data;
              && d in old(histories) && histories == old(histories)[d := Replied(old(histories)[d], RESPONSE)]
              && Elsewhere(m, old(owner), memory, owner, d)
              && d in m && m[d].Record? && HandlesGoOn(m, memory, d, true)
    {
      ghost var o, hs := owner, histories;
      Found(m, o, hs, req);
      var d := memory[req].data;
      WorkAnswered(m, o, hs, d);
      WorkStarted(m, o, hs, d);
      var response := Response(d, Loop);
      ghost var text := CString(memory[response].content);
      ResponseSeen();
      ghost var w := next;
      BeginWrite(d, m);
      histories := histories[d := Replied(histories[d], text)];
      AllWriteBegun(m, o, hs, d, w);
    }

    /** `malloc` and `realloc` of character buffers: what is not copied is anything. */
    method MallocBytes(n: nat, ghost r: Ptr) returns (p: Ptr, content: string)
      requires Heap() && r != NULL
      modifies this
      ensures Heap() && p == old(next) && Fresh(old(memory), old(owner), p) && |content| == n
      ensures memory == old(memory)[p := Bytes(content)] && owner == old(owner)[p := r]
      ensures histories == old(histories)
    {
      content := seq(n, _ => NUL);
      p := Malloc(Bytes(content), r);
    }

    method Realloc(q: Ptr, n: nat, ghost r: Ptr) returns (p: Ptr, content: string)
      requires Heap() && q in memory && memory[q].Bytes? && r != NULL
      modifies this
      ensures Heap() && p == old(next) && Fresh(old(memory), old(owner), p) && |content| == n
      ensures forall i | 0 <= i < n && i < |old(memory)[q].content| :: content[i] == old(memory)[q].content[i]
      ensures memory == (old(memory) - {q})[p := Bytes(content)] && owner == old(owner)[p := r]
      ensures histories == old(histories)
    {
      var was := memory[q].content;
      Free(q);
      p, content := MallocBytes(n, r);
      content := if n <= |was| then was[..n] else was + content[|was|..];
      Put(p, Bytes(content));
    }

    /** The part of `read_cb` that puts a chunk behind the text. */
    method StoreChunk(d: Ptr, chunk: string, ghost text: string)
      requires Heap() && Live(d) && Holder(memory, d) == Loop && d in owner && owner[d] == d && d != NULL
      requires var f := memory[d].fields;
               && f.textLen == |text| && (f.text == NULL ==> text == "")
               && (f.text != NULL ==> f.text in memory && memory[f.text] == Bytes(text + [NUL]))
      modifies this
      ensures Heap() && histories == old(histories) && Fresh(old(memory), old(owner), old(next))
      ensures memory == Stored(old(memory), d, old(next), text + chunk)
      ensures owner == old(owner)[old(next) := d]
    {
      var nread := |chunk|;
      var f := memory[d].fields;
      var oldText := Text(d, Loop);
      if oldText == NULL {
        var p, content := MallocBytes(nread + 1, d);
        content := chunk + content[nread..];
        content := content[nread := NUL];
        assert content == text + chunk + [NUL];
        Put(p, Bytes(content));
        Put(d, Record(f.(text := p, textLen := nread)));
      } else {
        var tmp, content := Realloc(oldText, f.textLen + nread + 1, d);
        content := content[..f.textLen] + chunk + content[f.textLen + nread..];
        content := content[f.textLen + nread := NUL];
        assert content == text + chunk + [NUL];
        Put(tmp, Bytes(content));
        Put(d, Record(f.(text := tmp, textLen := f.textLen + nread)));
      }
    }

    /** The part of `read_cb` that hands the connection to the worker. */
    method QueueWork(d: Ptr)
      requires Heap() && Live(d) && d in histories && d != NULL && memory[d].fields.client in memory
      modifies this
      ensures Heap() && Fresh(old(memory), old(owner), old(next)) && owner == old(owner)[old(next) := d]
      ensures memory == Queueing(old(memory), d, old(next))
      ensures histories == old(histories)[d := Submitted(old(histories)[d])]
    {
      var f := memory[d].fields;
      var w := Malloc(Work(d, Unqueued), d);
      Put(d, Record(f.(workReq := w, workStarted := true)));
      Put(f.client, Tcp(d, false, false));
      Put(w, Work(d, Queued));
      histories := histories[d := Submitted(histories[d])];
    }

    /** `alloc_buffer`; libuv then puts the bytes it has read at its start. */
    method AllocBuffer(handle: Ptr, size: nat) returns (buf: Ptr)
      requires Heap() && handle in memory && memory[handle].Tcp? && memory[handle].data != NULL
      modifies this
      ensures Heap() && buf == old(next) && Fresh(old(memory), old(owner), buf)
      ensures memory == old(memory)[buf := Bytes(seq(size, _ => NUL))]
      ensures owner == old(owner)[buf := old(memory)[handle].data] && histories == old(histories)
    {
      buf := Malloc(Bytes(seq(size, _ => NUL)), memory[handle].data);
    }

    /** `m`, and a buffer at `buf` for the connection of `d`, which is being read. */
    ghost predicate Buffered(m: Memory, d: Ptr, buf: Ptr)
      reads this
    {
      && Heap() && AllHealthy(m, owner, histories) && m.Keys <= owner.Keys && NULL !in m
      && d in m && m[d].Record? && d in histories
      && m[d].fields.client in m && m[m[d].fields.client] == Tcp(d, true, false)
      && buf !in m && buf in memory && memory[buf].Bytes? && memory == m[buf := memory[buf]]
    }

    /** `read_cb` at the end of the stream. */
    method ReadEnd(d: Ptr, buf: Ptr, ghost m: Memory)
      requires Buffered(m, d, buf)
      modifies this
      ensures Valid() && HandlesClose(m, memory, d) && histories == old(histories)[d := Ended(old(histories)[d])]
      ensures Elsewhere(m, old(owner), memory, owner, d)
    {
      StillReading(m, owner, histories, d);
      Free(buf);
      assert memory == m;
      TimerStop(memory[d].fields.timer);
      StoppedEnds(m, owner, histories, d);
      CloseData(d);
    }

    /** The part of `read_cb` that takes over `nread` bytes from the buffer and frees it. */
    method TakeChunk(d: Ptr, nread: nat, buf: Ptr, ghost m: Memory)
      requires Buffered(m, d, buf) && nread <= |memory[buf].content|
      modifies this
      ensures Heap() && Fresh(m, old(owner), old(next)) && owner == old(owner)[old(next) := d]
      ensures var h := Received(old(histories)[d], old(memory)[buf].content[..nread]);
              && memory == Stored(m, d, old(next), Concat(h.received))
              && Concat(h.received) == Concat(old(histories)[d].received) + old(memory)[buf].content[..nread]
              && histories == old(histories)[d := h]
    {
      ghost var text, buffer, p := Concat(histories[d].received), memory[buf], next;
      StillReading(m, owner, histories, d);
      var chunk := memory[buf].content[..nread];
      ConcatSnoc(histories[d].received, chunk);
      StoreChunk(d, chunk, text);
      Free(buf);
      BufferFreed(m, d, p, text + chunk, buf, buffer);
      histories := histories[d := Received(histories[d], chunk)];
    }

    /** The test of `read_cb` on the text so far. */
    method Ready(d: Ptr, ghost text: string) returns (ready: bool)
      requires Live(d) && Holder(memory, d) == Loop
      requires var f := memory[d].fields;
               && !f.workStarted && f.textLen == |text|
               && f.text in memory && memory[f.text] == Bytes(text + [NUL])
      ensures ready <==> Complete(text)
      ensures ready <==> HasLineEnd(text)
    {
      var f := memory[d].fields;
      var stored := Text(d, Loop);
      var s := CString(memory[stored].content);
      CStringGrows(text, []);
      CompleteIff(text);
      ready := !f.workStarted && f.textLen != 0 && (Has(s, "\r\n") || Has(s, "\n\n"));
    }

    /** `read_cb` with `nread` bytes in the buffer. */
    method ReadChunk(d: Ptr, nread: nat, buf: Ptr, ghost m: Memory)
      requires Buffered(m, d, buf) && nread <= |memory[buf].content|
      modifies this
      ensures Valid()
      ensures var h := Received(old(histories)[d], old(memory)[buf].content[..nread]);
              histories == old(histories)[d := if Complete(Concat(h.received)) then Submitted(h) else h]
      ensures Elsewhere(m, old(owner), memory, owner, d) && HandlesGoOn(m, memory, d, false)
    {
      ghost var o, hs, p, chunk := owner, histories, next, memory[buf].content[..nread];
      ghost var h := Received(hs[d], chunk);
      StillReading(m, o, hs, d);
      TakeChunk(d, nread, buf, m);
      var ready := Ready(d, Concat(h.received));
      if ready {
        ghost var w := next;
        QueueWork(d);
        assert histories == hs[d := Submitted(h)];
        AllChunkQueued(m, o, hs, d, p, h, w);
      } else {
        AllChunkStored(m, o, hs, d, p, h);
      }
    }

    /** `read_cb`. */
    method ReadCb(stream: Ptr, nread: int, buf: Ptr, ghost m: Memory)
      requires Heap() && AllHealthy(m, owner, histories)
      requires stream in m && m[stream].Tcp? && m[stream].reading && !m[stream].closing
      requires buf !in m && buf in memory && memory[buf].Bytes? && memory == m[buf := memory[buf]]
      requires nread <= |memory[buf].content| && (nread == -1 || nread == UV_EOF || nread >= 0)
      modifies this
      ensures Valid()
      ensures var d := m[stream].data;
              && d in old(histories) && Elsewhere(m, old(owner), memory, owner, d)
              && histories == old(histories)[d := AfterRead(old(histories)[d], nread, old(memory)[buf].content)]
              && d in m && m[d].Record?
              && (if nread < 0 then HandlesClose(m, memory, d) else HandlesGoOn(m, memory, d, false))
              && var h, h' := old(histories)[d], histories[d];
                 if nread < 0 then h'.received == h.received && h'.closes == h.closes + 1
                 else h'.received == h.received + [old(memory)[buf].content[..nread]] && h'.closes == h.closes
    {
      assert m.Keys <= memory.Keys;
      Found(m, owner, histories, stream);
      var d := memory[stream].data;
      if nread == -1 || nread == UV_EOF {
        ReadEnd(d, buf, m);
      } else {
        ReadChunk(d, nread, buf, m);
      }
    }

    /** `connection_cb`; `uv_accept` succeeds or fails. */
    method ConnectionCb(status: int, accepted: bool)
      requires Valid()
      modifies this
      ensures Valid() && old(next) !in old(histories)
      ensures histories == if status == -1 then old(histories)
                           else old(histories)[old(next) := if accepted then EMPTY else Ended(EMPTY)]
      ensures status != -1 ==> (accepted <==> old(next) in memory)
      ensures Elsewhere(old(memory), old(owner), memory, owner, old(next))
    {
      if status == -1 {
        return;
      }
      ghost var m, o, hs := memory, owner, histories;
      var d := Malloc(Record(NewFields(NULL, NULL)), NULL);
      histories := histories[d := EMPTY];
      var client := Malloc(Tcp(d, false, false), d);
      Put(d, Record(memory[d].fields.(client := client)));
      if accepted {
        var timer := Malloc(Timer(d, false, false), d);
        Put(d, Record(memory[d].fields.(timer := timer)));
        Put(timer, Timer(d, true, false));
        Put(client, Tcp(d, true, false));
        AllUp(m, o, hs, d, client, timer);
      } else {
        CloseData(d);
        assert histories == hs[d := Ended(EMPTY)];
        AllRefused(m, o, hs, d, client);
      }
    }

    // -------------------------------------------------------- the event loop

    predicate Enabled(e: Event)
      reads this
    {
      Due(memory, e)
    }

    ghost function Now(): State
      reads this
    {
      State(memory, owner, histories, next)
    }

    /** A read: a buffer, the bytes in it, and the callback. */
    method StepRead(c: Ptr, size: nat, nread: int, bytes: string)
      requires Valid() && Enabled(Read(c, size, nread, bytes))
      modifies this
      ensures Valid() && Next(old(Now()), Read(c, size, nread, bytes), Now())
    {
      ghost var m, o := memory, owner;
      Found(memory, owner, histories, c);
      ghost var d := memory[c].data;
      var buf := AllocBuffer(c, size);
      AllBuffered(m, o, histories, d, buf);
      var buffer := bytes + memory[buf].content[|bytes|..];
      Put(buf, Bytes(buffer));
      SameRead(histories[d], nread, buffer, bytes);
      ReadCb(c, nread, buf, m);
      ElsewhereBuffered(m, o, memory, owner, d, buf);
    }

    /** A worker thread takes the request up. */
    method StepStart(w: Ptr)
      requires Valid() && Enabled(Start(w))
      modifies this
      ensures Valid() && Next(old(Now()), Start(w), Now())
      ensures var d := old(memory)[w].data;
              Live(d) && memory[d].fields.workReq == w && w in memory && memory[w] == Work(d, Running)
    {
      Found(memory, owner, histories, w);
      var d := memory[w].data;
      AllWorkBegun(memory, owner, histories, d);
      Put(w, Work(d, Running));
      var raw := ReadRequest(w);
    }

    /** The worker thread is done with it. */
    method StepFinish(w: Ptr)
      requires Valid() && Enabled(Finish(w))
      modifies this
      ensures Valid() && Next(old(Now()), Finish(w), Now())
      ensures var d := old(memory)[w].data;
              Live(d) && memory[d].fields.workReq == w && w in memory && memory[w] == Work(d, Finished)
    {
      Found(memory, owner, histories, w);
      var d := memory[w].data;
      AllWorkDone(memory, owner, histories, d, next);
      StoreResponse(w);
      Put(w, Work(d, Finished));
    }

    /** The loop takes the request back from the worker. */
    method StepAfter(w: Ptr)
      requires Valid() && Enabled(After(w))
      modifies this
      ensures Valid() && Next(old(Now()), After(w), Now())
    {
      ghost var m := memory;
      Found(m, owner, histories, w);
      var d := memory[w].data;
      Put(w, Work(d, Completed));
      AfterProcessCommand(w, m);
    }

    /** The callback of one event. */
    method Handle(e: Event)
      requires Valid() && Enabled(e)
      modifies this
      ensures Valid() && Next(old(Now()), e, Now())
    {
      ghost var m, o, hs, p := memory, owner, histories, Subject(e);
      if e.Expire? || e.Written? {
        Found(m, o, hs, p);
      }
      match e {
        case Connect(status, accepted) => ConnectionCb(status, accepted);
        case Read(c, size, nread, bytes) => StepRead(c, size, nread, bytes);
        case Expire(t) =>
          StartedQueued(m, o, hs, m[t].data);
          ClientTimeoutCb(t);
        case Start(w) => StepStart(w);
        case Finish(w) => StepFinish(w);
        case After(w) => StepAfter(w);
        case Written(w) => OnWriteEnd(w);
        case Closed(h) => OnCloseFree(h);
      }
    }

    /** One event. It acts on one connection only, as `NextHistory` says. */
    method Step(e: Event)
      requires Valid() && Enabled(e)
      modifies this
      ensures Valid() && Next(old(Now()), e, Now())
      ensures !e.Connect? ==>
                var d := old(owner)[Subject(e)];
                && d in old(histories)
                && Did(old(memory), old(owner), old(histories), memory, owner, histories, d,
                       NextHistory(old(histories)[d], e))
      ensures e.Connect? ==>
                && histories == (if e.status == -1 then old(histories)
                                 else old(histories)[old(next) := if e.accepted then EMPTY else Ended(EMPTY)])
                && Elsewhere(old(memory), old(owner), memory, owner, old(next))
      ensures forall r | r in old(histories) && old(Live(r)) && Holder(old(memory), r) == Worker
                         && !(OfWorker(e) && r == old(owner)[Subject(e)]) ::
                Kept(old(memory), memory, r)
      ensures !e.Connect? ==>
                var d := old(owner)[Subject(e)];
                var before, after := Rank(old(memory), old(owner), d), Rank(memory, owner, d);
                if OnlyChunk(old(histories)[d], e) then after == before else after < before
      ensures forall r | r in old(histories) && (e.Connect? || r != old(owner)[Subject(e)]) ::
                Rank(memory, owner, r) == Rank(old(memory), old(owner), r)
      ensures forall p | p in old(memory) && IsHandle(old(memory)[p]) && e != Closed(p) ::
                p in memory && (Closing(old(memory)[p]) ==> memory[p] == old(memory)[p])
    {
      ghost var s := Now();
      Handle(e);
      forall p | p in s.memory && IsHandle(s.memory[p]) && e != Closed(p)
        ensures p in memory && (Closing(s.memory[p]) ==> memory[p] == s.memory[p])
      {
        HandleAfter(s, e, Now(), p);
      }
      if !e.Connect? {
        RankStep(s, e, Now());
      }
      forall r | r in s.histories && !About(s, e, r)
        ensures Rank(memory, owner, r) == Rank(s.memory, s.owner, r)
      {
        OtherRanks(s, e, Now(), r);
      }
      forall r | r in s.histories && r in s.memory && s.memory[r].Record? && Holder(s.memory, r) == Worker
                 && !(OfWorker(e) && About(s, e, r))
        ensures Kept(s.memory, memory, r)
      {
        WorkerUndisturbed(s, e, Now(), r);
      }
    }

    /** Any run of the event loop: of the events that are offered, those happen that are
        enabled when their turn comes. */
    method Run(events: seq<Event>) returns (ghost states: seq<State>)
      requires Valid()
      modifies this
      ensures Valid() && RunOf(states, events) && states[0] == old(Now()) && states[|events|] == Now()
      ensures AllGrow(old(histories), histories)
      ensures forall r :: Callbacks(states, events, |events|, r) <= MOST_CALLBACKS
    {
      states := [Now()];
      for i := 0 to |events|
        invariant Valid() && RunOf(states, events[..i]) && states[0] == old(Now()) && states[i] == Now()
      {
        if Enabled(events[i]) {
          Step(events[i]);
        }
        RunFurther(states, events, i, Now());
        states := states + [Now()];
      }
      assert events[..|events|] == events;
      RunGrows(states, events, |events|);
      forall r
        ensures Callbacks(states, events, |events|, r) <= MOST_CALLBACKS
      {
        CallbacksBounded(states, events, |events|, r);
      }
    }

    /** As long as anything is allocated for a connection, a callback that takes from its
        budget can come. */
    lemma SomethingToCome(p: Ptr)
      requires Valid() && p in memory
      ensures exists e: Event :: Enabled(e) && Counts(Now(), e, owner[p])
    {
      var e := CallbackDue(Now(), p);
    }

    /** When no callback is left to come, every block ever allocated has been freed. */
    lemma AllFreed()
      requires Valid() && forall e: Event | !e.Connect? :: !Enabled(e)
      ensures memory == map[] && freed == owner.Keys
    {
      forall p
        ensures p !in memory
      {
        if p in memory {
          SomethingToCome(p);
        }
      }
    }
  }
}
