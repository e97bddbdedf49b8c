/** What the C memory and libuv hold for the connections of the server. */
module Connections {
  import opened Requests

  /** An address; 0 is NULL. */
  type Ptr = int
  const NULL: Ptr := 0

  /** How far a work request has come; at `Completed` its completion callback has been
      called. */
  datatype Stage = Unqueued | Queued | Running | Finished | Completed

  /** `struct client_request_data`. */
  datatype Fields = Fields(text: Ptr, textLen: nat, response: Ptr, workStarted: bool,
                           client: Ptr, workReq: Ptr, writeReq: Ptr, timer: Ptr)

  /** An allocated block, with what libuv keeps in it. A closing handle has its close
      callback to come, a write request its write callback. */
  datatype Block =
    | Bytes(content: string)
    | Record(fields: Fields)
    | Tcp(data: Ptr, reading: bool, closing: bool)
    | Timer(data: Ptr, armed: bool, closing: bool)
    | Work(data: Ptr, stage: Stage)
    | Write(data: Ptr)

  type Memory = map<Ptr, Block>

  /** For every address ever allocated, the record of the connection it was allocated for. */
  type Owners = map<Ptr, Ptr>

  /** The chunks a connection received, how many it had received at each call of
      `uv_queue_work`, what it passed to `uv_write`, and how often its data was closed. */
  datatype History = History(received: seq<string>, queuedAt: seq<nat>, sent: seq<string>, closes: nat)

  const STATUS := "HTTP/1.1 200 OK\r\n"
  const HEADER := "Content-Type: application/json\r\n\r\n"
  const BODY := "{ \"method\": \"GET\" }\r\n"
  const RESPONSE := STATUS + HEADER + BODY

  ghost predicate Owns(m: Memory, owner: Owners, r: Ptr, p: Ptr) {
    p in m && p in owner && owner[p] == r
  }

  ghost predicate Is(m: Memory, owner: Owners, r: Ptr, p: Ptr, b: Block) {
    Owns(m, owner, r, p) && m[p] == b
  }

  predicate Closing(b: Block) {
    (b.Tcp? || b.Timer?) && b.closing
  }

  ghost predicate Points(f: Fields, p: Ptr) {
    p == f.text || p == f.response || p == f.client || p == f.workReq || p == f.writeReq || p == f.timer
  }

  /** The text is the concatenation of the chunks received. */
  ghost predicate TextHeld(m: Memory, owner: Owners, r: Ptr, f: Fields, received: seq<string>) {
    if received == [] then f.text == NULL && f.textLen == 0
    else Is(m, owner, r, f.text, Bytes(Concat(received) + [NUL])) && f.textLen == |Concat(received)|
  }

  /** A record, its text and its two open handles; whatever else is allocated for the
      connection, the record points to. */
  ghost predicate Open(m: Memory, owner: Owners, r: Ptr, f: Fields, received: seq<string>) {
    && Is(m, owner, r, r, Record(f))
    && Is(m, owner, r, f.client, Tcp(r, !f.workStarted, false))
    && Owns(m, owner, r, f.timer) && m[f.timer].Timer? && m[f.timer].data == r && !m[f.timer].closing
    && TextHeld(m, owner, r, f, received)
    && (forall p | Owns(m, owner, r, p) :: p == r || Points(f, p))
  }

  /** Still being read: the timer runs, and there is nothing but the text. */
  ghost predicate Listening(m: Memory, owner: Owners, r: Ptr, f: Fields, received: seq<string>) {
    && Open(m, owner, r, f, received) && !f.workStarted && m[f.timer].armed
    && f.response == NULL && f.workReq == NULL && f.writeReq == NULL
  }

  ghost predicate Answered(m: Memory, owner: Owners, r: Ptr, f: Fields) {
    Is(m, owner, r, f.response, Bytes(RESPONSE + [NUL])) && f.response != f.text
  }

  /** Handed to the worker, and from there on to the write request. */
  ghost predicate Serving(m: Memory, owner: Owners, r: Ptr, f: Fields, received: seq<string>, sent: seq<string>) {
    && Open(m, owner, r, f, received) && f.workStarted && received != []
    && Owns(m, owner, r, f.workReq) && m[f.workReq].Work? && m[f.workReq].data == r
    && match m[f.workReq].stage
       case Unqueued => false
       case Queued => f.response == NULL && f.writeReq == NULL && sent == []
       case Running => f.response == NULL && f.writeReq == NULL && sent == []
       case Finished => Answered(m, owner, r, f) && f.writeReq == NULL && sent == []
       case Completed =>
         && Answered(m, owner, r, f) && !m[f.timer].armed
         && Is(m, owner, r, f.writeReq, Write(r)) && sent == [RESPONSE]
  }

  /** The blocks that a record points to are there, are of the right kinds, and are not
      closing or with the worker. */
  ghost predicate Closable(m: Memory, r: Ptr, f: Fields) {
    && r in m && m[r] == Record(f)
    && f.client in m && m[f.client].Tcp? && m[f.client].data == r && !m[f.client].closing
    && (f.timer == NULL || (f.timer in m && m[f.timer].Timer? && m[f.timer].data == r && !m[f.timer].closing))
    && (f.workReq == NULL || (f.workReq in m && m[f.workReq] == Work(r, Completed)))
    && (f.writeReq == NULL || (f.writeReq in m && m[f.writeReq].Write?))
    && (f.text == NULL || (f.text in m && m[f.text].Bytes?))
    && (f.response == NULL || (f.response in m && m[f.response].Bytes? && f.response != f.text))
  }

  /** The record is freed, and only closing handles are left, one of each kind at most. */
  ghost predicate Dead(m: Memory, owner: Owners, r: Ptr) {
    && r !in m
    && (forall p | Owns(m, owner, r, p) :: Closing(m[p]) && m[p].data == r)
    && (forall p, q | Owns(m, owner, r, p) && Owns(m, owner, r, q) && m[p].Tcp? == m[q].Tcp? :: p == q)
  }

  ghost function Shut(b: Block): Block {
    match b
    case Tcp(r, _, _) => Tcp(r, false, true)
    case Timer(r, _, _) => Timer(r, false, true)
    case _ => b
  }

  /** The memory after `uv_close` on a handle, or on NULL. */
  ghost function Shutting(m: Memory, p: Ptr): Memory {
    if p in m then m[p := Shut(m[p])] else m
  }

  /** The memory after `close_data`, up to the timer and in all. */
  ghost function Released(m: Memory, f: Fields): Memory {
    Shutting(Shutting(m, f.client) - {f.workReq} - {f.writeReq}, f.timer)
  }

  ghost function Cleared(m: Memory, r: Ptr, f: Fields): Memory {
    Released(m, f) - {f.text} - {f.response} - {r}
  }

  lemma ReleasedRest(m: Memory, r: Ptr, f: Fields)
    requires Closable(m, r, f) && NULL !in m
    ensures var n := Released(m, f);
            && r in n && n[r] == Record(f) && (f.text != NULL ==> f.text in n)
            && (f.response != NULL ==> f.response in n) && f.workReq !in n
  {
  }

  /** What `close_data` leaves and what it frees, address by address. */
  ghost predicate ClosedData(m: Memory, r: Ptr, f: Fields, m': Memory) {
    && f.client in m' && m'[f.client] == Tcp(r, false, true)
    && (f.timer != NULL ==> f.timer in m' && m'[f.timer] == Timer(r, false, true))
    && m'.Keys == m.Keys - {r, f.text, f.response, f.workReq, f.writeReq}
    && forall p | p in m' && p != f.client && p != f.timer :: m'[p] == m[p]
  }

  lemma ClearedIs(m: Memory, r: Ptr, f: Fields)
    requires Closable(m, r, f) && NULL !in m
    ensures ClosedData(m, r, f, Cleared(m, r, f))
  {
  }

  /** Closing leaves nothing of the connection but closing handles, and no other
      connection is touched. */
  lemma ClearedDead(m: Memory, owner: Owners, r: Ptr, f: Fields)
    requires Closable(m, r, f) && NULL !in m && m.Keys <= owner.Keys && r in owner && owner[r] == r
    requires forall p | Points(f, p) && p != NULL :: Owns(m, owner, r, p)
    requires forall p | Owns(m, owner, r, p) :: p == r || Points(f, p)
    ensures Dead(Cleared(m, r, f), owner, r) && Elsewhere(m, owner, Cleared(m, r, f), owner, r)
  {
    var m' := Cleared(m, r, f);
    forall p | Owns(m', owner, r, p)
      ensures Closing(m'[p]) && m'[p].data == r && p == if m'[p].Tcp? then f.client else f.timer
    {
      assert Owns(m, owner, r, p) && p != r;
    }
    assert Points(f, f.client) && Points(f, f.timer) && Points(f, f.text) && Points(f, f.response)
        && Points(f, f.workReq) && Points(f, f.writeReq);
  }

  /** Work was queued at the first boundary with a complete request, and only there. */
  ghost predicate QueuedInTime(h: History) {
    && NotBefore(h.received)
    && h.queuedAt == if Complete(Concat(h.received)) then [|h.received|] else []
  }

  /** What holds for a connection between callbacks, while its record lives and after. */
  ghost predicate Healthy(m: Memory, owner: Owners, r: Ptr, h: History) {
    && QueuedInTime(h)
    && if r in m then
         && m[r].Record? && h.closes == 0
         && var f := m[r].fields;
            if f.workStarted then Serving(m, owner, r, f, h.received, h.sent) && h.queuedAt != []
            else Listening(m, owner, r, f, h.received) && h.sent == [] && h.queuedAt == []
       else
         && h.closes == 1 && h.sent == (if h.queuedAt == [] then [] else [RESPONSE])
         && Dead(m, owner, r)
  }

  type Histories = map<Ptr, History>

  ghost predicate AllHealthy(m: Memory, owner: Owners, hs: Histories) {
    && (forall p | p in owner :: owner[p] in hs)
    && (forall r | r in hs :: r in owner && owner[r] == r)
    && (forall r {:trigger Healthy(m, owner, r, hs[r])} | r in hs :: Healthy(m, owner, r, hs[r]))
  }

  /** Nothing changes but blocks of connection `d`; new blocks belong to `d`. */
  ghost predicate Elsewhere(m: Memory, owner: Owners, m': Memory, owner': Owners, d: Ptr) {
    && (forall p | p in owner :: p in owner' && owner'[p] == owner[p])
    && (forall p | p in owner' && p !in owner :: owner'[p] == d)
    && (forall p | p in owner' && owner'[p] != d :: (p in m' <==> p in m) && (p in m ==> m'[p] == m[p]))
  }

  /** What one connection does leaves the others healthy. */
  lemma Framed(m: Memory, owner: Owners, r: Ptr, h: History, m': Memory, owner': Owners, d: Ptr)
    requires Elsewhere(m, owner, m', owner', d) && r != d && r in owner && owner[r] == r
    requires m'.Keys <= owner'.Keys && Healthy(m, owner, r, h)
    ensures Healthy(m', owner', r, h)
  {
    assert forall p :: Owns(m, owner, r, p) <==> Owns(m', owner', r, p);
    assert forall p | Owns(m, owner, r, p) :: m'[p] == m[p];
  }

  lemma AllFramed(m: Memory, owner: Owners, hs: Histories, m': Memory, owner': Owners, hs': Histories, d: Ptr)
    requires AllHealthy(m, owner, hs) && Elsewhere(m, owner, m', owner', d) && m'.Keys <= owner'.Keys
    requires d in hs' && hs' == hs[d := hs'[d]] && d in owner' && owner'[d] == d
    requires Healthy(m', owner', d, hs'[d])
    ensures AllHealthy(m', owner', hs')
  {
    forall r | r in hs'
      ensures r in owner' && owner'[r] == r && Healthy(m', owner', r, hs'[r])
    {
      if r != d {
        Framed(m, owner, r, hs[r], m', owner', d);
      }
    }
  }

  // ------------------------------------------------------- between callbacks

  ghost predicate Active(b: Block) {
    (b.Tcp? || b.Timer? || b.Work? || b.Write?) && !Closing(b)
  }

  lemma FoundIn(m: Memory, owner: Owners, r: Ptr, h: History, p: Ptr)
    requires Healthy(m, owner, r, h) && Owns(m, owner, r, p) && Active(m[p]) && NULL !in m
    ensures m[p].data == r && r in m && m[r].Record?
    ensures var f := m[r].fields;
            && (m[p].Tcp? ==> p == f.client) && (m[p].Timer? ==> p == f.timer)
            && (m[p].Work? ==> p == f.workReq) && (m[p].Write? ==> p == f.writeReq)
  {
    if r in m {
      var f := m[r].fields;
      assert p == r || Points(f, p);
    }
  }

  /** A handle that is not closing, or a request, belongs to a connection that lives and
      whose record points back. */
  lemma Found(m: Memory, owner: Owners, hs: Histories, p: Ptr)
    requires AllHealthy(m, owner, hs) && m.Keys <= owner.Keys && NULL !in m && p in m && Active(m[p])
    ensures m[p].data == owner[p] && owner[p] in hs && owner[p] in m && m[owner[p]].Record?
    ensures var f := m[owner[p]].fields;
            && (m[p].Tcp? ==> p == f.client) && (m[p].Timer? ==> p == f.timer)
            && (m[p].Work? ==> p == f.workReq) && (m[p].Write? ==> p == f.writeReq)
  {
    var r := owner[p];
    FoundIn(m, owner, r, hs[r], p);
  }

  /** A closing handle belongs to a connection that has ended. */
  lemma EndedBefore(m: Memory, owner: Owners, r: Ptr, h: History, p: Ptr)
    requires Healthy(m, owner, r, h) && Owns(m, owner, r, p) && Closing(m[p]) && NULL !in m
    ensures r !in m && Healthy(m - {p}, owner, r, h)
  {
    if r !in m {
      assert forall q :: Owns(m - {p}, owner, r, q) ==> Owns(m, owner, r, q);
    }
  }

  lemma HandleFreed(m: Memory, owner: Owners, hs: Histories, p: Ptr)
    requires AllHealthy(m, owner, hs) && m.Keys <= owner.Keys && NULL !in m && p in m && Closing(m[p])
    ensures AllHealthy(m - {p}, owner, hs)
    ensures Elsewhere(m, owner, m - {p}, owner, owner[p])
  {
    var r := owner[p];
    EndedBefore(m, owner, r, hs[r], p);
    assert hs == hs[r := hs[r]];
    AllFramed(m, owner, hs, m - {p}, owner, hs, r);
  }

  /** The history of a connection that is closed now, or that is sent a reply. */
  function Ended(h: History): History {
    h.(closes := h.closes + 1)
  }

  function Replied(h: History, text: string): History {
    h.(sent := h.sent + [text])
  }

  /** A connection that is still read, or whose response is written, can be closed. */
  lemma Ends(m: Memory, owner: Owners, hs: Histories, r: Ptr)
    requires AllHealthy(m, owner, hs) && m.Keys <= owner.Keys && NULL !in m && r in hs && r in m
    requires m[r].Record? && (m[r].fields.workStarted ==> m[r].fields.writeReq in m)
    ensures Closable(m, r, m[r].fields) && m[r].fields.timer in m
    ensures AllHealthy(Cleared(m, r, m[r].fields), owner, hs[r := Ended(hs[r])])
    ensures Elsewhere(m, owner, Cleared(m, r, m[r].fields), owner, r)
  {
    var f := m[r].fields;
    EndsIn(m, owner, r, hs[r]);
    AllFramed(m, owner, hs, Cleared(m, r, f), owner, hs[r := Ended(hs[r])], r);
  }

  lemma EndsIn(m: Memory, owner: Owners, r: Ptr, h: History)
    requires Healthy(m, owner, r, h) && m.Keys <= owner.Keys && NULL !in m && r in m
    requires m[r].Record? && (m[r].fields.workStarted ==> m[r].fields.writeReq in m)
    ensures Closable(m, r, m[r].fields) && m[r].fields.timer in m && m[m[r].fields.timer].Timer?
    ensures var n := Cleared(m, r, m[r].fields);
            Healthy(n, owner, r, Ended(h)) && Elsewhere(m, owner, n, owner, r)
  {
    ClearedDead(m, owner, r, m[r].fields);
  }

  /** Stopping the timer before the data is closed makes no difference. */
  lemma StoppedEnds(m: Memory, owner: Owners, hs: Histories, r: Ptr)
    requires AllHealthy(m, owner, hs) && m.Keys <= owner.Keys && NULL !in m && r in hs && r in m
    requires m[r].Record? && !m[r].fields.workStarted
    ensures var f := m[r].fields;
            && f.timer in m && m[f.timer].Timer? && var n := m[f.timer := Timer(r, false, false)];
            && Closable(n, r, f) && AllHealthy(Cleared(n, r, f), owner, hs[r := Ended(hs[r])])
            && Elsewhere(m, owner, Cleared(n, r, f), owner, r)
  {
    Ends(m, owner, hs, r);
    EndsIn(m, owner, r, hs[r]);
    StoppedCleared(m, r);
  }

  lemma StoppedCleared(m: Memory, r: Ptr)
    requires r in m && m[r].Record? && Closable(m, r, m[r].fields) && m[r].fields.timer in m && NULL !in m
    requires m[r].fields.timer != NULL
    ensures var f := m[r].fields;
            var n := m[f.timer := Timer(r, false, false)];
            Closable(n, r, f) && Cleared(n, r, f) == Cleared(m, r, f)
  {
  }

  // ----------------------------------------------------- single callbacks

  /** The timer of a connection that is with the worker stops. */
  lemma TimerStopped(m: Memory, owner: Owners, r: Ptr, h: History)
    requires Healthy(m, owner, r, h) && r in m && m[r].fields.workStarted
    ensures var m' := m[m[r].fields.timer := Timer(r, false, false)];
            Healthy(m', owner, r, h) && Elsewhere(m, owner, m', owner, r)
  {
    var t := m[r].fields.timer;
    assert forall p :: Owns(m, owner, r, p) <==> Owns(m[t := Timer(r, false, false)], owner, r, p);
  }

  /** The worker takes a request up. */
  lemma WorkBegun(m: Memory, owner: Owners, r: Ptr, h: History)
    requires Healthy(m, owner, r, h) && r in m && m[r].fields.workStarted
    requires m[m[r].fields.workReq].stage == Queued
    ensures var m' := m[m[r].fields.workReq := Work(r, Running)];
            Healthy(m', owner, r, h) && Elsewhere(m, owner, m', owner, r)
  {
    var w := m[r].fields.workReq;
    assert forall p :: Owns(m, owner, r, p) <==> Owns(m[w := Work(r, Running)], owner, r, p);
  }

  /** A fresh block of the connection. */
  ghost predicate Fresh(m: Memory, owner: Owners, p: Ptr) {
    p != NULL && p !in owner && p !in m && NULL !in m
  }

  /** The worker has stored the response and is done. */
  ghost function Responded(m: Memory, r: Ptr, p: Ptr): Memory
    requires r in m && m[r].Record?
  {
    var f := m[r].fields;
    m[p := Bytes(RESPONSE + [NUL])][r := Record(f.(response := p))][f.workReq := Work(r, Finished)]
  }

  lemma WorkDone(m: Memory, owner: Owners, r: Ptr, h: History, p: Ptr)
    requires Healthy(m, owner, r, h) && r in m && m[r].fields.workStarted && Fresh(m, owner, p)
    requires m[m[r].fields.workReq].stage == Running
    ensures Healthy(Responded(m, r, p), owner[p := r], r, h)
    ensures Elsewhere(m, owner, Responded(m, r, p), owner[p := r], r)
  {
    var m', owner', f := Responded(m, r, p), owner[p := r], m[r].fields;
    forall q
      ensures Owns(m', owner', r, q) <==> q == p || Owns(m, owner, r, q)
    {
      assert q in m' <==> q == p || q in m;
      assert q in owner' <==> q == p || q in owner;
    }
  }

  /** The response is handed to a write request. */
  ghost function Writing(m: Memory, r: Ptr, p: Ptr): Memory
    requires r in m && m[r].Record?
  {
    var f := m[r].fields;
    m[f.workReq := Work(r, Completed)][p := Write(r)][r := Record(f.(writeReq := p))]
     [f.timer := Timer(r, false, false)]
  }

  lemma WriteBegun(m: Memory, owner: Owners, r: Ptr, h: History, p: Ptr)
    requires Healthy(m, owner, r, h) && r in m && m[r].fields.workStarted && Fresh(m, owner, p)
    requires m[m[r].fields.workReq].stage == Finished
    ensures Healthy(Writing(m, r, p), owner[p := r], r, Replied(h, RESPONSE))
    ensures Elsewhere(m, owner, Writing(m, r, p), owner[p := r], r)
  {
    ResponseWritten(m, owner, r, m[r].fields, h.received, p);
  }

  lemma ResponseWritten(m: Memory, owner: Owners, r: Ptr, f: Fields, received: seq<string>, p: Ptr)
    requires r in m && m[r] == Record(f) && Serving(m, owner, r, f, received, []) && Fresh(m, owner, p)
    requires m[f.workReq].stage == Finished
    ensures Serving(Writing(m, r, p), owner[p := r], r, f.(writeReq := p), received, [RESPONSE])
    ensures Elsewhere(m, owner, Writing(m, r, p), owner[p := r], r)
  {
    var m', owner' := Writing(m, r, p), owner[p := r];
    forall q
      ensures Owns(m', owner', r, q) <==> q == p || Owns(m, owner, r, q)
    {
      assert q in m' <==> q == p || q in m;
      assert q in owner' <==> q == p || q in owner;
    }
  }

  // ------------------------------------------------- a connection comes up

  const EMPTY := History([], [], [], 0)

  lemma EmptyInTime()
    ensures QueuedInTime(EMPTY) && QueuedInTime(Ended(EMPTY))
  {
  }

  function NewFields(c: Ptr, t: Ptr): Fields {
    Fields(NULL, 0, NULL, false, c, NULL, NULL, t)
  }

  /** A record and an idle client. */
  ghost function Initialized(m: Memory, r: Ptr, c: Ptr): Memory {
    m[r := Record(NewFields(NULL, NULL))][c := Tcp(r, false, false)][r := Record(NewFields(c, NULL))]
  }

  /** The timer runs and the client is read. */
  ghost function Accepted(m: Memory, r: Ptr, c: Ptr, t: Ptr): Memory {
    Initialized(m, r, c)[t := Timer(r, false, false)][r := Record(NewFields(c, t))]
     [t := Timer(r, true, false)][c := Tcp(r, true, false)]
  }

  lemma AcceptedIs(m: Memory, r: Ptr, c: Ptr, t: Ptr)
    requires r != c && r != t && c != t
    ensures Accepted(m, r, c, t)
         == m[r := Record(NewFields(c, t))][c := Tcp(r, true, false)][t := Timer(r, true, false)]
  {
  }

  lemma ConnectionUp(m: Memory, owner: Owners, r: Ptr, c: Ptr, t: Ptr)
    requires m.Keys <= owner.Keys && Fresh(m, owner, r) && Fresh(m, owner, c) && Fresh(m, owner, t)
    requires r != c && r != t && c != t && forall p | p in owner :: owner[p] in owner
    ensures var m' := m[r := Record(NewFields(c, t))][c := Tcp(r, true, false)][t := Timer(r, true, false)];
            var owner' := owner[r := r][c := r][t := r];
            Healthy(m', owner', r, EMPTY) && Elsewhere(m, owner, m', owner', r)
  {
    EmptyInTime();
    HandlesUp(m, owner, r, c, t);
  }

  lemma HandlesUp(m: Memory, owner: Owners, r: Ptr, c: Ptr, t: Ptr)
    requires m.Keys <= owner.Keys && Fresh(m, owner, r) && Fresh(m, owner, c) && Fresh(m, owner, t)
    requires r != c && r != t && c != t && forall p | p in owner :: owner[p] in owner
    ensures var m' := m[r := Record(NewFields(c, t))][c := Tcp(r, true, false)][t := Timer(r, true, false)];
            var owner' := owner[r := r][c := r][t := r];
            Listening(m', owner', r, NewFields(c, t), []) && Elsewhere(m, owner, m', owner', r)
  {
  }

  ghost function Rejected(m: Memory, r: Ptr, c: Ptr): Memory {
    Cleared(Initialized(m, r, c), r, NewFields(c, NULL))
  }

  lemma RejectedIs(m: Memory, r: Ptr, c: Ptr)
    requires r != c && NULL !in m && r !in m && r != NULL && c != NULL
    ensures Rejected(m, r, c) == m[c := Tcp(r, false, true)]
  {
    assert Initialized(m, r, c) == m[r := Record(NewFields(c, NULL))][c := Tcp(r, false, false)];
  }

  lemma ConnectionRefused(m: Memory, owner: Owners, r: Ptr, c: Ptr)
    requires m.Keys <= owner.Keys && Fresh(m, owner, r) && Fresh(m, owner, c)
    requires r != c && forall p | p in owner :: owner[p] in owner
    ensures var m', owner' := m[c := Tcp(r, false, true)], owner[r := r][c := r];
            Healthy(m', owner', r, Ended(EMPTY)) && Elsewhere(m, owner, m', owner', r)
  {
    EmptyInTime();
    assert Dead(m[c := Tcp(r, false, true)], owner[r := r][c := r], r);
  }

  // ----------------------------------------------------- a chunk is received

  /** The text block is replaced by one at `p` that goes on with the chunk. */
  ghost function Stored(m: Memory, r: Ptr, p: Ptr, text: string): Memory
    requires r in m && m[r].Record?
  {
    var f := m[r].fields;
    (m - {f.text})[p := Bytes(text + [NUL])][r := Record(f.(text := p, textLen := |text|))]
  }

  lemma ChunkStored(m: Memory, owner: Owners, r: Ptr, h: History, p: Ptr, chunk: string)
    requires Healthy(m, owner, r, h) && r in m && !m[r].fields.workStarted && Fresh(m, owner, p)
    ensures var m', received := Stored(m, r, p, Concat(h.received) + chunk), h.received + [chunk];
            && Elsewhere(m, owner, m', owner[p := r], r) && NotBefore(received)
            && Concat(received) == Concat(h.received) + chunk
            && Listening(m', owner[p := r], r, m'[r].fields, received)
  {
    ConcatSnoc(h.received, chunk);
    NotBeforeSnoc(h.received, chunk);
    TextReplaced(m, owner, r, h.received, p, h.received + [chunk]);
  }

  lemma TextReplaced(m: Memory, owner: Owners, r: Ptr, received: seq<string>, p: Ptr, received': seq<string>)
    requires r in m && m[r].Record? && Listening(m, owner, r, m[r].fields, received)
    requires Fresh(m, owner, p) && received' != []
    ensures var m' := Stored(m, r, p, Concat(received'));
            && Elsewhere(m, owner, m', owner[p := r], r)
            && Listening(m', owner[p := r], r, m'[r].fields, received')
  {
    var m', owner', f := Stored(m, r, p, Concat(received')), owner[p := r], m[r].fields;
    forall q
      ensures Owns(m', owner', r, q) <==> q == p || (q != f.text && Owns(m, owner, r, q))
    {
      assert q in m' <==> q == p || (q != f.text && q in m);
      assert q in owner' <==> q == p || q in owner;
    }
  }

  /** The work is queued and reading stops. */
  ghost function Queueing(m: Memory, r: Ptr, w: Ptr): Memory
    requires r in m && m[r].Record?
  {
    var f := m[r].fields;
    m[w := Work(r, Unqueued)][r := Record(f.(workReq := w, workStarted := true))]
     [f.client := Tcp(r, false, false)][w := Work(r, Queued)]
  }

  lemma WorkQueued(m: Memory, owner: Owners, r: Ptr, received: seq<string>, w: Ptr)
    requires r in m && m[r].Record? && Listening(m, owner, r, m[r].fields, received)
    requires received != [] && Fresh(m, owner, w)
    ensures var m' := Queueing(m, r, w);
            && Serving(m', owner[w := r], r, m[r].fields.(workReq := w, workStarted := true), received, [])
            && Elsewhere(m, owner, m', owner[w := r], r)
  {
    var m', owner', f := Queueing(m, r, w), owner[w := r], m[r].fields;
    forall q
      ensures Owns(m', owner', r, q) <==> q == w || Owns(m, owner, r, q)
    {
      assert q in m' <==> q == w || q in m;
      assert q in owner' <==> q == w || q in owner;
    }
  }

  // ------------------------------------- the same, with all other connections

  lemma AllTimerStopped(m: Memory, owner: Owners, hs: Histories, r: Ptr)
    requires AllHealthy(m, owner, hs) && m.Keys <= owner.Keys && r in hs && r in m
    requires m[r].Record? && m[r].fields.workStarted
    ensures AllHealthy(m[m[r].fields.timer := Timer(r, false, false)], owner, hs)
    ensures Elsewhere(m, owner, m[m[r].fields.timer := Timer(r, false, false)], owner, r)
  {
    TimerStopped(m, owner, r, hs[r]);
    assert hs == hs[r := hs[r]];
    AllFramed(m, owner, hs, m[m[r].fields.timer := Timer(r, false, false)], owner, hs, r);
  }

  lemma AllWorkBegun(m: Memory, owner: Owners, hs: Histories, r: Ptr)
    requires AllHealthy(m, owner, hs) && m.Keys <= owner.Keys && r in hs && r in m && m[r].Record?
    requires m[r].fields.workReq in m && m[m[r].fields.workReq] == Work(r, Queued) && NULL !in m
    ensures AllHealthy(m[m[r].fields.workReq := Work(r, Running)], owner, hs)
    ensures HandlesGoOn(m, m[m[r].fields.workReq := Work(r, Running)], r, false)
    ensures Elsewhere(m, owner, m[m[r].fields.workReq := Work(r, Running)], owner, r)
  {
    WorkStarted(m, owner, hs, r);
    WorkBegun(m, owner, r, hs[r]);
    assert hs == hs[r := hs[r]];
    AllFramed(m, owner, hs, m[m[r].fields.workReq := Work(r, Running)], owner, hs, r);
  }

  lemma AllWorkDone(m: Memory, owner: Owners, hs: Histories, r: Ptr, p: Ptr)
    requires AllHealthy(m, owner, hs) && m.Keys <= owner.Keys && r in hs && r in m && m[r].Record?
    requires m[r].fields.workReq in m && m[m[r].fields.workReq] == Work(r, Running) && Fresh(m, owner, p)
    ensures AllHealthy(Responded(m, r, p), owner[p := r], hs)
    ensures HandlesGoOn(m, Responded(m, r, p), r, false)
    ensures Elsewhere(m, owner, Responded(m, r, p), owner[p := r], r)
  {
    WorkStarted(m, owner, hs, r);
    WorkDone(m, owner, r, hs[r], p);
    assert hs == hs[r := hs[r]];
    AllFramed(m, owner, hs, Responded(m, r, p), owner[p := r], hs, r);
  }

  lemma AllWriteBegun(m: Memory, owner: Owners, hs: Histories, r: Ptr, p: Ptr)
    requires AllHealthy(m, owner, hs) && m.Keys <= owner.Keys && r in hs && r in m && m[r].Record?
    requires m[r].fields.workReq in m && m[m[r].fields.workReq] == Work(r, Finished) && Fresh(m, owner, p)
    ensures AllHealthy(Writing(m, r, p), owner[p := r], hs[r := Replied(hs[r], RESPONSE)])
    ensures HandlesGoOn(m, Writing(m, r, p), r, true)
    ensures Elsewhere(m, owner, Writing(m, r, p), owner[p := r], r)
  {
    WorkStarted(m, owner, hs, r);
    WriteBegun(m, owner, r, hs[r], p);
    AllFramed(m, owner, hs, Writing(m, r, p), owner[p := r], hs[r := Replied(hs[r], RESPONSE)], r);
  }

  /** A request for the worker means that work has started: the text is there, in full. */
  lemma WorkStarted(m: Memory, owner: Owners, hs: Histories, r: Ptr)
    requires AllHealthy(m, owner, hs) && r in hs && r in m && m[r].Record? && NULL !in m
    requires m[r].fields.workReq in m
    ensures var f := m[r].fields;
            && f.workStarted && hs[r].queuedAt == [|hs[r].received|] && Complete(Concat(hs[r].received))
            && f.text in m && m[f.text] == Bytes(Concat(hs[r].received) + [NUL])
            && f.timer in m && m[f.timer].Timer? && m[f.timer].data == r && !m[f.timer].closing
  {
    assert Healthy(m, owner, r, hs[r]);
  }

  lemma WorkAnswered(m: Memory, owner: Owners, hs: Histories, r: Ptr)
    requires AllHealthy(m, owner, hs) && r in hs && r in m && m[r].Record? && NULL !in m
    requires m[r].fields.workReq in m && m[m[r].fields.workReq] == Work(r, Finished)
    ensures var f := m[r].fields; f.response in m && m[f.response] == Bytes(RESPONSE + [NUL])
  {
    assert Healthy(m, owner, r, hs[r]);
  }

  lemma OwnersOwned(m: Memory, owner: Owners, hs: Histories)
    requires AllHealthy(m, owner, hs)
    ensures forall p | p in owner :: owner[p] in owner
  {
    forall p | p in owner
      ensures owner[p] in owner
    {
      var r := owner[p];
      assert r in hs;
    }
  }

  lemma AllUp(m: Memory, owner: Owners, hs: Histories, r: Ptr, c: Ptr, t: Ptr)
    requires AllHealthy(m, owner, hs) && m.Keys <= owner.Keys
    requires Fresh(m, owner, r) && Fresh(m, owner, c) && Fresh(m, owner, t) && r != c && r != t && c != t
    ensures AllHealthy(Accepted(m, r, c, t), owner[r := r][c := r][t := r], hs[r := EMPTY])
    ensures Elsewhere(m, owner, Accepted(m, r, c, t), owner[r := r][c := r][t := r], r)
  {
    AcceptedIs(m, r, c, t);
    OwnersOwned(m, owner, hs);
    ConnectionUp(m, owner, r, c, t);
    AllFramed(m, owner, hs, Accepted(m, r, c, t), owner[r := r][c := r][t := r], hs[r := EMPTY], r);
  }

  lemma AllRefused(m: Memory, owner: Owners, hs: Histories, r: Ptr, c: Ptr)
    requires AllHealthy(m, owner, hs) && m.Keys <= owner.Keys
    requires Fresh(m, owner, r) && Fresh(m, owner, c) && r != c
    ensures AllHealthy(Rejected(m, r, c), owner[r := r][c := r], hs[r := Ended(EMPTY)])
    ensures Elsewhere(m, owner, Rejected(m, r, c), owner[r := r][c := r], r)
  {
    RejectedIs(m, r, c);
    OwnersOwned(m, owner, hs);
    ConnectionRefused(m, owner, r, c);
    AllFramed(m, owner, hs, Rejected(m, r, c), owner[r := r][c := r], hs[r := Ended(EMPTY)], r);
  }

  function Received(h: History, chunk: string): History {
    h.(received := h.received + [chunk])
  }

  function Submitted(h: History): History {
    h.(queuedAt := h.queuedAt + [|h.received|])
  }

  /** What `read_cb` finds in a record whose client is read. */
  lemma StillReading(m: Memory, owner: Owners, hs: Histories, r: Ptr)
    requires AllHealthy(m, owner, hs) && r in hs && r in m && m[r].Record? && NULL !in m
    requires m[r].fields.client in m && m[m[r].fields.client] == Tcp(r, true, false)
    ensures var f, text := m[r].fields, Concat(hs[r].received);
            && !f.workStarted && f.workReq == NULL && f.textLen == |text| && !Complete(text)
            && (f.text == NULL ==> text == "")
            && (f.text != NULL ==> Is(m, owner, r, f.text, Bytes(text + [NUL])))
            && f.timer in m && m[f.timer].Timer? && m[f.timer].data == r && !m[f.timer].closing
  {
    assert Healthy(m, owner, r, hs[r]);
  }

  // ------------------------------------------------------------- handles

  /** The record still has its client and its timer; the timer is as it was, or stopped. */
  ghost predicate HandlesGoOn(m: Memory, m': Memory, r: Ptr, stopped: bool)
    requires r in m && m[r].Record?
  {
    && r in m' && m'[r].Record?
    && var f, f' := m[r].fields, m'[r].fields;
       && f'.client == f.client && f'.timer == f.timer
       && f.timer in m && m[f.timer].Timer? && f.timer in m'
       && m'[f.timer] == if stopped then Timer(r, false, false) else m[f.timer]
  }

  /** The record is freed; both handles are still there, and closing. */
  ghost predicate HandlesClose(m: Memory, m': Memory, r: Ptr)
    requires r in m && m[r].Record?
  {
    var f := m[r].fields;
    && r !in m' && f.client in m' && m'[f.client] == Tcp(r, false, true)
    && f.timer in m' && m'[f.timer] == Timer(r, false, true)
  }

  /** Replacing the text and queueing the work leave the handles as they are. */
  lemma TextHandles(m: Memory, owner: Owners, r: Ptr, h: History, p: Ptr, text: string, w: Ptr)
    requires Healthy(m, owner, r, h) && r in m && m[r].Record? && !m[r].fields.workStarted
    requires Fresh(m, owner, p) && Fresh(m, owner, w)
    ensures HandlesGoOn(m, Stored(m, r, p, text), r, false)
    ensures HandlesGoOn(m, Queueing(Stored(m, r, p, text), r, w), r, false)
  {
  }

  /** A chunk that leaves the request incomplete. */
  lemma AllChunkStored(m: Memory, owner: Owners, hs: Histories, r: Ptr, p: Ptr, g: History)
    requires AllHealthy(m, owner, hs) && m.Keys <= owner.Keys && r in hs && r in m && m[r].Record?
    requires !m[r].fields.workStarted && Fresh(m, owner, p)
    requires (exists chunk :: g == Received(hs[r], chunk)) && !Complete(Concat(g.received))
    ensures AllHealthy(Stored(m, r, p, Concat(g.received)), owner[p := r], hs[r := g])
    ensures HandlesGoOn(m, Stored(m, r, p, Concat(g.received)), r, false)
    ensures Elsewhere(m, owner, Stored(m, r, p, Concat(g.received)), owner[p := r], r)
  {
    var h := hs[r];
    var chunk :| g == Received(h, chunk);
    ChunkStored(m, owner, r, h, p, chunk);
    TextHandles(m, owner, r, h, p, Concat(g.received), p);
    AllFramed(m, owner, hs, Stored(m, r, p, Concat(g.received)), owner[p := r], hs[r := g], r);
  }

  /** The chunk that completes the request. */
  lemma ChunkQueued(m: Memory, owner: Owners, r: Ptr, h: History, p: Ptr, chunk: string, w: Ptr)
    requires Healthy(m, owner, r, h) && r in m && !m[r].fields.workStarted
    requires Fresh(m, owner, p) && Fresh(m, owner, w) && w != p && Complete(Concat(Received(h, chunk).received))
    ensures var g := Received(h, chunk);
            var n := Queueing(Stored(m, r, p, Concat(g.received)), r, w);
            && Healthy(n, owner[p := r][w := r], r, Submitted(g))
            && Elsewhere(m, owner, n, owner[p := r][w := r], r)
  {
    var g := Received(h, chunk);
    ChunkStored(m, owner, r, h, p, chunk);
    WorkQueued(Stored(m, r, p, Concat(g.received)), owner[p := r], r, g.received, w);
  }

  lemma AllChunkQueued(m: Memory, owner: Owners, hs: Histories, r: Ptr, p: Ptr, g: History, w: Ptr)
    requires AllHealthy(m, owner, hs) && m.Keys <= owner.Keys && r in hs && r in m && m[r].Record?
    requires !m[r].fields.workStarted && Fresh(m, owner, p) && Fresh(m, owner, w) && w != p
    requires (exists chunk :: g == Received(hs[r], chunk)) && Complete(Concat(g.received))
    ensures AllHealthy(Queueing(Stored(m, r, p, Concat(g.received)), r, w), owner[p := r][w := r],
                       hs[r := Submitted(g)])
    ensures Elsewhere(m, owner, Queueing(Stored(m, r, p, Concat(g.received)), r, w), owner[p := r][w := r], r)
    ensures HandlesGoOn(m, Queueing(Stored(m, r, p, Concat(g.received)), r, w), r, false)
  {
    TextHandles(m, owner, r, hs[r], p, Concat(g.received), w);
    var chunk :| g == Received(hs[r], chunk);
    ChunkQueued(m, owner, r, hs[r], p, chunk, w);
    var n := Queueing(Stored(m, r, p, Concat(g.received)), r, w);
    AllFramed(m, owner, hs, n, owner[p := r][w := r], hs[r := Submitted(g)], r);
  }

  /** An address handed out to a connection and given back already. */
  lemma AllBuffered(m: Memory, owner: Owners, hs: Histories, r: Ptr, b: Ptr)
    requires AllHealthy(m, owner, hs) && m.Keys <= owner.Keys && r in hs && Fresh(m, owner, b)
    ensures AllHealthy(m, owner[b := r], hs)
  {
    assert Healthy(m, owner, r, hs[r]);
    assert hs == hs[r := hs[r]];
    AllFramed(m, owner, hs, m, owner[b := r], hs, r);
  }

  /** Connection `d` went on to the history `h`, and nothing else changed. */
  ghost predicate Did(m: Memory, owner: Owners, hs: Histories,
                      m': Memory, owner': Owners, hs': Histories, d: Ptr, h: History) {
    d in hs && hs' == hs[d := h] && Elsewhere(m, owner, m', owner', d)
  }

  lemma StartedQueued(m: Memory, owner: Owners, hs: Histories, r: Ptr)
    requires AllHealthy(m, owner, hs) && r in hs && r in m && m[r].Record?
    ensures m[r].fields.workStarted <==> hs[r].queuedAt != []
  {
    assert Healthy(m, owner, r, hs[r]);
  }

  lemma ElsewhereBuffered(m: Memory, owner: Owners, m': Memory, owner': Owners, d: Ptr, b: Ptr)
    requires Elsewhere(m, owner[b := d], m', owner', d) && b !in owner
    ensures Elsewhere(m, owner, m', owner', d)
  {
  }

  datatype Thread = Loop | Worker

  /** Which thread may use the text and the response of a connection: the worker has them
      from `uv_queue_work` until the completion callback. */
  ghost function Holder(m: Memory, r: Ptr): Thread
    requires r in m && m[r].Record?
  {
    var w := m[r].fields.workReq;
    if w in m && m[w].Work? && m[w].stage != Completed then Worker else Loop
  }

  /** The record, the text and the response of a connection are as they were. */
  ghost predicate Kept(m: Memory, m': Memory, r: Ptr)
    requires r in m && m[r].Record?
  {
    var f := m[r].fields;
    && r in m' && m'[r] == m[r]
    && (f.text in m ==> f.text in m' && m'[f.text] == m[f.text])
    && (f.response in m ==> f.response in m' && m'[f.response] == m[f.response])
  }

  lemma OthersKept(m: Memory, owner: Owners, hs: Histories, m': Memory, owner': Owners, d: Ptr, r: Ptr)
    requires AllHealthy(m, owner, hs) && Elsewhere(m, owner, m', owner', d) && NULL !in m
    requires r in hs && r in m && m[r].Record? && r != d
    ensures Kept(m, m', r)
  {
    assert Healthy(m, owner, r, hs[r]);
  }

  /** What is read, written or closed is not with the worker. */
  lemma LoopHolds(m: Memory, owner: Owners, hs: Histories, p: Ptr)
    requires AllHealthy(m, owner, hs) && m.Keys <= owner.Keys && NULL !in m && p in m
    requires (m[p].Tcp? && m[p].reading && !m[p].closing) || m[p].Write? || Closing(m[p])
    ensures var r := owner[p]; r in m && m[r].Record? ==> Holder(m, r) == Loop
  {
    var r := owner[p];
    assert Healthy(m, owner, r, hs[r]) && Owns(m, owner, r, p);
  }

  lemma ExpiryKeeps(m: Memory, owner: Owners, hs: Histories, r: Ptr)
    requires AllHealthy(m, owner, hs) && r in hs && r in m && m[r].Record? && NULL !in m
    ensures Kept(m, m[m[r].fields.timer := Timer(r, false, false)], r)
  {
    assert Healthy(m, owner, r, hs[r]);
  }

  // ------------------------------------------------------------- progress

  ghost function Left(m: Memory, owner: Owners, r: Ptr): set<Ptr> {
    set p | p in m && Owns(m, owner, r, p)
  }

  ghost function StageRank(s: Stage): nat {
    match s
    case Unqueued => 4
    case Queued => 3
    case Running => 2
    case Finished => 1
    case Completed => 0
  }

  /** A bound for the callbacks still to come for a connection, chunks that leave its
      request incomplete not counted. */
  ghost function Rank(m: Memory, owner: Owners, r: Ptr): nat {
    if r in m && m[r].Record? then
      var f := m[r].fields;
      if !f.workStarted then MOST_CALLBACKS
      else if f.workReq in m && m[f.workReq].Work? && f.timer in m && m[f.timer].Timer? then
        3 + StageRank(m[f.workReq].stage) + if m[f.timer].armed then 1 else 0
      else 3
    else |Left(m, owner, r)|
  }

  /** A connection that has ended has two close callbacks to come at most. */
  lemma EndedRank(m: Memory, owner: Owners, r: Ptr)
    requires Dead(m, owner, r)
    ensures Rank(m, owner, r) <= 2
  {
    var s := Left(m, owner, r);
    if s != {} {
      var p :| p in s;
      var s' := s - {p};
      if s' != {} {
        var q :| q in s';
        assert s == {p, q};
      }
    }
  }

  lemma HandleRank(m: Memory, owner: Owners, r: Ptr, p: Ptr)
    requires r !in m && Owns(m, owner, r, p)
    ensures Rank(m - {p}, owner, r) < Rank(m, owner, r)
  {
    assert Left(m - {p}, owner, r) == Left(m, owner, r) - {p};
  }

  /** So do the worker's steps and the timer while the request is served. */
  lemma StageRankFalls(m: Memory, owner: Owners, h: History, m': Memory, owner': Owners, r: Ptr)
    requires Healthy(m, owner, r, h) && Healthy(m', owner', r, h) && r in m && r in m' && h.queuedAt != []
    requires var w, w' := m[r].fields.workReq, m'[r].fields.workReq;
             && w in m && w' in m' && m[w].Work? && m'[w'].Work?
             && StageRank(m'[w'].stage) < StageRank(m[w].stage) && HandlesGoOn(m, m', r, false)
    ensures Rank(m', owner', r) < Rank(m, owner, r)
  {
  }

  lemma TimerRankFalls(m: Memory, owner: Owners, h: History, r: Ptr)
    requires Healthy(m, owner, r, h) && r in m && h.queuedAt != [] && m[m[r].fields.timer].armed
    ensures Rank(m[m[r].fields.timer := Timer(r, false, false)], owner, r) < Rank(m, owner, r)
  {
  }

  /** Ending a connection, queueing its work and sending its reply lower its rank. */
  lemma RankFalls(m: Memory, owner: Owners, h: History, m': Memory, owner': Owners, h': History, r: Ptr)
    requires Healthy(m, owner, r, h) && Healthy(m', owner', r, h') && r in m
    requires h'.closes > 0 || |h.queuedAt| < |h'.queuedAt| || |h.sent| < |h'.sent|
    ensures Rank(m', owner', r) < Rank(m, owner, r)
  {
    if r !in m' {
      EndedRank(m', owner', r);
    }
  }

  /** Receiving more without handing it over or ending leaves the rank as it is. */
  lemma RankStays(m: Memory, owner: Owners, h: History, m': Memory, owner': Owners, h': History, r: Ptr)
    requires Healthy(m, owner, r, h) && Healthy(m', owner', r, h') && r in m
    requires h'.closes == h.closes && h'.queuedAt == h.queuedAt == []
    ensures Rank(m', owner', r) == Rank(m, owner, r)
  {
  }

  const MOST_CALLBACKS := 8

  lemma RankBound(m: Memory, owner: Owners, hs: Histories, r: Ptr)
    requires AllHealthy(m, owner, hs) && r in hs
    ensures Rank(m, owner, r) <= MOST_CALLBACKS
  {
    assert Healthy(m, owner, r, hs[r]);
    if r !in m {
      EndedRank(m, owner, r);
    }
  }

  /** What one connection does leaves the ranks of the others alone. */
  lemma RankFramed(m: Memory, owner: Owners, m': Memory, owner': Owners, d: Ptr, hs: Histories, r: Ptr)
    requires AllHealthy(m, owner, hs) && r in hs && r != d
    requires m.Keys <= owner.Keys && m'.Keys <= owner'.Keys && Elsewhere(m, owner, m', owner', d)
    ensures Rank(m', owner', r) == Rank(m, owner, r)
  {
    assert Healthy(m, owner, r, hs[r]);
    assert forall p :: Owns(m, owner, r, p) <==> Owns(m', owner', r, p);
    assert Left(m', owner', r) == Left(m, owner, r);
  }

  // ------------------------------------------------------ what follows from it

  /** A connection whose data is closed has been closed once; a connection was handed to
      the worker at most once, at the first boundary with a complete request; and by the
      time it is closed it has had one reply if it was handed over, and none otherwise. */
  lemma ConnectionServed(m: Memory, owner: Owners, hs: Histories, r: Ptr)
    requires AllHealthy(m, owner, hs) && r in hs
    ensures var h := hs[r];
            && h.closes == (if r in m then 0 else 1)
            && |h.queuedAt| <= 1 && |h.sent| <= |h.queuedAt| && (forall s | s in h.sent :: s == RESPONSE)
            && (r !in m ==> |h.sent| == |h.queuedAt|)
            && (h.queuedAt != [] <==> HasLineEnd(Concat(h.received)))
            && (h.queuedAt != [] ==> h.queuedAt[0] == |h.received|)
            && forall k | 0 <= k < |h.received| :: !HasLineEnd(Concat(h.received[..k]))
  {
    var h := hs[r];
    assert Healthy(m, owner, r, h);
    CompleteIff(Concat(h.received));
    forall k | 0 <= k < |h.received|
      ensures !HasLineEnd(Concat(h.received[..k]))
    {
      CompleteIff(Concat(h.received[..k]));
    }
  }

  /** While the record lives its text is what was received, and the bytes are terminated. */
  lemma TextReceived(m: Memory, owner: Owners, hs: Histories, r: Ptr)
    requires AllHealthy(m, owner, hs) && r in hs && r in m && NULL !in m
    ensures m[r].Record?
    ensures var f, text := m[r].fields, Concat(hs[r].received);
            && f.textLen == |text|
            && (f.text == NULL <==> hs[r].received == [])
            && (f.text != NULL ==> f.text in m && m[f.text] == Bytes(text + [NUL]))
  {
    assert Healthy(m, owner, r, hs[r]);
  }

  /** Whether a stream `s` leads to work does not depend on how it is cut into chunks, as
      long as it is delivered until work is queued or in full. */
  lemma AnyCut(h: History, s: string)
    requires QueuedInTime(h) && Concat(h.received) <= s
    requires h.queuedAt == [] ==> Concat(h.received) == s
    ensures h.queuedAt != [] <==> HasLineEnd(s)
  {
    var text := Concat(h.received);
    CompleteIff(s);
    if h.queuedAt != [] {
      CompleteGrows(text, s[|text|..]);
      assert text + s[|text|..] == s;
    }
  }

  lemma BufferFreed(m: Memory, r: Ptr, p: Ptr, text: string, b: Ptr, buffer: Block)
    requires r in m && m[r].Record? && b !in m && b != p
    ensures var m' := m[b := buffer];
            Stored(m', r, p, text) - {b} == Stored(m, r, p, text)
  {
  }
}
