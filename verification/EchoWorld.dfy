/**
 The whole echo server as a state machine over values: the memory of every session ever allocated, and the
 multiset of operations that the io_service still has to complete.  Handlers are atomic, because one thread
 calls io_service.run().  A session is named by its allocation number.  Touching or deleting a session that
 has been deleted is an outcome of its own, so its absence is something to prove.
 */
module EchoWorld {
  import opened Bytes
  import S = EchoSession

  /** The memory of one session: its C++ buffer, and the two streams of its socket and its history. */
  datatype Memory = Memory(live: bool, data: seq<byte>, received: seq<byte>, sent: seq<byte>, log: seq<S.Happening>)

  /** An outstanding asynchronous operation, bound to the session it will call back. */
  datatype Op =
    | AsyncAccept(id: nat)
    | AsyncHandshake(id: nat)
    | AsyncRead(id: nat)
    | AsyncWrite(id: nat, size: nat, emitted: nat)

  datatype World = World(sessions: seq<Memory>, pending: multiset<Op>) {
    predicate Alive(id: nat) {
      id < |sessions| && sessions[id].live
    }
  }

  datatype Outcome = Running(world: World) | UseAfterFree(id: nat) | DoubleFree(id: nat)

  /** The environment completes (or, for a write, advances) the outstanding operation `op`.
      `garbage` is the content of the memory of the next session, should one be allocated. */
  datatype Event = Event(op: Op, what: S.Event, garbage: seq<byte>)

  /** The phase of a session that waits for `op`. */
  function PhaseOf(op: Op): S.Phase {
    match op
    case AsyncAccept(_) => S.Accepting
    case AsyncHandshake(_) => S.Handshaking
    case AsyncRead(_) => S.Reading
    case AsyncWrite(_, size, emitted) => S.Writing(size, emitted)
  }

  predicate Enabled(w: World, e: Event) {
    e.op in w.pending && S.Allowed(PhaseOf(e.op), e.what) && |e.garbage| == S.MAX_LENGTH
  }

  // ---------- The handlers ----------

  function Begin(w: World, op: Op): World {
    w.(pending := w.pending + multiset{op})
  }

  function Delete(w: World, id: nat): Outcome {
    if w.Alive(id) then Running(w.(sessions := w.sessions[id := w.sessions[id].(live := false)]))
    else DoubleFree(id)
  }

  function NewMemory(garbage: seq<byte>): Memory {
    Memory(true, garbage, [], [], [])
  }

  function StartAccept(w: World, garbage: seq<byte>): World {
    var id := |w.sessions|;
    Begin(World(w.sessions + [NewMemory(garbage)], w.pending), AsyncAccept(id))
  }

  function HandleAccept(w: World, id: nat, ok: bool, garbage: seq<byte>): Outcome {
    var o := if ok then (if w.Alive(id) then Running(Begin(w, AsyncHandshake(id))) else UseAfterFree(id))
             else Delete(w, id);
    if o.Running? then Running(StartAccept(o.world, garbage)) else o
  }

  function HandleHandshake(w: World, id: nat, ok: bool): Outcome {
    if !ok then Delete(w, id)
    else if w.Alive(id) then Running(Begin(w, AsyncRead(id)))
    else UseAfterFree(id)
  }

  function HandleRead(w: World, id: nat, ok: bool, size: nat): Outcome {
    if !ok then Delete(w, id)
    else if w.Alive(id) then Running(Begin(w, AsyncWrite(id, size, 0)))
    else UseAfterFree(id)
  }

  function HandleWrite(w: World, id: nat, ok: bool): Outcome {
    if !ok then Delete(w, id)
    else if w.Alive(id) then Running(Begin(w, AsyncRead(id)))
    else UseAfterFree(id)
  }

  // ---------- The io_service ----------

  /** The history entry that a completion leaves; handing over a piece of a write leaves none. */
  function Entry(what: S.Event): seq<S.Happening> {
    match what
    case AcceptDone(ok) => [S.Happening(S.Accept, ok)]
    case HandshakeDone(ok) => [S.Happening(S.Handshake, ok)]
    case ReadDone(ok, _) => [S.Happening(S.Read, ok)]
    case Emit(_) => []
    case WriteDone(ok) => [S.Happening(S.Write, ok)]
  }

  /**
   What the network does to the session's memory before the handler runs: a read fills the start of the
   buffer, a piece of a write is taken from the buffer as the buffer is at that moment.
   */
  function Transfer(m: Memory, op: Op, what: S.Event): Memory
    requires |m.data| == S.MAX_LENGTH && S.Allowed(PhaseOf(op), what)
    requires op.AsyncWrite? ==> op.size <= S.MAX_LENGTH
  {
    var n := m.(log := m.log + Entry(what));
    match what
    case ReadDone(_, bytes) => n.(data := bytes + m.data[|bytes|..], received := m.received + bytes)
    case Emit(k) => n.(sent := m.sent + m.data[op.emitted..op.emitted + k])
    case _ => n
  }

  /** The network itself uses the memory of the session. */
  predicate MovesBytes(what: S.Event) {
    what.Emit? || (what.ReadDone? && what.ok)
  }

  /** Every buffer has its size, and every operation is bound to an allocated session and stays within its buffer. */
  predicate WellFormed(w: World) {
    && (forall i :: 0 <= i < |w.sessions| ==> |w.sessions[i].data| == S.MAX_LENGTH)
    && (forall op :: op in w.pending ==>
          op.id < |w.sessions| && (op.AsyncWrite? ==> op.emitted <= op.size <= S.MAX_LENGTH))
  }

  /** One turn of io_service.run(): take the operation off, move the bytes, call the handler bound to it. */
  function Step(w: World, e: Event): Outcome
    requires WellFormed(w) && Enabled(w, e)
  {
    var id := e.op.id;
    if MovesBytes(e.what) && !w.Alive(id) then UseAfterFree(id)
    else
      var w1 := World(w.sessions[id := Transfer(w.sessions[id], e.op, e.what)], w.pending - multiset{e.op});
      match e.what
      case AcceptDone(ok) => HandleAccept(w1, id, ok, e.garbage)
      case HandshakeDone(ok) => HandleHandshake(w1, id, ok)
      case ReadDone(ok, bytes) => HandleRead(w1, id, ok, |bytes|)
      case Emit(k) => Running(Begin(w1, AsyncWrite(id, e.op.size, e.op.emitted + k)))
      case WriteDone(ok) => HandleWrite(w1, id, ok)
  }

  // ---------- The invariant: outstanding operations and live sessions, one to one ----------

  /** `op` is the one outstanding operation of session `op.id`, and there is exactly one copy of it. */
  ghost predicate Owns(w: World, op: Op) {
    && op in w.pending
    && w.pending[op] == 1
    && w.Alive(op.id)
    && (forall other :: other in w.pending && other.id == op.id ==> other == op)
  }

  function Live(ms: seq<Memory>): nat {
    if ms == [] then 0 else Live(ms[..|ms| - 1]) + (if ms[|ms| - 1].live then 1 else 0)
  }

  ghost predicate Bijection(w: World) {
    && (forall op :: op in w.pending ==> Owns(w, op))
    && |w.pending| == Live(w.sessions)
  }

  /** The one outstanding accept is for the session allocated last. */
  ghost predicate AcceptsOnNewest(w: World) {
    && |w.sessions| > 0
    && AsyncAccept(|w.sessions| - 1) in w.pending
    && (forall op :: op in w.pending && op.AsyncAccept? ==> op.id == |w.sessions| - 1)
  }

  ghost predicate Inv(w: World) {
    WellFormed(w) && Bijection(w) && AcceptsOnNewest(w)
  }

  lemma {:induction false} LiveAfterUpdate(ms: seq<Memory>, id: nat, m: Memory)
    requires id < |ms| && ms[id].live
    ensures Live(ms[id := m]) == Live(ms) - (if m.live then 0 else 1)
  {
    var n := |ms| - 1;
    if id < n {
      assert ms[id := m][..n] == ms[..n][id := m];
      LiveAfterUpdate(ms[..n], id, m);
    } else {
      assert ms[id := m][..n] == ms[..n];
    }
  }

  lemma LiveAfterAppend(ms: seq<Memory>, m: Memory)
    ensures Live(ms + [m]) == Live(ms) + (if m.live then 1 else 0)
  {
    assert (ms + [m])[..|ms|] == ms;
  }

  /** The world in which session `id` has become `m` and its operation `op` has been replaced by `next`. */
  function Replace(w: World, op: Op, m: Memory, next: multiset<Op>): World
    requires op.id < |w.sessions|
  {
    World(w.sessions[op.id := m], w.pending - multiset{op} + next)
  }

  /** The session that `e` happens to, afterwards. */
  function Touched(w: World, e: Event): Memory
    requires WellFormed(w) && Enabled(w, e)
  {
    Transfer(w.sessions[e.op.id], e.op, e.what).(live := Survives(e.what))
  }

  /** The normal form of a step: a replacement in one session, followed, after an accept, by one allocation. */
  function Effect(w: World, e: Event): World
    requires WellFormed(w) && Enabled(w, e)
  {
    var w' := Replace(w, e.op, Touched(w, e), Next(e.op, e.what));
    if e.what.AcceptDone? then StartAccept(w', e.garbage) else w'
  }

  /** The handler of a completion for a live session does not fault, and does what the normal form says. */
  lemma StepIsEffect(w: World, e: Event)
    requires WellFormed(w) && Enabled(w, e) && w.Alive(e.op.id)
    ensures Step(w, e) == Running(Effect(w, e))
  {
    var id, m, p := e.op.id, Transfer(w.sessions[e.op.id], e.op, e.what), w.pending - multiset{e.op};
    assert p + multiset{} == p;
    assert w.sessions[id := m][id := m.(live := false)] == w.sessions[id := m.(live := false)];
    assert m.live && m.(live := true) == m;
  }

  /** A completion for a session that has been deleted is always a fault: nothing escapes the outcomes. */
  lemma FaultsExactlyWhenDead(w: World, e: Event)
    requires WellFormed(w) && Enabled(w, e)
    ensures Step(w, e).Running? <==> w.Alive(e.op.id)
    ensures !w.Alive(e.op.id) ==> Step(w, e) == if Survives(e.what) then UseAfterFree(e.op.id) else DoubleFree(e.op.id)
  {
    if w.Alive(e.op.id) {
      StepIsEffect(w, e);
    }
  }

  /** The session that `e` allocates, if it is an accept, and the accept begun for it. */
  function Allocated(e: Event): seq<Memory> {
    if e.what.AcceptDone? then [NewMemory(e.garbage)] else []
  }

  function NextAccept(n: nat, e: Event): multiset<Op> {
    if e.what.AcceptDone? then multiset{AsyncAccept(n)} else multiset{}
  }

  /** The two parts of a step's effect. */
  lemma EffectParts(w: World, e: Event)
    requires WellFormed(w) && Enabled(w, e)
    ensures e.op in w.pending && e.op.id < |w.sessions|
    ensures |Effect(w, e).sessions| == |w.sessions| + |Allocated(e)|
    ensures Effect(w, e).sessions == w.sessions[e.op.id := Touched(w, e)] + Allocated(e)
    ensures Effect(w, e).pending ==
            w.pending - multiset{e.op} + Next(e.op, e.what) + NextAccept(|w.sessions|, e)
  {
    hide Touched, Next;
    var s, p := w.sessions[e.op.id := Touched(w, e)], w.pending - multiset{e.op} + Next(e.op, e.what);
    assert s + [] == s && p + multiset{} == p;
  }

  lemma TouchedByRead(w: World, e: Event)
    requires WellFormed(w) && Enabled(w, e) && e.what.ReadDone?
    ensures var m, ok, bytes := w.sessions[e.op.id], e.what.ok, e.what.bytes;
            && Touched(w, e) == Memory(ok, bytes + m.data[|bytes|..], m.received + bytes, m.sent,
                                       m.log + [S.Happening(S.Read, ok)])
            && Next(e.op, e.what) == if ok then multiset{AsyncWrite(e.op.id, |bytes|, 0)} else multiset{}
  {
  }

  /** Apart from an accept, a step is what leaves the session and the outstanding operations as in the normal form. */
  lemma StepTaken(w: World, w': World, e: Event)
    requires WellFormed(w) && Enabled(w, e) && w.Alive(e.op.id) && !e.what.AcceptDone?
    requires w'.sessions == w.sessions[e.op.id := Touched(w, e)]
    requires w'.pending == w.pending - multiset{e.op} + Next(e.op, e.what)
    ensures Running(w') == Step(w, e)
  {
    hide Step, Touched, Next;
    StepIsEffect(w, e);
  }

  predicate Survives(what: S.Event) {
    match what
    case AcceptDone(ok) => ok
    case HandshakeDone(ok) => ok
    case ReadDone(ok, _) => ok
    case Emit(_) => true
    case WriteDone(ok) => ok
  }

  /** The operation that a surviving session has outstanding after `what` has happened to `op`. */
  function NextOp(op: Op, what: S.Event): (next: Op)
    requires S.Allowed(PhaseOf(op), what)
    ensures next.id == op.id
  {
    match what
    case AcceptDone(_) => AsyncHandshake(op.id)
    case HandshakeDone(_) => AsyncRead(op.id)
    case ReadDone(_, bytes) => AsyncWrite(op.id, |bytes|, 0)
    case Emit(k) => AsyncWrite(op.id, op.size, op.emitted + k)
    case WriteDone(_) => AsyncRead(op.id)
  }

  function Next(op: Op, what: S.Event): multiset<Op>
    requires S.Allowed(PhaseOf(op), what)
  {
    if Survives(what) then multiset{NextOp(op, what)} else multiset{}
  }

  lemma ReplaceKeepsBijection(w: World, op: Op, m: Memory, next: multiset<Op>, o: Op)
    requires Bijection(w) && op in w.pending && o.id == op.id
    requires next == if m.live then multiset{o} else multiset{}
    ensures Bijection(Replace(w, op, m, next))
  {
    assert Owns(w, op);
    var w' := Replace(w, op, m, next);
    LiveAfterUpdate(w.sessions, op.id, m);
    forall x | x in w'.pending ensures Owns(w', x) {
      ReplaceOwns(w, op, m, next, o, x);
    }
  }

  lemma ReplaceOwns(w: World, op: Op, m: Memory, next: multiset<Op>, o: Op, x: Op)
    requires Owns(w, op) && o.id == op.id && (x in w.pending ==> Owns(w, x))
    requires next == if m.live then multiset{o} else multiset{}
    requires x in Replace(w, op, m, next).pending
    ensures Owns(Replace(w, op, m, next), x)
  {
  }

  lemma StartAcceptKeepsBijection(w: World, garbage: seq<byte>)
    requires Bijection(w)
    ensures Bijection(StartAccept(w, garbage))
  {
    var w', newOp := StartAccept(w, garbage), AsyncAccept(|w.sessions|);
    LiveAfterAppend(w.sessions, NewMemory(garbage));
    assert newOp in w'.pending;
    forall x | x in w'.pending ensures Owns(w', x) {
      assert x in w.pending ==> Owns(w, x);
      assert newOp in w.pending ==> Owns(w, newOp);
    }
  }

  lemma EffectKeepsBijection(w: World, e: Event)
    requires WellFormed(w) && Bijection(w) && Enabled(w, e) && w.Alive(e.op.id)
    ensures Bijection(Effect(w, e))
  {
    var m := Touched(w, e);
    ReplaceKeepsBijection(w, e.op, m, Next(e.op, e.what), NextOp(e.op, e.what));
    if e.what.AcceptDone? {
      StartAcceptKeepsBijection(Replace(w, e.op, m, Next(e.op, e.what)), e.garbage);
    }
  }

  lemma EffectWellFormed(w: World, e: Event)
    requires WellFormed(w) && Enabled(w, e)
    ensures WellFormed(Effect(w, e))
  {
    hide Touched, NextOp, Effect, Next, NextAccept, Allocated;
    EffectParts(w, e);
    TouchedFits(w, e);
    NextFits(w, e);
    AllocatedFits(w, e);
  }

  lemma NextFits(w: World, e: Event)
    requires WellFormed(w) && Enabled(w, e)
    ensures forall op :: op in Next(e.op, e.what) ==>
              op.id == e.op.id && (op.AsyncWrite? ==> op.emitted <= op.size <= S.MAX_LENGTH)
  {
    TouchedFits(w, e);
  }

  lemma AllocatedFits(w: World, e: Event)
    requires Enabled(w, e)
    ensures forall m :: m in Allocated(e) ==> |m.data| == S.MAX_LENGTH
    ensures forall op :: op in NextAccept(|w.sessions|, e) ==>
              op.id < |w.sessions| + |Allocated(e)| && !op.AsyncWrite?
  {
  }

  lemma TouchedFits(w: World, e: Event)
    requires WellFormed(w) && Enabled(w, e)
    ensures |Touched(w, e).data| == S.MAX_LENGTH
    ensures NextOp(e.op, e.what).AsyncWrite? ==>
              NextOp(e.op, e.what).emitted <= NextOp(e.op, e.what).size <= S.MAX_LENGTH
  {
  }

  lemma EffectAcceptsOnNewest(w: World, e: Event)
    requires WellFormed(w) && Enabled(w, e) && AcceptsOnNewest(w)
    requires Owns(w, AsyncAccept(|w.sessions| - 1))
    ensures AcceptsOnNewest(Effect(w, e))
  {
    hide Touched, Effect, Next, WellFormed;
    EffectParts(w, e);
    NextIsNoAccept(e.op, e.what);
    var newest, w' := AsyncAccept(|w.sessions| - 1), Effect(w, e);
    assert e.what.AcceptDone? <==> e.op == newest;
    assert newest in w.pending - multiset{e.op} <==> !e.what.AcceptDone?;
  }

  lemma NextIsNoAccept(op: Op, what: S.Event)
    requires S.Allowed(PhaseOf(op), what)
    ensures forall next :: next in Next(op, what) ==> !next.AsyncAccept?
  {
  }

  lemma EffectKeepsInv(w: World, e: Event)
    requires Inv(w) && Enabled(w, e)
    ensures Owns(w, e.op) && Inv(Effect(w, e))
  {
    assert Owns(w, e.op) && Owns(w, AsyncAccept(|w.sessions| - 1));
    EffectKeepsBijection(w, e);
    EffectWellFormed(w, e);
    EffectAcceptsOnNewest(w, e);
  }
}
