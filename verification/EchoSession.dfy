/**
 One client of the echo server, on its own: the sequential automaton that the interleaved server
 (module EchoWorld) is proved to refine.  The automaton has an explicit phase; the C++ class `session`
 has none, its phase is implied by which asynchronous operation of it is outstanding.
 */
module EchoSession {
  import opened Bytes

  const MAX_LENGTH: nat := 1024

  /** The four kinds of completion a session can be told about. */
  datatype Stage = Accept | Handshake | Read | Write

  /** One entry of a session's history: the completion handler that ran, and whether it saw an error. */
  datatype Happening = Happening(stage: Stage, ok: bool)

  datatype Phase =
    | Accepting
    | Handshaking
    | Reading
    | Writing(size: nat, emitted: nat)
    | Deleted

  /** What the network may do next to a session. */
  datatype Event =
    | AcceptDone(ok: bool)
    | HandshakeDone(ok: bool)
    | ReadDone(ok: bool, bytes: seq<byte>)
    | Emit(count: nat)
    | WriteDone(ok: bool)

  /** `received` and `sent` are the two byte streams of the connection so far; `log` is the history. */
  datatype Session = Session(phase: Phase, data: seq<byte>, received: seq<byte>, sent: seq<byte>, log: seq<Happening>)

  /** A newly constructed session.  Its buffer is uninitialised memory: any 1024 bytes. */
  function Fresh(garbage: seq<byte>): Session {
    Session(Accepting, garbage, [], [], [])
  }

  /**
   The contract of the asynchronous operations.  A read that succeeds delivers at most the 1024 bytes it was
   given room for.  A composed write hands its buffer to the network in pieces of any size, may fail at any
   point, and succeeds only when every byte has been handed over.
   */
  predicate Allowed(p: Phase, e: Event) {
    match e
    case AcceptDone(_) => p.Accepting?
    case HandshakeDone(_) => p.Handshaking?
    case ReadDone(ok, bytes) => p.Reading? && |bytes| <= MAX_LENGTH && (!ok ==> bytes == [])
    case Emit(k) => p.Writing? && 1 <= k && p.emitted + k <= p.size
    case WriteDone(ok) => p.Writing? && (ok ==> p.emitted == p.size)
  }

  function After(ok: bool, p: Phase): Phase {
    if ok then p else Deleted
  }

  /** The handlers of `session`, each together with the network's part of the completion. */
  function Step(s: Session, e: Event): Session
    requires |s.data| == MAX_LENGTH && Allowed(s.phase, e)
    requires s.phase.Writing? ==> s.phase.emitted <= s.phase.size <= MAX_LENGTH
  {
    match e
    case AcceptDone(ok) =>
      s.(log := s.log + [Happening(Accept, ok)], phase := After(ok, Handshaking))
    case HandshakeDone(ok) =>
      s.(log := s.log + [Happening(Handshake, ok)], phase := After(ok, Reading))
    case ReadDone(ok, bytes) =>
      s.(log := s.log + [Happening(Read, ok)], phase := After(ok, Writing(|bytes|, 0)),
         data := bytes + s.data[|bytes|..], received := s.received + bytes)
    case Emit(k) =>
      s.(sent := s.sent + s.data[s.phase.emitted..s.phase.emitted + k],
         phase := Writing(s.phase.size, s.phase.emitted + k))
    case WriteDone(ok) =>
      s.(log := s.log + [Happening(Write, ok)], phase := After(ok, Reading))
  }

  // ---------- The history of a session ----------

  /** The stage whose completion is the i-th of a conversation: accept, handshake, (read, write)*. */
  function StageAt(i: nat): Stage {
    if i == 0 then Accept else if i == 1 then Handshake else if i % 2 == 0 then Read else Write
  }

  /** A prefix of accept, handshake, (read, write)*, where only the last completion may be an error. */
  ghost predicate IsTrace(log: seq<Happening>) {
    forall i :: 0 <= i < |log| ==> log[i].stage == StageAt(i) && (log[i].ok || i == |log| - 1)
  }

  /** The history has ended in an error. */
  predicate Failed(log: seq<Happening>) {
    |log| > 0 && !log[|log| - 1].ok
  }

  /** The stage that a phase is waiting for. */
  function Awaited(p: Phase): Stage
    requires !p.Deleted?
  {
    match p
    case Accepting => Accept
    case Handshaking => Handshake
    case Reading => Read
    case Writing(_, _) => Write
  }

  // ---------- The invariant of one session ----------

  ghost predicate IsPrefix(a: seq<byte>, b: seq<byte>) {
    |a| <= |b| && a == b[..|a|]
  }

  /** What has been received is what has been sent, followed by the part of the buffer still to be written. */
  ghost predicate StreamsAgree(s: Session) {
    match s.phase
    case Accepting => s.received == s.sent == []
    case Handshaking => s.received == s.sent == []
    case Reading => s.received == s.sent
    case Writing(size, emitted) =>
      emitted <= size <= |s.data| && s.received == s.sent + s.data[emitted..size]
    case Deleted => IsPrefix(s.sent, s.received) && |s.received| <= |s.sent| + MAX_LENGTH
  }

  ghost predicate Inv(s: Session) {
    && |s.data| == MAX_LENGTH
    && StreamsAgree(s)
    && IsTrace(s.log)
    && (s.phase.Deleted? <==> Failed(s.log))
    && (!s.phase.Deleted? ==> Awaited(s.phase) == StageAt(|s.log|))
  }

  lemma TraceGrows(log: seq<Happening>, ok: bool)
    requires IsTrace(log) && !Failed(log)
    ensures IsTrace(log + [Happening(StageAt(|log|), ok)])
    ensures Failed(log + [Happening(StageAt(|log|), ok)]) <==> !ok
  {
  }

  lemma TwoSlices<T>(data: seq<T>, sent: seq<T>, i: nat, j: nat, k: nat)
    requires i <= j <= k <= |data|
    ensures sent + data[i..j] + data[j..k] == sent + data[i..k]
  {
  }

  lemma FrontOverwritten<T>(bytes: seq<T>, data: seq<T>)
    requires |bytes| <= |data|
    ensures var d := bytes + data[|bytes|..]; |d| == |data| && d[0..|bytes|] == bytes
  {
  }

  lemma StepKeepsStreams(s: Session, e: Event)
    requires |s.data| == MAX_LENGTH && StreamsAgree(s) && Allowed(s.phase, e)
    ensures |Step(s, e).data| == MAX_LENGTH && StreamsAgree(Step(s, e))
  {
    if e.Emit? {
      TwoSlices(s.data, s.sent, s.phase.emitted, s.phase.emitted + e.count, s.phase.size);
    } else if e.ReadDone? && e.ok {
      FrontOverwritten(e.bytes, s.data);
    }
  }

  lemma StepKeepsLog(s: Session, e: Event)
    requires Inv(s) && Allowed(s.phase, e)
    ensures var t := Step(s, e);
            && IsTrace(t.log) && (t.phase.Deleted? <==> Failed(t.log))
            && (!t.phase.Deleted? ==> Awaited(t.phase) == StageAt(|t.log|))
  {
    hide IsTrace, Failed;
    if !e.Emit? {
      TraceGrows(s.log, e.ok);
    }
  }

  lemma StepKeepsInv(s: Session, e: Event)
    requires Inv(s) && Allowed(s.phase, e)
    ensures Inv(Step(s, e))
  {
    StepKeepsStreams(s, e);
    StepKeepsLog(s, e);
    hide Step, StreamsAgree, IsTrace, Failed, Awaited, StageAt;
  }

  // ---------- Runs ----------

  /** The events `es` can happen, in this order, to a session whose buffer started as `garbage`. */
  ghost predicate Legal(garbage: seq<byte>, es: seq<Event>)
    requires |garbage| == MAX_LENGTH
    decreases |es|, 0
  {
    es == [] ||
    (var before := es[..|es| - 1]; Legal(garbage, before) && Allowed(Run(garbage, before).phase, es[|es| - 1]))
  }

  /** The session after the events `es`. */
  ghost function Run(garbage: seq<byte>, es: seq<Event>): (s: Session)
    requires |garbage| == MAX_LENGTH && Legal(garbage, es)
    ensures Inv(s)
    decreases |es|, 1
  {
    if es == [] then Fresh(garbage)
    else
      var s := Run(garbage, es[..|es| - 1]);
      StepKeepsInv(s, es[|es| - 1]);
      Step(s, es[|es| - 1])
  }

  /** The events `es`, in this order, lead to `s`. */
  ghost predicate Reaches(garbage: seq<byte>, es: seq<Event>, s: Session) {
    |garbage| == MAX_LENGTH && Legal(garbage, es) && s == Run(garbage, es)
  }

  lemma RunSnoc(garbage: seq<byte>, es: seq<Event>, e: Event)
    requires |garbage| == MAX_LENGTH && Legal(garbage, es) && Allowed(Run(garbage, es).phase, e)
    ensures Legal(garbage, es + [e]) && Run(garbage, es + [e]) == Step(Run(garbage, es), e)
  {
    assert (es + [e])[..|es|] == es;
  }

  /** A session waits for its accept only until the first thing happens to it. */
  lemma AcceptingMeansFresh(garbage: seq<byte>, es: seq<Event>)
    requires |garbage| == MAX_LENGTH && Legal(garbage, es) && Run(garbage, es).phase.Accepting?
    ensures es == []
  {
  }

  lemma InvMeansEcho(s: Session)
    requires Inv(s)
    ensures IsPrefix(s.sent, s.received)
    ensures |s.received| <= |s.sent| + MAX_LENGTH
  {
  }

  /** After the events `es`, `e` can happen. */
  ghost predicate CanFollow(garbage: seq<byte>, es: seq<Event>, e: Event) {
    |garbage| == MAX_LENGTH && Legal(garbage, es + [e])
  }

  lemma FollowsIfAllowed(garbage: seq<byte>, es: seq<Event>, s: Session, e: Event)
    requires Reaches(garbage, es, s)
    ensures CanFollow(garbage, es, e) <==> Allowed(s.phase, e)
  {
    assert (es + [e])[..|es|] == es;
  }

  /**
   Exactly what may happen next: a completion of the operation that is outstanding, good or bad; a good read of any
   number of bytes up to 1024; any piece of what is left of a write; and the good end of a write when nothing is left.
   */
  lemma WhatMayHappen(garbage: seq<byte>, es: seq<Event>, s: Session)
    requires Reaches(garbage, es, s)
    ensures forall ok :: CanFollow(garbage, es, AcceptDone(ok)) <==> s.phase.Accepting?
    ensures forall ok :: CanFollow(garbage, es, HandshakeDone(ok)) <==> s.phase.Handshaking?
    ensures forall bytes :: CanFollow(garbage, es, ReadDone(true, bytes)) <==> s.phase.Reading? && |bytes| <= 1024
    ensures forall bytes :: CanFollow(garbage, es, ReadDone(false, bytes)) <==> s.phase.Reading? && bytes == []
    ensures forall k: nat :: CanFollow(garbage, es, Emit(k))
                        <==> s.phase.Writing? && 1 <= k <= s.phase.size - s.phase.emitted
    ensures CanFollow(garbage, es, WriteDone(true)) <==> s.phase.Writing? && s.phase.emitted == s.phase.size
    ensures CanFollow(garbage, es, WriteDone(false)) <==> s.phase.Writing?
  {
    hide CanFollow, Reaches;
    forall e ensures CanFollow(garbage, es, e) <==> Allowed(s.phase, e) {
      FollowsIfAllowed(garbage, es, s, e);
    }
  }

  /** A completion with an error deletes the session, without anything more being sent. */
  lemma FailureDeletes(garbage: seq<byte>, es: seq<Event>, s: Session, e: Event, t: Session)
    requires Reaches(garbage, es, s) && Reaches(garbage, es + [e], t)
    requires e in {AcceptDone(false), HandshakeDone(false), ReadDone(false, []), WriteDone(false)}
    ensures t.phase.Deleted? && t.received == s.received && t.sent == s.sent
  {
    assert (es + [e])[..|es|] == es;
  }

  // ---------- Ordinary conversations ----------

  /** The pieces, put together. */
  function Joined(pieces: seq<seq<byte>>): seq<byte> {
    if pieces == [] then [] else Joined(pieces[..|pieces| - 1]) + pieces[|pieces| - 1]
  }

  /** The buffer is handed over piece by piece. */
  function Emits(pieces: seq<seq<byte>>): seq<Event> {
    if pieces == [] then [] else Emits(pieces[..|pieces| - 1]) + [Emit(|pieces[|pieces| - 1]|)]
  }

  /** Up to 1024 bytes arrive in one read, and are written in these pieces, none of them empty. */
  predicate IsExchange(pieces: seq<seq<byte>>) {
    |Joined(pieces)| <= 1024 && forall i :: 0 <= i < |pieces| ==> pieces[i] != []
  }

  /** A connection on which everything goes well, for any exchanges one after the other. */
  function Conversation(exchanges: seq<seq<seq<byte>>>): seq<Event> {
    if exchanges == [] then [AcceptDone(true), HandshakeDone(true)]
    else
      var pieces := exchanges[|exchanges| - 1];
      Conversation(exchanges[..|exchanges| - 1]) + [ReadDone(true, Joined(pieces))] + Emits(pieces) + [WriteDone(true)]
  }

  function Input(exchanges: seq<seq<seq<byte>>>): seq<byte> {
    if exchanges == [] then [] else Input(exchanges[..|exchanges| - 1]) + Joined(exchanges[|exchanges| - 1])
  }

  function ReadsAndWrites(n: nat): (log: seq<Happening>) {
    if n == 0 then [Happening(Accept, true), Happening(Handshake, true)]
    else ReadsAndWrites(n - 1) + [Happening(Read, true), Happening(Write, true)]
  }

  lemma {:induction false} JoinedPrefix(pieces: seq<seq<byte>>, k: nat)
    requires k <= |pieces|
    ensures Joined(pieces[..k]) <= Joined(pieces)
  {
    if k == |pieces| {
      assert pieces[..k] == pieces;
    } else {
      JoinedPrefix(pieces[..|pieces| - 1], k);
      assert pieces[..|pieces| - 1][..k] == pieces[..k];
    }
  }

  lemma SliceOfPrefix<T>(data: seq<T>, whole: seq<T>, before: seq<T>, last: seq<T>)
    requires whole <= data && before + last <= whole
    ensures data[|before|..|before| + |last|] == last
  {
    assert before + last == data[..|before| + |last|];
    assert (before + last)[|before|..] == last;
  }

  lemma NoPieces()
    ensures Joined([]) == [] && Emits([]) == []
  {
  }

  lemma OnePieceMore(pieces: seq<seq<byte>>, k: nat)
    requires 0 < k <= |pieces|
    ensures Joined(pieces[..k]) == Joined(pieces[..k - 1]) + pieces[k - 1]
    ensures Emits(pieces[..k]) == Emits(pieces[..k - 1]) + [Emit(|pieces[k - 1]|)]
  {
    assert pieces[..k][..k - 1] == pieces[..k - 1];
  }

  lemma EmitOne(s: Session, n: nat, before: seq<byte>, last: seq<byte>)
    requires |s.data| == MAX_LENGTH && last != [] && |before + last| <= n <= MAX_LENGTH
    requires s.data[|before|..|before| + |last|] == last
    ensures var t := s.(phase := Writing(n, |before|), sent := s.sent + before);
            && Allowed(t.phase, Emit(|last|))
            && Step(t, Emit(|last|)) == s.(phase := Writing(n, |before + last|), sent := s.sent + (before + last))
  {
    assert s.sent + before + last == s.sent + (before + last);
  }

  lemma {:induction false} EmitsUpTo(garbage: seq<byte>, es: seq<Event>, s: Session, pieces: seq<seq<byte>>, k: nat)
    requires Reaches(garbage, es, s) && IsExchange(pieces) && k <= |pieces|
    requires s.phase == Writing(|Joined(pieces)|, 0) && s.data[..|Joined(pieces)|] == Joined(pieces)
    ensures Reaches(garbage, es + Emits(pieces[..k]),
                    s.(phase := Writing(|Joined(pieces)|, |Joined(pieces[..k])|), sent := s.sent + Joined(pieces[..k])))
    decreases k
  {
    hide Legal, Run, Joined, Emits, Allowed, Step;
    var n := |Joined(pieces)|;
    if k == 0 {
      NoPieces();
      assert pieces[..0] == [] && es + [] == es && s.sent + [] == s.sent;
    } else {
      var last, before := pieces[k - 1], Joined(pieces[..k - 1]);
      EmitsUpTo(garbage, es, s, pieces, k - 1);
      OnePieceMore(pieces, k);
      JoinedPrefix(pieces, k);
      SliceOfPrefix(s.data, Joined(pieces), before, last);
      EmitOne(s, n, before, last);
      var t := s.(phase := Writing(n, |before|), sent := s.sent + before);
      OneMore(garbage, es + Emits(pieces[..k - 1]), t, Emit(|last|));
      assert es + Emits(pieces[..k - 1]) + [Emit(|last|)] == es + (Emits(pieces[..k - 1]) + [Emit(|last|)]);
    }
  }

  lemma OneMore(garbage: seq<byte>, es: seq<Event>, s: Session, e: Event)
    requires Reaches(garbage, es, s) && Allowed(s.phase, e)
    ensures Inv(s) && Reaches(garbage, es + [e], Step(s, e))
  {
    RunSnoc(garbage, es, e);
  }

  /**
   Any input, cut into any reads of 0 to 1024 bytes, each written back in any pieces, is a conversation that can be
   had, and that sends the input back.
   */
  lemma {:induction false} OrdinaryConversation(garbage: seq<byte>, exchanges: seq<seq<seq<byte>>>)
    requires |garbage| == 1024 && forall i :: 0 <= i < |exchanges| ==> IsExchange(exchanges[i])
    ensures Legal(garbage, Conversation(exchanges))
    ensures var s := Run(garbage, Conversation(exchanges));
            && s.phase == Reading && s.received == s.sent == Input(exchanges)
            && s.log == ReadsAndWrites(|exchanges|)
  {
    hide Legal, Run;
    if exchanges == [] {
      AtFirst(garbage);
      OneMore(garbage, [], Fresh(garbage), AcceptDone(true));
      var s := Step(Fresh(garbage), AcceptDone(true));
      assert [] + [AcceptDone(true)] == [AcceptDone(true)];
      OneMore(garbage, [AcceptDone(true)], s, HandshakeDone(true));
      assert [AcceptDone(true)] + [HandshakeDone(true)] == Conversation([]);
      assert s.log + [Happening(Handshake, true)] == ReadsAndWrites(0);
    } else {
      var earlier, pieces := exchanges[..|exchanges| - 1], exchanges[|exchanges| - 1];
      OrdinaryConversation(garbage, earlier);
      ExchangeHappens(garbage, Conversation(earlier), Run(garbage, Conversation(earlier)), pieces);
    }
  }

  lemma AtFirst(garbage: seq<byte>)
    requires |garbage| == MAX_LENGTH
    ensures Reaches(garbage, [], Fresh(garbage))
  {
  }

  lemma ExchangeHappens(garbage: seq<byte>, es: seq<Event>, s: Session, pieces: seq<seq<byte>>)
    requires Reaches(garbage, es, s) && s.phase == Reading && IsExchange(pieces)
    ensures exists t ::
              && Reaches(garbage, es + [ReadDone(true, Joined(pieces))] + Emits(pieces) + [WriteDone(true)], t)
              && t.phase == Reading && t.received == s.received + Joined(pieces)
              && t.sent == s.sent + Joined(pieces)
              && t.log == s.log + [Happening(Read, true), Happening(Write, true)]
  {
    hide Legal, Run;
    var chunk := Joined(pieces);
    OneMore(garbage, es, s, ReadDone(true, chunk));
    var r := Step(s, ReadDone(true, chunk));
    FrontOverwritten(chunk, s.data);
    EmitsUpTo(garbage, es + [ReadDone(true, chunk)], r, pieces, |pieces|);
    assert pieces[..|pieces|] == pieces;
    var w := r.(phase := Writing(|chunk|, |chunk|), sent := r.sent + chunk);
    OneMore(garbage, es + [ReadDone(true, chunk)] + Emits(pieces), w, WriteDone(true));
    assert w.log + [Happening(Write, true)] == s.log + [Happening(Read, true), Happening(Write, true)];
  }

  // ---------- Chunking independence ----------

  /** The bytes delivered by the reads among `es`, in order. */
  ghost function Delivered(es: seq<Event>): seq<byte> {
    if es == [] then [] else
    var last := es[|es| - 1];
    Delivered(es[..|es| - 1]) + (if last.ReadDone? then last.bytes else [])
  }

  lemma {:induction false} ReceivedIsDelivered(garbage: seq<byte>, es: seq<Event>, s: Session)
    requires Reaches(garbage, es, s)
    ensures s.received == Delivered(es)
    decreases |es|
  {
    hide Inv;
    if es != [] {
      ReceivedIsDelivered(garbage, es[..|es| - 1], Run(garbage, es[..|es| - 1]));
    }
  }

  /**
   Two conversations that were given the same input, cut into reads in any two ways and written back in any
   two sequences of pieces, have sent the same bytes, namely the input, whenever both are back at reading.
   */
  lemma {:induction false} ChunkingIndependence(g1: seq<byte>, es1: seq<Event>, s1: Session,
                                                g2: seq<byte>, es2: seq<Event>, s2: Session)
    requires Reaches(g1, es1, s1) && Reaches(g2, es2, s2) && Delivered(es1) == Delivered(es2)
    requires s1.phase.Reading? && s2.phase.Reading?
    ensures s1.sent == s2.sent == Delivered(es1)
  {
    ReceivedIsDelivered(g1, es1, s1);
    ReceivedIsDelivered(g2, es2, s2);
  }

  // ---------- Progress ----------

  /** An event on a connection without errors, over which the client sends exactly `input`; reads deliver something. */
  predicate GoesWell(received: seq<byte>, e: Event, input: seq<byte>) {
    match e
    case AcceptDone(ok) => ok
    case HandshakeDone(ok) => ok
    case ReadDone(ok, bytes) => ok && bytes != [] && received + bytes <= input
    case Emit(_) => true
    case WriteDone(ok) => ok
  }

  predicate Progresses(s: Session, e: Event, input: seq<byte>) {
    Allowed(s.phase, e) && GoesWell(s.received, e, input)
  }

  /** Work left: three units for each byte not yet read, one for each byte not yet written, and the phase's own. */
  function Rank(s: Session, input: seq<byte>): int {
    3 * (|input| - |s.received|) +
    match s.phase
    case Accepting => 2
    case Handshaking => 1
    case Reading => 0
    case Writing(size, emitted) => 1 + size - emitted
    case Deleted => 0
  }

  lemma RankDecreases(s: Session, e: Event, input: seq<byte>)
    requires Inv(s) && s.received <= input && Progresses(s, e, input)
    ensures 0 <= Rank(Step(s, e), input) < Rank(s, input)
    ensures !Step(s, e).phase.Deleted? && Step(s, e).received <= input
  {
    StepKeepsInv(s, e);
  }

  /** Nothing more can happen without an error exactly when the whole input has been read and echoed. */
  lemma StuckExactlyWhenEchoed(s: Session, input: seq<byte>)
    requires Inv(s) && s.received <= input && !s.phase.Deleted?
    ensures (forall e :: !Progresses(s, e, input)) <==> (s.phase.Reading? && s.received == s.sent == input)
    ensures (forall e :: !Progresses(s, e, input)) <==> Rank(s, input) == 0
  {
    match s.phase
    case Accepting => assert Progresses(s, AcceptDone(true), input);
    case Handshaking => assert Progresses(s, HandshakeDone(true), input);
    case Reading =>
      if |s.received| < |input| {
        var next := input[|s.received|..|s.received| + 1];
        assert s.received + next == input[..|s.received| + 1];
        assert Progresses(s, ReadDone(true, next), input);
      }
    case Writing(size, emitted) =>
      if emitted == size {
        assert Progresses(s, WriteDone(true), input);
      } else {
        assert Progresses(s, Emit(1), input);
      }
  }

  /** Every event of the run was progress on `input`. */
  ghost predicate Undisturbed(garbage: seq<byte>, es: seq<Event>, input: seq<byte>)
    requires |garbage| == MAX_LENGTH && Legal(garbage, es)
    decreases |es|
  {
    es == [] ||
    (var before := es[..|es| - 1];
     Undisturbed(garbage, before, input) && Progresses(Run(garbage, before), es[|es| - 1], input))
  }

  /**
   An undisturbed conversation about a finite input has at most 2 + 3 * |input| events, and when no further
   event can happen to it the client has got back exactly what it sent.
   */
  lemma {:induction false} EveryConversationCompletes(garbage: seq<byte>, es: seq<Event>, s: Session, input: seq<byte>)
    requires Reaches(garbage, es, s) && Undisturbed(garbage, es, input)
    ensures 0 <= Rank(s, input) <= 2 + 3 * |input| - |es|
    ensures s.received <= input && !s.phase.Deleted?
    ensures (forall e :: !Progresses(s, e, input)) ==> s.phase.Reading? && s.sent == input
    decreases |es|
  {
    if es != [] {
      var before := Run(garbage, es[..|es| - 1]);
      EveryConversationCompletes(garbage, es[..|es| - 1], before, input);
      RankDecreases(before, es[|es| - 1], input);
    }
    StuckExactlyWhenEchoed(s, input);
  }
}
