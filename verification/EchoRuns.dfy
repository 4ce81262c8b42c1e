/**
 Theorems about every run of the echo server, with any number of clients and any interleaving.  The main one,
 Refinement, projects a run of the server onto one session and gets a run of the sequential automaton of
 module EchoSession; most of the others are then facts about one client, carried over.
 */
module EchoRuns {
  import opened Bytes
  import opened EchoWorld
  import S = EchoSession

  type Buffer = b: seq<byte> | |b| == S.MAX_LENGTH witness seq(S.MAX_LENGTH, _ => 0)

  /** The state after the constructor of `server`. */
  function Boot(garbage: Buffer): (w: World) {
    StartAccept(World([], multiset{}), garbage)
  }

  lemma BootInv(garbage: Buffer)
    ensures Inv(Boot(garbage))
  {
    var none, w := World([], multiset{}), Boot(garbage);
    assert Bijection(none);
    StartAcceptKeepsBijection(none, garbage);
    assert w.pending == multiset{AsyncAccept(0)};
  }

  /** The completions `es` can happen in this order. */
  ghost predicate Legal(garbage: Buffer, es: seq<Event>)
    decreases |es|, 0
  {
    es == [] ||
    (var before := es[..|es| - 1]; Legal(garbage, before) && Enabled(Run(garbage, before), es[|es| - 1]))
  }

  /** The state between handlers, after the completions `es`: each step in its normal form. */
  ghost function Run(garbage: Buffer, es: seq<Event>): (w: World)
    requires Legal(garbage, es)
    ensures WellFormed(w)
    decreases |es|, 1
  {
    if es == [] then BootInv(garbage); Boot(garbage)
    else
      var w := Run(garbage, es[..|es| - 1]);
      EffectWellFormed(w, es[|es| - 1]);
      Effect(w, es[|es| - 1])
  }

  /** The completions `es`, in this order, lead to the state `w`. */
  ghost predicate Reaches(garbage: Buffer, es: seq<Event>, w: World) {
    Legal(garbage, es) && w == Run(garbage, es)
  }

  lemma {:induction false} LegalPrefix(garbage: Buffer, es: seq<Event>, n: nat)
    requires Legal(garbage, es) && n <= |es|
    ensures Legal(garbage, es[..n])
  {
    hide Run, Enabled;
    if n < |es| {
      LegalPrefix(garbage, es[..|es| - 1], n);
      assert es[..|es| - 1][..n] == es[..n];
    } else {
      assert es[..n] == es;
    }
  }

  lemma {:induction false} RunInv(garbage: Buffer, es: seq<Event>)
    requires Legal(garbage, es)
    ensures Inv(Run(garbage, es))
  {
    if es == [] {
      BootInv(garbage);
    } else {
      RunInv(garbage, es[..|es| - 1]);
      EffectKeepsInv(Run(garbage, es[..|es| - 1]), es[|es| - 1]);
    }
  }

  lemma OneOwner(garbage: Buffer, es: seq<Event>, op: Op)
    requires Legal(garbage, es) && op in Run(garbage, es).pending
    ensures Owns(Run(garbage, es), op)
  {
    RunInv(garbage, es);
  }

  // ---------- Memory safety and ownership ----------

  /**
   The handlers, executed one after the other.  No run ends in a fault: no handler ever touches or deletes a
   session that has been deleted.
   */
  ghost function Execute(garbage: Buffer, es: seq<Event>): (o: Outcome)
    requires Legal(garbage, es)
    ensures o == Running(Run(garbage, es))
    decreases |es|
  {
    if es == [] then Running(Boot(garbage))
    else
      var w, last := Execute(garbage, es[..|es| - 1]).world, es[|es| - 1];
      OneOwner(garbage, es[..|es| - 1], last.op);
      StepIsEffect(w, last);
      Step(w, last)
  }

  lemma NothingYet(garbage: Buffer, es: seq<Event>)
    ensures Legal(garbage, es[..0]) && Run(garbage, es[..0]) == Boot(garbage)
  {
  }

  /** Each turn of a run is a turn of the state machine, and does not fault. */
  lemma NextStep(garbage: Buffer, es: seq<Event>, i: nat)
    requires Legal(garbage, es) && i < |es|
    ensures Legal(garbage, es[..i]) && Legal(garbage, es[..i + 1])
    ensures Inv(Run(garbage, es[..i])) && Enabled(Run(garbage, es[..i]), es[i])
    ensures Step(Run(garbage, es[..i]), es[i]) == Running(Run(garbage, es[..i + 1]))
  {
    hide Effect, Step;
    LegalPrefix(garbage, es, i);
    LegalPrefix(garbage, es, i + 1);
    assert es[..i + 1][..i] == es[..i];
    LastStep(garbage, es[..i + 1]);
    RunInv(garbage, es[..i]);
    StepIsEffect(Run(garbage, es[..i]), es[i]);
  }

  /** What is known of the last step of a run, without the quantifiers of the invariant. */
  lemma LastStep(garbage: Buffer, es: seq<Event>)
    requires Legal(garbage, es) && es != []
    ensures Legal(garbage, es[..|es| - 1])
    ensures var w, e := Run(garbage, es[..|es| - 1]), es[|es| - 1];
            && WellFormed(w) && Enabled(w, e) && Owns(w, e.op)
            && Run(garbage, es) == Effect(w, e)
  {
    OneOwner(garbage, es[..|es| - 1], es[|es| - 1].op);
  }

  // ---------- Refinement ----------

  /** What `es` did to session `id`. */
  ghost function Mine(es: seq<Event>, id: nat): seq<S.Event> {
    if es == [] then [] else
    var last := es[|es| - 1];
    Mine(es[..|es| - 1], id) + (if last.op.id == id then [last.what] else [])
  }

  /** The contents of the memory of the sessions, as they were allocated. */
  ghost function Allocations(garbage: Buffer, es: seq<Event>): seq<seq<byte>> {
    if es == [] then [garbage] else
    var last := es[|es| - 1];
    Allocations(garbage, es[..|es| - 1]) + (if last.what.AcceptDone? then [last.garbage] else [])
  }

  function OpOf(id: nat, p: S.Phase): Op
    requires !p.Deleted?
  {
    match p
    case Accepting => AsyncAccept(id)
    case Handshaking => AsyncHandshake(id)
    case Reading => AsyncRead(id)
    case Writing(size, emitted) => AsyncWrite(id, size, emitted)
  }

  /** Session `id` of the server is the sequential session `s`: same memory, and waiting for the same thing. */
  ghost predicate Matches(w: World, id: nat, s: S.Session) {
    && id < |w.sessions|
    && w.sessions[id] == Memory(!s.phase.Deleted?, s.data, s.received, s.sent, s.log)
    && (!s.phase.Deleted? ==> OpOf(id, s.phase) in w.pending)
  }

  lemma OwnStep(w: World, e: Event, s: S.Session)
    requires WellFormed(w) && Enabled(w, e) && Owns(w, e.op) && Matches(w, e.op.id, s) && S.Inv(s)
    ensures S.Allowed(s.phase, e.what)
    ensures Matches(Effect(w, e), e.op.id, S.Step(s, e.what))
  {
    assert e.op == OpOf(e.op.id, s.phase);
    assert PhaseOf(e.op) == s.phase;
    OwnMemory(w, e, s);
    OwnPhase(w, e, s);
  }

  lemma OwnMemory(w: World, e: Event, s: S.Session)
    requires WellFormed(w) && Enabled(w, e) && w.Alive(e.op.id) && S.Inv(s)
    requires PhaseOf(e.op) == s.phase && w.sessions[e.op.id] == Memory(true, s.data, s.received, s.sent, s.log)
    ensures var t := S.Step(s, e.what);
            Touched(w, e) == Memory(!t.phase.Deleted?, t.data, t.received, t.sent, t.log)
  {
  }

  lemma OwnPhase(w: World, e: Event, s: S.Session)
    requires WellFormed(w) && Enabled(w, e) && w.Alive(e.op.id) && S.Inv(s) && PhaseOf(e.op) == s.phase
    ensures var t := S.Step(s, e.what);
            && (t.phase.Deleted? <==> !Survives(e.what))
            && (Survives(e.what) ==> NextOp(e.op, e.what) == OpOf(e.op.id, t.phase))
  {
  }

  /** The frame: a step of one session changes neither the memory nor the outstanding operation of another. */
  lemma OtherStep(w: World, e: Event, id: nat, s: S.Session)
    requires WellFormed(w) && Enabled(w, e) && Owns(w, e.op) && Matches(w, id, s) && id != e.op.id
    ensures Matches(Effect(w, e), id, s)
  {
  }

  lemma NewSession(w: World, e: Event)
    requires WellFormed(w) && Enabled(w, e) && Owns(w, e.op)
    ensures |Effect(w, e).sessions| == |w.sessions| + (if e.what.AcceptDone? then 1 else 0)
    ensures e.what.AcceptDone? ==> Matches(Effect(w, e), |w.sessions|, S.Fresh(e.garbage))
  {
  }

  lemma {:induction false} AllocationsCounted(garbage: Buffer, es: seq<Event>)
    requires Legal(garbage, es)
    ensures |Run(garbage, es).sessions| == |Allocations(garbage, es)|
    ensures forall i :: 0 <= i < |Allocations(garbage, es)| ==> |Allocations(garbage, es)[i]| == S.MAX_LENGTH
    ensures forall id: nat :: id >= |Run(garbage, es).sessions| ==> Mine(es, id) == []
  {
    hide Effect, Legal, Run, Mine, Allocations, WellFormed, Enabled;
    if es == [] {
      BootRefines(garbage);
    } else {
      LastStep(garbage, es);
      NewSession(Run(garbage, es[..|es| - 1]), es[|es| - 1]);
      AllocationsCounted(garbage, es[..|es| - 1]);
      LastEvent(garbage, es, 0);
    }
    forall id: nat | id >= |Run(garbage, es).sessions| ensures Mine(es, id) == [] {
      if es != [] {
        LastEvent(garbage, es, id);
      }
    }
  }

  /** Session `id` is as a sequential session is that started with buffer `g` and to which `mine` happened. */
  ghost predicate Refines(w: World, id: nat, g: seq<byte>, mine: seq<S.Event>) {
    |g| == S.MAX_LENGTH && S.Legal(g, mine) && Matches(w, id, S.Run(g, mine))
  }

  lemma RefinesOwn(w: World, e: Event, g: seq<byte>, mine: seq<S.Event>)
    requires WellFormed(w) && Enabled(w, e) && Owns(w, e.op) && Refines(w, e.op.id, g, mine)
    ensures Refines(Effect(w, e), e.op.id, g, mine + [e.what])
  {
    OwnStep(w, e, S.Run(g, mine));
    S.RunSnoc(g, mine, e.what);
  }

  /** `e` extends every session's own events as it should. */
  lemma RefinesStep(w: World, e: Event, id: nat, g: seq<byte>, mine: seq<S.Event>)
    requires WellFormed(w) && Enabled(w, e) && Owns(w, e.op) && Refines(w, id, g, mine)
    ensures Refines(Effect(w, e), id, g, mine + (if e.op.id == id then [e.what] else []))
  {
    if e.op.id == id {
      RefinesOwn(w, e, g, mine);
    } else {
      OtherStep(w, e, id, S.Run(g, mine));
      assert mine + [] == mine;
    }
  }

  /**
   Every run of the server, projected onto one session, is a run of the sequential automaton, and leaves the
   session as that run does: no handler of one session affects the buffer, phase or streams of another.
   */
  lemma {:induction false} Refinement(garbage: Buffer, es: seq<Event>, w: World, id: nat)
    requires Reaches(garbage, es, w) && id < |w.sessions|
    ensures id < |Allocations(garbage, es)|
    ensures Refines(w, id, Allocations(garbage, es)[id], Mine(es, id))
    decreases |es|
  {
    hide Effect, Legal, Run, Mine, Allocations, Refines, WellFormed, Enabled, Owns;
    AllocationsCounted(garbage, es);
    if es == [] {
      BootRefines(garbage);
    } else {
      var before, last := es[..|es| - 1], es[|es| - 1];
      LastStep(garbage, es);
      LastEvent(garbage, es, id);
      NewSession(Run(garbage, before), last);
      AllocationsCounted(garbage, before);
      if id < |Run(garbage, before).sessions| {
        Refinement(garbage, before, Run(garbage, before), id);
        RefinesStep(Run(garbage, before), last, id, Allocations(garbage, before)[id], Mine(before, id));
      } else {
        FreshRefines(Run(garbage, es), id, last.garbage);
      }
    }
  }

  lemma LastEvent(garbage: Buffer, es: seq<Event>, id: nat)
    requires es != []
    ensures var before, last := es[..|es| - 1], es[|es| - 1];
            && Mine(es, id) == Mine(before, id) + (if last.op.id == id then [last.what] else [])
            && Allocations(garbage, es)
               == Allocations(garbage, before) + (if last.what.AcceptDone? then [last.garbage] else [])
  {
  }

  lemma FreshRefines(w: World, id: nat, g: seq<byte>)
    requires |g| == S.MAX_LENGTH && Matches(w, id, S.Fresh(g))
    ensures Refines(w, id, g, [])
  {
  }

  /** At first there is one session, which has done nothing. */
  lemma BootRefines(garbage: Buffer)
    ensures Legal(garbage, []) && Run(garbage, []) == Boot(garbage) && |Boot(garbage).sessions| == 1
    ensures (forall id :: Mine([], id) == []) && Allocations(garbage, []) == [garbage]
    ensures Refines(Boot(garbage), 0, garbage, [])
  {
    assert AsyncAccept(0) in Boot(garbage).pending;
  }

  /** The operation that a live session is waiting for. */
  lemma Outstanding(garbage: Buffer, es: seq<Event>, w: World, id: nat) returns (op: Op)
    requires Reaches(garbage, es, w) && w.Alive(id)
    ensures op in w.pending && op.id == id
  {
    Refinement(garbage, es, w, id);
    op := OpOf(id, S.Run(Allocations(garbage, es)[id], Mine(es, id)).phase);
  }

  /** In every state between handlers, live sessions and outstanding operations correspond one to one. */
  lemma Ownership(garbage: Buffer, es: seq<Event>, w: World)
    requires Reaches(garbage, es, w)
    ensures forall op :: op in w.pending ==> w.pending[op] == 1 && w.Alive(op.id)
    ensures forall op, other :: op in w.pending && other in w.pending && op.id == other.id ==> op == other
    ensures forall id: nat :: w.Alive(id) ==> exists op :: op in w.pending && op.id == id
  {
    RunInv(garbage, es);
    forall op | op in w.pending ensures Owns(w, op) {}
    forall id: nat | w.Alive(id) ensures exists op :: op in w.pending && op.id == id {
      var op := Outstanding(garbage, es, w, id);
    }
  }

  /** What the memory of session `id` contained when it was allocated. */
  ghost function Allocation(garbage: Buffer, es: seq<Event>, w: World, id: nat): seq<byte>
    requires Reaches(garbage, es, w) && id < |w.sessions|
  {
    AllocationsCounted(garbage, es);
    Allocations(garbage, es)[id]
  }

  /** The state of a session depends only on its own memory and its own events, not on the rest of the run. */
  lemma {:induction false} Determinacy(g1: Buffer, es1: seq<Event>, w1: World, id1: nat,
                                       g2: Buffer, es2: seq<Event>, w2: World, id2: nat)
    requires Reaches(g1, es1, w1) && id1 < |w1.sessions| && Reaches(g2, es2, w2) && id2 < |w2.sessions|
    requires Allocation(g1, es1, w1, id1) == Allocation(g2, es2, w2, id2) && Mine(es1, id1) == Mine(es2, id2)
    ensures w1.sessions[id1] == w2.sessions[id2]
  {
    Refinement(g1, es1, w1, id1);
    Refinement(g2, es2, w2, id2);
  }

  /**
   The order in which the events of different sessions happen does not matter at all: two runs that allocate the
   same memory and in which the same happens to each session reach the same state of the whole server.
   */
  lemma {:induction false} Confluence(g1: Buffer, es1: seq<Event>, w1: World, g2: Buffer, es2: seq<Event>, w2: World)
    requires Reaches(g1, es1, w1) && Reaches(g2, es2, w2)
    requires Allocations(g1, es1) == Allocations(g2, es2) && forall id: nat :: Mine(es1, id) == Mine(es2, id)
    ensures w1 == w2
  {
    hide Reaches, Allocations, Mine;
    SameNumber(g1, es1, w1, g2, es2, w2);
    forall id: nat | id < |w1.sessions| ensures w1.sessions[id] == w2.sessions[id] {
      Determinacy(g1, es1, w1, id, g2, es2, w2, id);
    }
    forall op: Op ensures w1.pending[op] == w2.pending[op] {
      SamePendingOp(g1, es1, w1, g2, es2, w2, op);
      SamePendingOp(g2, es2, w2, g1, es1, w1, op);
    }
  }

  lemma SameNumber(g1: Buffer, es1: seq<Event>, w1: World, g2: Buffer, es2: seq<Event>, w2: World)
    requires Reaches(g1, es1, w1) && Reaches(g2, es2, w2) && Allocations(g1, es1) == Allocations(g2, es2)
    ensures |w1.sessions| == |w2.sessions|
    ensures forall id: nat :: id < |w1.sessions| ==> Allocation(g1, es1, w1, id) == Allocation(g2, es2, w2, id)
  {
    AllocationsCounted(g1, es1);
    AllocationsCounted(g2, es2);
  }

  lemma {:induction false} SamePendingOp(g1: Buffer, es1: seq<Event>, w1: World,
                                         g2: Buffer, es2: seq<Event>, w2: World, op: Op)
    requires Reaches(g1, es1, w1) && Reaches(g2, es2, w2)
    requires Allocations(g1, es1) == Allocations(g2, es2) && Mine(es1, op.id) == Mine(es2, op.id)
    ensures op in w1.pending ==> w1.pending[op] == w2.pending[op] == 1
  {
    hide Legal, Run, Allocations, Mine;
    if op in w1.pending {
      OneOwner(g1, es1, op);
      SameNumber(g1, es1, w1, g2, es2, w2);
      Refinement(g1, es1, w1, op.id);
      Refinement(g2, es2, w2, op.id);
      assert op == OpOf(op.id, S.Run(Allocation(g1, es1, w1, op.id), Mine(es1, op.id)).phase);
      OneOwner(g2, es2, op);
    }
  }

  // ---------- The converse of refinement ----------

  lemma RunSnoc(garbage: Buffer, es: seq<Event>, e: Event)
    requires Legal(garbage, es) && Enabled(Run(garbage, es), e)
    ensures Legal(garbage, es + [e]) && Run(garbage, es + [e]) == Effect(Run(garbage, es), e)
  {
    hide Effect, Enabled, WellFormed;
    assert (es + [e])[..|es|] == es;
  }

  /** The two sequences differ at most in the operations, which must still be of the same sessions. */
  ghost predicate SameTurns(es: seq<Event>, plan: seq<Event>) {
    && |es| == |plan|
    && forall i :: 0 <= i < |es| ==>
         es[i].op.id == plan[i].op.id && es[i].what == plan[i].what && es[i].garbage == plan[i].garbage
  }

  /**
   Any number of conversations, interleaved in any way: each session is allocated, by an earlier accept, before
   anything happens to it; and what happens to each is a conversation of the sequential automaton.  Of the
   operations in `plan` only the sessions matter.
   */
  ghost predicate IsPlan(garbage: Buffer, plan: seq<Event>) {
    && (forall i :: 0 <= i < |plan| ==>
          |plan[i].garbage| == S.MAX_LENGTH && plan[i].op.id < |Allocations(garbage, plan[..i])|)
    && (forall id: nat :: id < |Allocations(garbage, plan)| ==> IsConversation(garbage, plan, id))
  }

  ghost predicate IsConversation(garbage: Buffer, plan: seq<Event>, id: nat)
    requires id < |Allocations(garbage, plan)|
  {
    var g := Allocations(garbage, plan)[id];
    |g| == S.MAX_LENGTH && S.Legal(g, Mine(plan, id))
  }

  /**
   The runs of the server are exactly the interleavings of conversations of the sequential automaton: a sequence of
   events is a run, once the operations are filled in, if and only if it is a plan.
   */
  lemma Interleavings(garbage: Buffer, plan: seq<Event>)
    ensures IsPlan(garbage, plan) <==> exists es :: Legal(garbage, es) && SameTurns(es, plan)
  {
    if IsPlan(garbage, plan) {
      var es := Realize(garbage, plan);
    }
    forall es | Legal(garbage, es) && SameTurns(es, plan) ensures IsPlan(garbage, plan) {
      RunIsPlan(garbage, es);
      SamePlan(garbage, es, plan);
    }
  }

  lemma {:induction false} SameProjections(garbage: Buffer, es: seq<Event>, plan: seq<Event>, id: nat)
    requires SameTurns(es, plan)
    ensures Mine(es, id) == Mine(plan, id) && Allocations(garbage, es) == Allocations(garbage, plan)
  {
    if es != [] {
      SameProjections(garbage, es[..|es| - 1], plan[..|plan| - 1], id);
    }
  }

  lemma SamePlan(garbage: Buffer, es: seq<Event>, plan: seq<Event>)
    requires SameTurns(es, plan) && IsPlan(garbage, es)
    ensures IsPlan(garbage, plan)
  {
    hide Allocations, Mine;
    forall i | 0 <= i < |plan|
      ensures |plan[i].garbage| == S.MAX_LENGTH && plan[i].op.id < |Allocations(garbage, plan[..i])|
    {
      SameProjections(garbage, es[..i], plan[..i], 0);
    }
    SameProjections(garbage, es, plan, 0);
    forall id: nat | id < |Allocations(garbage, plan)| ensures IsConversation(garbage, plan, id) {
      SameProjections(garbage, es, plan, id);
      assert IsConversation(garbage, es, id);
    }
  }

  /** Every run is a plan. */
  lemma RunIsPlan(garbage: Buffer, es: seq<Event>)
    requires Legal(garbage, es)
    ensures IsPlan(garbage, es)
  {
    hide Legal, Run, Allocations, Mine;
    forall i | 0 <= i < |es|
      ensures |es[i].garbage| == S.MAX_LENGTH && es[i].op.id < |Allocations(garbage, es[..i])|
    {
      NextStep(garbage, es, i);
      AllocationsCounted(garbage, es[..i]);
    }
    AllocationsCounted(garbage, es);
    forall id: nat | id < |Allocations(garbage, es)| ensures IsConversation(garbage, es, id) {
      Refinement(garbage, es, Run(garbage, es), id);
    }
  }

  /** A plan, but for its last event, is a plan. */
  lemma PlanPrefix(garbage: Buffer, plan: seq<Event>)
    requires IsPlan(garbage, plan) && plan != []
    ensures IsPlan(garbage, plan[..|plan| - 1])
  {
    hide Allocations, Mine, S.Legal;
    var before := plan[..|plan| - 1];
    forall i | 0 <= i < |before|
      ensures |before[i].garbage| == S.MAX_LENGTH && before[i].op.id < |Allocations(garbage, before[..i])|
    {
      assert before[..i] == plan[..i];
    }
    forall id: nat | id < |Allocations(garbage, before)| ensures IsConversation(garbage, before, id) {
      LastEvent(garbage, plan, id);
      assert IsConversation(garbage, plan, id);
      LegalButLast(Allocations(garbage, plan)[id], Mine(before, id), Mine(plan, id));
    }
  }

  lemma LegalButLast(g: seq<byte>, before: seq<S.Event>, mine: seq<S.Event>)
    requires |g| == S.MAX_LENGTH && S.Legal(g, mine)
    requires before == mine || (mine != [] && before == mine[..|mine| - 1])
    ensures S.Legal(g, before)
    ensures before != mine ==> S.Allowed(S.Run(g, before).phase, mine[|mine| - 1])
  {
  }

  /** The run that a plan describes. */
  lemma {:induction false} Realize(garbage: Buffer, plan: seq<Event>) returns (es: seq<Event>)
    requires IsPlan(garbage, plan)
    ensures Legal(garbage, es) && SameTurns(es, plan)
  {
    hide Legal, Run, Allocations, Mine, IsPlan, Enabled, WellFormed;
    if plan == [] {
      es := [];
      BootRefines(garbage);
    } else {
      var before, last := plan[..|plan| - 1], plan[|plan| - 1];
      PlanPrefix(garbage, plan);
      es := Realize(garbage, before);
      var op := NextOfPlan(garbage, es, plan);
      var e := Event(op, last.what, last.garbage);
      RunSnoc(garbage, es, e);
      SameTurnsSnoc(es, plan, e);
      es := es + [e];
    }
  }

  lemma SameTurnsSnoc(es: seq<Event>, plan: seq<Event>, e: Event)
    requires plan != [] && SameTurns(es, plan[..|plan| - 1])
    requires var last := plan[|plan| - 1];
             e.op.id == last.op.id && e.what == last.what && e.garbage == last.garbage
    ensures SameTurns(es + [e], plan)
  {
    assert forall i :: 0 <= i < |es| ==> plan[..|plan| - 1][i] == plan[i];
  }

  lemma CanContinue(w: World, id: nat, g: seq<byte>, mine: seq<S.Event>, what: S.Event, garbage: seq<byte>)
    requires WellFormed(w) && Refines(w, id, g, mine) && |garbage| == S.MAX_LENGTH
    requires S.Allowed(S.Run(g, mine).phase, what)
    ensures Enabled(w, Event(OpOf(id, S.Run(g, mine).phase), what, garbage))
  {
    hide S.Run, WellFormed;
    assert PhaseOf(OpOf(id, S.Run(g, mine).phase)) == S.Run(g, mine).phase;
  }

  /** A run that has followed a plan up to its last event can follow it there, too. */
  lemma NextOfPlan(garbage: Buffer, es: seq<Event>, plan: seq<Event>) returns (op: Op)
    requires IsPlan(garbage, plan) && plan != [] && Legal(garbage, es) && SameTurns(es, plan[..|plan| - 1])
    ensures op.id == plan[|plan| - 1].op.id
    ensures Enabled(Run(garbage, es), Event(op, plan[|plan| - 1].what, plan[|plan| - 1].garbage))
  {
    hide Legal, Run, Allocations, Mine, S.Legal, S.Run, Refines, Enabled, WellFormed;
    var before, last := plan[..|plan| - 1], plan[|plan| - 1];
    var id, w := last.op.id, Run(garbage, es);
    SameProjections(garbage, es, before, id);
    AllocationsCounted(garbage, es);
    Refinement(garbage, es, w, id);
    LastEvent(garbage, plan, id);
    assert IsConversation(garbage, plan, id);
    var g, mine := Allocations(garbage, es)[id], Mine(es, id);
    assert (mine + [last.what])[..|mine|] == mine;
    assert mine + [last.what] == Mine(plan, id) && Allocations(garbage, plan)[id] == g;
    LegalButLast(g, mine, Mine(plan, id));
    CanContinue(w, id, g, mine, last.what, last.garbage);
    op := OpOf(id, S.Run(g, mine).phase);
  }

  /** The plan in which the first client has the conversation `mine` and nobody else connects. */
  function Solo(garbage: Buffer, mine: seq<S.Event>): seq<Event> {
    if mine == [] then [] else Solo(garbage, mine[..|mine| - 1]) + [Event(AsyncAccept(0), mine[|mine| - 1], garbage)]
  }

  lemma SoloAtFirst(garbage: Buffer, id: nat)
    ensures Solo(garbage, []) == [] && Mine([], id) == [] && Allocations(garbage, []) == [garbage]
  {
  }

  lemma SoloSnoc(garbage: Buffer, mine: seq<S.Event>)
    requires mine != []
    ensures var solo := Solo(garbage, mine);
            && solo != [] && solo[..|solo| - 1] == Solo(garbage, mine[..|mine| - 1])
            && solo[|solo| - 1] == Event(AsyncAccept(0), mine[|mine| - 1], garbage)
  {
  }

  lemma {:induction false} SoloProjections(garbage: Buffer, mine: seq<S.Event>, id: nat)
    ensures forall i :: 0 <= i < |Solo(garbage, mine)| ==>
              Solo(garbage, mine)[i].op.id == 0 && Solo(garbage, mine)[i].garbage == garbage
    ensures Mine(Solo(garbage, mine), id) == if id == 0 then mine else []
    ensures var gs := Allocations(garbage, Solo(garbage, mine));
            |gs| > 0 && forall i :: 0 <= i < |gs| ==> gs[i] == garbage
  {
    hide Solo, Mine, Allocations;
    if mine == [] {
      SoloAtFirst(garbage, id);
    } else {
      SoloSnoc(garbage, mine);
      SoloProjections(garbage, mine[..|mine| - 1], id);
      LastEvent(garbage, Solo(garbage, mine), id);
      assert mine == mine[..|mine| - 1] + [mine[|mine| - 1]];
    }
  }

  lemma {:induction false} AllocationsNotEmpty(garbage: Buffer, plan: seq<Event>)
    ensures |Allocations(garbage, plan)| > 0
  {
    if plan != [] {
      AllocationsNotEmpty(garbage, plan[..|plan| - 1]);
    }
  }

  /** In particular, every conversation of the sequential automaton is one the first client can have, alone. */
  lemma EveryConversationHappens(garbage: Buffer, mine: seq<S.Event>) returns (es: seq<Event>)
    requires S.Legal(garbage, mine)
    ensures Legal(garbage, es) && Mine(es, 0) == mine && forall i :: 0 <= i < |es| ==> es[i].op.id == 0
    ensures Refines(Run(garbage, es), 0, garbage, mine)
  {
    hide Legal, Run, Allocations, Mine, Refines, Solo;
    var plan := Solo(garbage, mine);
    SoloProjections(garbage, mine, 0);
    forall i | 0 <= i < |plan|
      ensures |plan[i].garbage| == S.MAX_LENGTH && plan[i].op.id < |Allocations(garbage, plan[..i])|
    {
      AllocationsNotEmpty(garbage, plan[..i]);
    }
    forall id: nat | id < |Allocations(garbage, plan)| ensures IsConversation(garbage, plan, id) {
      SoloProjections(garbage, mine, id);
    }
    es := Realize(garbage, plan);
    SameProjections(garbage, es, plan, 0);
    AllocationsCounted(garbage, es);
    Refinement(garbage, es, Run(garbage, es), 0);
  }

  // ---------- What the environment may do ----------

  /** After the completions `es`, `e` can happen. */
  ghost predicate CanFollow(garbage: Buffer, es: seq<Event>, e: Event) {
    Legal(garbage, es + [e])
  }

  lemma FollowsIfEnabled(garbage: Buffer, es: seq<Event>, w: World, e: Event)
    requires Reaches(garbage, es, w)
    ensures CanFollow(garbage, es, e) <==> Enabled(w, e)
  {
    hide Enabled, WellFormed;
    assert (es + [e])[..|es|] == es;
  }

  /**
   Exactly how an outstanding operation may go on: an accept and a handshake end well or badly; a read delivers any
   number of bytes up to 1024, or fails; a write hands over any piece of what is left, ends well when nothing is
   left, or fails at any time.
   */
  lemma WhatMayHappen(garbage: Buffer, es: seq<Event>, w: World, op: Op, g: Buffer)
    requires Reaches(garbage, es, w) && op in w.pending
    ensures forall ok :: CanFollow(garbage, es, Event(op, S.AcceptDone(ok), g)) <==> op.AsyncAccept?
    ensures forall ok :: CanFollow(garbage, es, Event(op, S.HandshakeDone(ok), g)) <==> op.AsyncHandshake?
    ensures forall bytes :: CanFollow(garbage, es, Event(op, S.ReadDone(true, bytes), g))
                            <==> op.AsyncRead? && |bytes| <= 1024
    ensures forall bytes :: CanFollow(garbage, es, Event(op, S.ReadDone(false, bytes), g))
                            <==> op.AsyncRead? && bytes == []
    ensures forall k: nat :: CanFollow(garbage, es, Event(op, S.Emit(k), g))
                             <==> op.AsyncWrite? && 1 <= k <= op.size - op.emitted
    ensures CanFollow(garbage, es, Event(op, S.WriteDone(true), g)) <==> op.AsyncWrite? && op.emitted == op.size
    ensures CanFollow(garbage, es, Event(op, S.WriteDone(false), g)) <==> op.AsyncWrite?
  {
    hide CanFollow, Reaches;
    forall what ensures CanFollow(garbage, es, Event(op, what, g)) <==> S.Allowed(PhaseOf(op), what) {
      FollowsIfEnabled(garbage, es, w, Event(op, what, g));
    }
  }

  lemma {:induction false} AllocationsSized(garbage: Buffer, plan: seq<Event>)
    requires forall i :: 0 <= i < |plan| ==> |plan[i].garbage| == S.MAX_LENGTH
    ensures forall id :: 0 <= id < |Allocations(garbage, plan)| ==> |Allocations(garbage, plan)[id]| == S.MAX_LENGTH
  {
    if plan != [] {
      AllocationsSized(garbage, plan[..|plan| - 1]);
    }
  }

  /** The clients have these ordinary conversations, interleaved in some way; the newest session is not yet used. */
  ghost predicate OrdinaryPlan(garbage: Buffer, plan: seq<Event>, clients: seq<seq<seq<seq<byte>>>>) {
    && (forall i :: 0 <= i < |plan| ==>
          |plan[i].garbage| == 1024 && plan[i].op.id < |Allocations(garbage, plan[..i])|)
    && |Allocations(garbage, plan)| == |clients| + 1 && Mine(plan, |clients|) == []
    && (forall id: nat :: id < |clients| ==>
          && Mine(plan, id) == S.Conversation(clients[id])
          && forall k :: 0 <= k < |clients[id]| ==> S.IsExchange(clients[id][k]))
  }

  /**
   Any number of clients, each sending any input in any reads of up to 1024 bytes and getting it back in any pieces,
   interleaved in any way, can be served; and each gets back exactly what it sent.
   */
  lemma OrdinaryClients(garbage: Buffer, plan: seq<Event>, clients: seq<seq<seq<seq<byte>>>>) returns (es: seq<Event>)
    requires OrdinaryPlan(garbage, plan, clients)
    ensures Legal(garbage, es) && SameTurns(es, plan) && |Run(garbage, es).sessions| == |clients| + 1
    ensures forall id: nat :: id < |clients| ==>
              Run(garbage, es).sessions[id].live && Run(garbage, es).sessions[id].sent == S.Input(clients[id])
  {
    hide Legal, Run, Allocations, Mine, S.Legal, S.Run;
    AllocationsSized(garbage, plan);
    forall id: nat | id < |Allocations(garbage, plan)| ensures IsConversation(garbage, plan, id) {
      OrdinaryIsConversation(garbage, plan, clients, id);
    }
    es := Realize(garbage, plan);
    SameProjections(garbage, es, plan, 0);
    AllocationsCounted(garbage, es);
    forall id: nat | id < |clients|
      ensures Run(garbage, es).sessions[id].live && Run(garbage, es).sessions[id].sent == S.Input(clients[id])
    {
      SameProjections(garbage, es, plan, id);
      Refinement(garbage, es, Run(garbage, es), id);
      S.OrdinaryConversation(Allocations(garbage, es)[id], clients[id]);
    }
  }

  lemma OrdinaryIsConversation(garbage: Buffer, plan: seq<Event>, clients: seq<seq<seq<seq<byte>>>>, id: nat)
    requires OrdinaryPlan(garbage, plan, clients) && id < |Allocations(garbage, plan)|
    requires |Allocations(garbage, plan)[id]| == S.MAX_LENGTH
    ensures IsConversation(garbage, plan, id)
  {
    hide Allocations, Mine, S.Run;
    if id < |clients| {
      S.OrdinaryConversation(Allocations(garbage, plan)[id], clients[id]);
    }
  }

  /** Steps of different sessions commute. */
  lemma Diamond(w: World, e1: Event, e2: Event)
    requires Inv(w) && Enabled(w, e1) && Enabled(w, e2) && e1.op.id != e2.op.id
    ensures Step(w, e1).Running? && Step(w, e2).Running?
    ensures Inv(Step(w, e1).world) && Enabled(Step(w, e1).world, e2)
    ensures Inv(Step(w, e2).world) && Enabled(Step(w, e2).world, e1)
    ensures Step(Step(w, e1).world, e2) == Step(Step(w, e2).world, e1)
  {
    EffectKeepsInv(w, e1);
    EffectKeepsInv(w, e2);
    StepIsEffect(w, e1);
    StepIsEffect(w, e2);
    StillEnabled(w, e1, e2);
    StillEnabled(w, e2, e1);
    EffectsCommute(w, e1, e2);
    StepIsEffect(Effect(w, e1), e2);
    StepIsEffect(Effect(w, e2), e1);
  }

  lemma StillEnabled(w: World, e1: Event, e2: Event)
    requires WellFormed(w) && Enabled(w, e1) && Enabled(w, e2) && e1.op.id != e2.op.id
    requires Owns(w, e1.op) && Owns(w, e2.op)
    ensures Enabled(Effect(w, e1), e2) && Effect(w, e1).Alive(e2.op.id)
  {
  }

  lemma EffectsCommute(w: World, e1: Event, e2: Event)
    requires WellFormed(w) && Enabled(w, e1) && Enabled(w, e2) && e1.op.id != e2.op.id
    requires Owns(w, e1.op) && Owns(w, e2.op) && !(e1.what.AcceptDone? && e2.what.AcceptDone?)
    requires WellFormed(Effect(w, e1)) && WellFormed(Effect(w, e2))
    requires Enabled(Effect(w, e1), e2) && Enabled(Effect(w, e2), e1)
    ensures Effect(Effect(w, e1), e2) == Effect(Effect(w, e2), e1)
  {
    OtherMemory(w, e1, e2);
    OtherMemory(w, e2, e1);
    SameSessions(w, e1, e2);
    SamePending(w, e1, e2);
  }

  lemma OtherMemory(w: World, e1: Event, e2: Event)
    requires WellFormed(w) && Enabled(w, e1) && Enabled(w, e2) && e1.op.id != e2.op.id
    requires WellFormed(Effect(w, e1)) && Enabled(Effect(w, e1), e2)
    ensures Touched(Effect(w, e1), e2) == Touched(w, e2)
  {
    hide Transfer;
    assert Effect(w, e1).sessions[e2.op.id] == w.sessions[e2.op.id];
  }

  lemma SameSessions(w: World, e1: Event, e2: Event)
    requires WellFormed(w) && Enabled(w, e1) && Enabled(w, e2) && e1.op.id != e2.op.id
    requires !(e1.what.AcceptDone? && e2.what.AcceptDone?)
    requires WellFormed(Effect(w, e1)) && WellFormed(Effect(w, e2))
    requires Enabled(Effect(w, e1), e2) && Enabled(Effect(w, e2), e1)
    requires Touched(Effect(w, e1), e2) == Touched(w, e2) && Touched(Effect(w, e2), e1) == Touched(w, e1)
    ensures Effect(Effect(w, e1), e2).sessions == Effect(Effect(w, e2), e1).sessions
  {
    hide Touched, Effect, Enabled;
    EffectParts(w, e1);
    EffectParts(w, e2);
    EffectParts(Effect(w, e1), e2);
    EffectParts(Effect(w, e2), e1);
    UpdatesExchange(w.sessions, e1.op.id, Touched(w, e1), Allocated(e1), e2.op.id, Touched(w, e2), Allocated(e2));
  }

  lemma UpdatesExchange<T>(s: seq<T>, i: nat, a: T, x: seq<T>, j: nat, b: T, y: seq<T>)
    requires i < |s| && j < |s| && i != j && (x == [] || y == [])
    ensures (s[i := a] + x)[j := b] + y == (s[j := b] + y)[i := a] + x
  {
  }

  lemma SamePending(w: World, e1: Event, e2: Event)
    requires WellFormed(w) && Enabled(w, e1) && Enabled(w, e2) && e1.op != e2.op
    requires !(e1.what.AcceptDone? && e2.what.AcceptDone?)
    requires WellFormed(Effect(w, e1)) && WellFormed(Effect(w, e2))
    requires Enabled(Effect(w, e1), e2) && Enabled(Effect(w, e2), e1)
    ensures Effect(Effect(w, e1), e2).pending == Effect(Effect(w, e2), e1).pending
  {
    hide Touched, Effect, Next, WellFormed, NextAccept;
    EffectParts(w, e1);
    EffectParts(w, e2);
    EffectParts(Effect(w, e1), e2);
    EffectParts(Effect(w, e2), e1);
    AcceptUnaffected(|w.sessions|, e1, |Effect(w, e2).sessions|, e2);
    AcceptUnaffected(|w.sessions|, e2, |Effect(w, e1).sessions|, e1);
    OpsExchange(w.pending, e1.op, Next(e1.op, e1.what), NextAccept(|w.sessions|, e1),
                e2.op, Next(e2.op, e2.what), NextAccept(|w.sessions|, e2));
  }

  lemma AcceptUnaffected(n: nat, e: Event, n': nat, e': Event)
    requires n' == n + |Allocated(e')| && !(e.what.AcceptDone? && e'.what.AcceptDone?)
    ensures NextAccept(n, e) == NextAccept(n', e)
  {
  }

  lemma OpsExchange(p: multiset<Op>, o1: Op, n1: multiset<Op>, a1: multiset<Op>,
                    o2: Op, n2: multiset<Op>, a2: multiset<Op>)
    requires o1 in p && o2 in p && o1 != o2
    ensures p - multiset{o1} + n1 + a1 - multiset{o2} + n2 + a2 == p - multiset{o2} + n2 + a2 - multiset{o1} + n1 + a1
  {
  }

  // ---------- What each client observes ----------

  /**
   Echo safety, in terms of what is outstanding: while a read is, everything received has been sent; while a
   write is, the difference is exactly the part of the buffer not yet written; a deleted session has sent a
   prefix of what it received.
   */
  lemma EchoSafety(garbage: Buffer, es: seq<Event>, w: World, id: nat)
    requires Reaches(garbage, es, w) && id < |w.sessions|
    ensures S.IsPrefix(w.sessions[id].sent, w.sessions[id].received)
    ensures |w.sessions[id].received| <= |w.sessions[id].sent| + S.MAX_LENGTH
    ensures forall op :: op in w.pending && op.id == id ==> Echoing(w.sessions[id], op)
  {
    Refinement(garbage, es, w, id);
    var s := S.Run(Allocations(garbage, es)[id], Mine(es, id));
    S.InvMeansEcho(s);
    forall op | op in w.pending && op.id == id ensures Echoing(w.sessions[id], op) {
      OneOwner(garbage, es, op);
      assert op == OpOf(id, s.phase);
    }
  }

  /** How the streams and the buffer of a session agree while `op` is outstanding. */
  predicate Echoing(m: Memory, op: Op) {
    match op
    case AsyncAccept(_) => m.received == m.sent == []
    case AsyncHandshake(_) => m.received == m.sent == []
    case AsyncRead(_) => m.received == m.sent
    case AsyncWrite(_, n, k) => k <= n <= |m.data| && m.received == m.sent + m.data[k..n]
  }

  /** Everything that happened to session `id` went well, for a client that sends `input`. */
  ghost predicate WentWell(garbage: Buffer, es: seq<Event>, w: World, id: nat, input: seq<byte>) {
    && Reaches(garbage, es, w) && id < |w.sessions|
    && (Refinement(garbage, es, w, id);
        S.Undisturbed(Allocations(garbage, es)[id], Mine(es, id), input))
  }

  /** Whatever may happen next to session `id` is an error, or not what a client that sends `input` does. */
  ghost predicate NothingMore(w: World, id: nat, input: seq<byte>)
    requires id < |w.sessions|
  {
    forall e :: Enabled(w, e) && e.op.id == id ==> !S.GoesWell(w.sessions[id].received, e.what, input)
  }

  /**
   However the run is interleaved, a client whose connection has no errors and that sends `input` sees at most
   2 + 3 * |input| events; and when nothing more can happen to it, it has got exactly `input` back, however
   the reads and the writes were cut into pieces.
   */
  lemma EveryClientIsServed(garbage: Buffer, es: seq<Event>, w: World, id: nat, input: seq<byte>)
    requires WentWell(garbage, es, w, id, input)
    ensures |Mine(es, id)| <= 2 + 3 * |input|
    ensures w.Alive(id) && w.sessions[id].sent <= input
    ensures NothingMore(w, id, input) ==> w.sessions[id].sent == input
  {
    hide Effect, WellFormed, Legal, Run, Mine, Allocations, S.Legal, S.Run, S.Undisturbed;
    Refinement(garbage, es, w, id);
    var s := S.Run(Allocations(garbage, es)[id], Mine(es, id));
    S.EveryConversationCompletes(Allocations(garbage, es)[id], Mine(es, id), s, input);
    S.InvMeansEcho(s);
    var op := OpOf(id, s.phase);
    assert PhaseOf(op) == s.phase && op in w.pending;
    forall what | S.Allowed(s.phase, what) ensures Enabled(w, Event(op, what, garbage)) {}
  }

  /**
   The history of a session is a prefix of accept, handshake, (read, write)*, in which only the last
   completion may be an error; and the session is deleted exactly when it is.
   */
  lemma TraceLanguage(garbage: Buffer, es: seq<Event>, w: World, id: nat)
    requires Reaches(garbage, es, w) && id < |w.sessions|
    ensures S.IsTrace(w.sessions[id].log)
    ensures !w.sessions[id].live <==> S.Failed(w.sessions[id].log)
  {
    Refinement(garbage, es, w, id);
  }

  /** `m'` is `m` after the write of `n` bytes, of which `k` were handed over, has come as far as `k'`. */
  ghost predicate WrittenFurther(m: Memory, m': Memory, n: nat, k: nat, k': nat) {
    k <= k' <= n <= |m.data| == S.MAX_LENGTH && m'.data == m.data && m'.sent == m.sent + m.data[k..k']
  }

  /**
   One buffer is enough: from the moment a write is begun, and for as long as it has not completed, nothing
   that happens to any session changes the buffer, and what has been sent is what stands in it.
   */
  lemma {:induction false} BufferStability(garbage: Buffer, es: seq<Event>, w: World, more: seq<Event>, later: World,
                                           id: nat, n: nat, k: nat) returns (k': nat)
    requires Reaches(garbage, es, w) && Reaches(garbage, es + more, later)
    requires AsyncWrite(id, n, k) in w.pending
    requires forall e :: e in more && e.op.id == id ==> e.what.Emit?
    ensures id < |w.sessions| && id < |later.sessions|
    ensures AsyncWrite(id, n, k') in later.pending
    ensures WrittenFurther(w.sessions[id], later.sessions[id], n, k, k')
    decreases |more|
  {
    hide Effect, Enabled, WrittenFurther, WellFormed;
    if more == [] {
      assert es + more == es;
      k' := k;
      NotWrittenYet(w, id, n, k);
    } else {
      var before, last := more[..|more| - 1], more[|more| - 1];
      assert (es + more)[..|es + more| - 1] == es + before && (es + more)[|es + more| - 1] == last;
      LastStep(garbage, es + more);
      var now := Run(garbage, es + before);
      var j := BufferStability(garbage, es, w, before, now, id, n, k);
      k' := BufferStabilityStep(now, last, id, n, j);
      WrittenFurtherStill(w.sessions[id], now.sessions[id], later.sessions[id], n, k, j, k');
    }
  }

  lemma NotWrittenYet(w: World, id: nat, n: nat, k: nat)
    requires WellFormed(w) && AsyncWrite(id, n, k) in w.pending
    ensures id < |w.sessions| && WrittenFurther(w.sessions[id], w.sessions[id], n, k, k)
  {
    var op := AsyncWrite(id, n, k);
    assert op.emitted <= op.size <= S.MAX_LENGTH;
  }

  lemma WrittenFurtherStill(m: Memory, m1: Memory, m2: Memory, n: nat, k: nat, k1: nat, k2: nat)
    requires WrittenFurther(m, m1, n, k, k1) && WrittenFurther(m1, m2, n, k1, k2)
    ensures WrittenFurther(m, m2, n, k, k2)
  {
    S.TwoSlices(m.data, m.sent, k, k1, k2);
  }

  lemma BufferStabilityStep(w: World, e: Event, id: nat, n: nat, k: nat) returns (k': nat)
    requires WellFormed(w) && Enabled(w, e) && Owns(w, e.op) && (e.op.id == id ==> e.what.Emit?)
    requires AsyncWrite(id, n, k) in w.pending && id < |w.sessions|
    ensures id < |Effect(w, e).sessions|
    ensures AsyncWrite(id, n, k') in Effect(w, e).pending
    ensures WrittenFurther(w.sessions[id], Effect(w, e).sessions[id], n, k, k')
  {
    if e.op.id == id {
      assert e.op == AsyncWrite(id, n, k);
      k' := k + e.what.count;
      assert NextOp(e.op, e.what) in Next(e.op, e.what);
    } else {
      k' := k;
      assert Effect(w, e).sessions[id] == w.sessions[id];
    }
  }

  // ---------- Counting ----------

  function Count(es: seq<Event>, p: S.Event -> bool): nat {
    if es == [] then 0 else Count(es[..|es| - 1], p) + (if p(es[|es| - 1].what) then 1 else 0)
  }

  /**
   Every accept completion, good or bad, allocates one session; every error frees exactly one; and the sessions
   alive are as many as the outstanding operations.
   */
  lemma {:induction false} Conservation(garbage: Buffer, es: seq<Event>, w: World)
    requires Reaches(garbage, es, w)
    ensures |w.sessions| == 1 + Count(es, (e: S.Event) => e.AcceptDone?)
    ensures |w.sessions| == Live(w.sessions) + Count(es, e => !Survives(e))
    ensures |w.pending| == Live(w.sessions)
    decreases |es|
  {
    RunInv(garbage, es);
    if es == [] {
      LiveAfterAppend([], NewMemory(garbage));
    } else {
      var before := Run(garbage, es[..|es| - 1]);
      Conservation(garbage, es[..|es| - 1], before);
      LastStep(garbage, es);
      ConservationStep(before, es[|es| - 1]);
    }
  }

  lemma ConservationStep(w: World, e: Event)
    requires WellFormed(w) && Enabled(w, e) && Owns(w, e.op)
    ensures var w' := Effect(w, e);
            && |w'.sessions| == |w.sessions| + (if e.what.AcceptDone? then 1 else 0)
            && |w'.sessions| - Live(w'.sessions)
               == |w.sessions| - Live(w.sessions) + (if Survives(e.what) then 0 else 1)
  {
    LiveAfterUpdate(w.sessions, e.op.id, Touched(w, e));
    LiveAfterAppend(w.sessions[e.op.id := Touched(w, e)], NewMemory(e.garbage));
  }

  /**
   In every state between handlers exactly one accept is outstanding, and its session is the one allocated
   last: alive, not started, and different from every session accepted before.
   */
  lemma AlwaysAccepting(garbage: Buffer, es: seq<Event>, w: World)
    requires Reaches(garbage, es, w)
    ensures |w.sessions| > 0 && w.pending[AsyncAccept(|w.sessions| - 1)] == 1
    ensures forall op :: op in w.pending && op.AsyncAccept? ==> op.id == |w.sessions| - 1
    ensures |w.sessions| == |Allocations(garbage, es)| && Mine(es, |w.sessions| - 1) == []
    ensures w.sessions[|w.sessions| - 1] == NewMemory(Allocations(garbage, es)[|w.sessions| - 1])
  {
    hide Effect, Enabled, S.Step, WellFormed;
    var id := |w.sessions| - 1;
    RunInv(garbage, es);
    AllocationsCounted(garbage, es);
    assert Owns(w, AsyncAccept(id));
    Refinement(garbage, es, w, id);
    AcceptingIsFresh(w, id, Allocations(garbage, es)[id], Mine(es, id));
  }

  lemma AcceptingIsFresh(w: World, id: nat, g: seq<byte>, mine: seq<S.Event>)
    requires Owns(w, AsyncAccept(id)) && Refines(w, id, g, mine)
    ensures mine == [] && w.sessions[id] == NewMemory(g)
  {
    assert OpOf(id, S.Run(g, mine).phase) == AsyncAccept(id);
    S.AcceptingMeansFresh(g, mine);
  }

  ghost predicate WritePending(w: World, id: nat) {
    exists n, k :: AsyncWrite(id, n, k) in w.pending
  }

  /** How many of the first `n` sessions have a write outstanding. */
  ghost function Writers(w: World, n: nat): nat {
    if n == 0 then 0 else Writers(w, n - 1) + (if WritePending(w, n - 1) then 1 else 0)
  }

  /** The bytes received and not yet sent by the live ones among the first `n` sessions. */
  ghost function Backlog(w: World, n: nat): int
    requires n <= |w.sessions|
  {
    if n == 0 then 0 else
    var m := w.sessions[n - 1];
    Backlog(w, n - 1) + (if m.live then |m.received| - |m.sent| else 0)
  }

  /** The backlog of the live sessions is at most one buffer for each outstanding write. */
  lemma {:induction false} BoundedBacklog(garbage: Buffer, es: seq<Event>, w: World, n: nat)
    requires Reaches(garbage, es, w) && n <= |w.sessions|
    ensures 0 <= Backlog(w, n) <= S.MAX_LENGTH * Writers(w, n)
  {
    hide Effect, Reaches;
    if n > 0 {
      var id := n - 1;
      BoundedBacklog(garbage, es, w, id);
      EchoSafety(garbage, es, w, id);
      if w.sessions[id].live && !WritePending(w, id) {
        var op := Outstanding(garbage, es, w, id);
        assert Echoing(w.sessions[id], op) && !op.AsyncWrite?;
      }
    }
  }
}
