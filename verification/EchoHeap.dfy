/**
 The C++ classes `session` and `server`, on the heap: a session owns its 1024-byte array, handlers update it in
 place, sessions are allocated with `new` and deleted with `delete`, and one io_service holds what is
 outstanding.  Every method is tied to the state machine of module EchoWorld, so that the theorems of module
 EchoRuns hold of the event loop below.
 */
module EchoHeap {
  import opened Bytes
  import opened EchoWorld
  import EchoRuns
  import S = EchoSession

  /** The part of io_service the server sees: the operations begun and not yet completed. */
  class IoService {
    var pending: multiset<Op>

    constructor ()
      ensures pending == multiset{}
    {
      pending := multiset{};
    }

    method Begin(op: Op)
      modifies this
      ensures pending == old(pending) + multiset{op}
    {
      pending := pending + multiset{op};
    }
  }

  class Session {
    const id: nat
    const io: IoService
    const data: array<byte>
    ghost var live: bool
    ghost var received: seq<byte>
    ghost var sent: seq<byte>
    ghost var log: seq<S.Happening>

    /** The session as the state machine sees it. */
    ghost function Memory(): Memory
      reads this, data
    {
      EchoWorld.Memory(live, data[..], received, sent, log)
    }

    /** `garbage` is what the allocator happens to hand out: the constructor does not initialise data_. */
    constructor (id: nat, io: IoService, garbage: EchoRuns.Buffer)
      ensures this.id == id && this.io == io && fresh(data)
      ensures Memory() == NewMemory(garbage)
    {
      this.id, this.io := id, io;
      data := new byte[S.MAX_LENGTH](i requires 0 <= i < S.MAX_LENGTH => garbage[i]);
      live, received, sent, log := true, [], [], [];
    }

    /** delete this */
    ghost method Delete()
      requires live
      modifies this`live
      ensures !live
    {
      live := false;
    }

    method Start()
      requires live
      modifies io
      ensures io.pending == old(io.pending) + multiset{AsyncHandshake(id)}
    {
      io.Begin(AsyncHandshake(id));
    }

    method HandleHandshake(ok: bool)
      requires live
      modifies io, this`live
      ensures live == ok
      ensures io.pending == if ok then old(io.pending) + multiset{AsyncRead(id)} else old(io.pending)
    {
      if ok {
        io.Begin(AsyncRead(id));
      } else {
        Delete();
      }
    }

    method HandleRead(ok: bool, bytesTransferred: nat)
      requires live
      modifies io, this`live
      ensures live == ok
      ensures io.pending
              == if ok then old(io.pending) + multiset{AsyncWrite(id, bytesTransferred, 0)} else old(io.pending)
    {
      if ok {
        io.Begin(AsyncWrite(id, bytesTransferred, 0));
      } else {
        Delete();
      }
    }

    method HandleWrite(ok: bool)
      requires live
      modifies io, this`live
      ensures live == ok
      ensures io.pending == if ok then old(io.pending) + multiset{AsyncRead(id)} else old(io.pending)
    {
      if ok {
        io.Begin(AsyncRead(id));
      } else {
        Delete();
      }
    }

    // ---------- What the network does to a session ----------

    /** A completion is recorded in the history. */
    ghost method Record(stage: S.Stage, ok: bool)
      modifies this`log
      ensures log == old(log) + [S.Happening(stage, ok)]
    {
      log := log + [S.Happening(stage, ok)];
    }

    /** A read delivers `bytes` into the start of data_. */
    method Deliver(bytes: seq<byte>)
      requires live && |bytes| <= data.Length
      modifies data, this`received
      ensures data[..] == bytes + old(data[..])[|bytes|..]
      ensures received == old(received) + bytes
    {
      var i := 0;
      while i < |bytes|
        invariant 0 <= i <= |bytes|
        invariant data[..i] == bytes[..i] && data[i..] == old(data[i..])
        modifies data
      {
        data[i] := bytes[i];
        i := i + 1;
      }
      received := received + bytes;
    }

    /** A read completes: its bytes have arrived in the buffer, and the handler runs. */
    method CompleteRead(ok: bool, bytes: seq<byte>)
      requires live && |bytes| <= data.Length
      modifies io, data, this`live, this`received, this`log
      ensures Memory() == EchoWorld.Memory(ok, bytes + old(data[..])[|bytes|..], old(received) + bytes, sent,
                                           old(log) + [S.Happening(S.Read, ok)])
      ensures io.pending == if ok then old(io.pending) + multiset{AsyncWrite(id, |bytes|, 0)} else old(io.pending)
    {
      Record(S.Read, ok);
      Deliver(bytes);
      HandleRead(ok, |bytes|);
    }

    /** The composed write hands the bytes data_[from..to) to the network, as they are now. */
    ghost method HandOver(from: nat, to: nat)
      requires live && from <= to <= data.Length
      modifies this`sent
      ensures sent == old(sent) + data[from..to]
    {
      sent := sent + data[from..to];
    }
  }

  class Server {
    const io: IoService
    /** Every session ever allocated, by allocation number: what a pointer bound into a handler points to. */
    var heap: seq<Session>
    ghost var Repr: set<object>

    ghost predicate Valid()
      reads this, Repr
    {
      && this in Repr && io in Repr
      && (forall s :: s in heap ==> s in Repr && s.data in Repr)
      && (forall i :: 0 <= i < |heap| ==> heap[i].id == i && heap[i].io == io)
      && (forall i :: 0 <= i < |heap| ==> heap[i].data.Length == S.MAX_LENGTH)
      && (forall i, j :: 0 <= i < j < |heap| ==> heap[i].data != heap[j].data)
    }

    ghost function World(): World
      requires Valid()
      reads this, Repr
    {
      EchoWorld.World(
        seq(|heap|, i requires 0 <= i < |heap| && Valid() reads this, Repr => heap[i].Memory()), io.pending)
    }

    constructor (io: IoService, garbage: EchoRuns.Buffer)
      requires io.pending == multiset{}
      modifies io
      ensures Valid() && this.io == io && fresh(Repr - {io})
      ensures World() == EchoRuns.Boot(garbage)
    {
      this.io, heap := io, [];
      new;
      Repr := {this, io};
      StartAccept(garbage);
    }

    method StartAccept(garbage: EchoRuns.Buffer)
      requires Valid()
      modifies this, io
      ensures Valid() && old(Repr) <= Repr && fresh(Repr - old(Repr))
      ensures World() == EchoWorld.StartAccept(old(World()), garbage)
    {
      var newSession := new Session(|heap|, io, garbage);
      heap, Repr := heap + [newSession], Repr + {newSession, newSession.data};
      io.Begin(AsyncAccept(newSession.id));
      assert World().sessions == old(World()).sessions + [NewMemory(garbage)];
    }

    method HandleAccept(newSession: Session, ok: bool, garbage: EchoRuns.Buffer)
      requires Valid() && newSession in heap && newSession.live
      modifies this, io, newSession`live
      ensures Valid() && old(Repr) <= Repr && fresh(Repr - old(Repr))
      ensures Running(World()) == EchoWorld.HandleAccept(old(World()), newSession.id, ok, garbage)
    {
      if ok {
        newSession.Start();
      } else {
        newSession.Delete();
      }
      OthersUnchanged(newSession.id);
      StartAccept(garbage);
    }

    /** If only session `id` has changed, only its entry in the state has. */
    twostate lemma OthersUnchanged(id: nat)
      requires old(Valid()) && Valid() && heap == old(heap) && id < |heap|
      requires forall s :: s in heap && s != heap[id] ==> unchanged(s) && unchanged(s.data)
      ensures World().sessions == old(World()).sessions[id := heap[id].Memory()]
    {
    }

    /** `e` can happen to `s`, which is the session that the outstanding operation is bound to, and is alive. */
    ghost predicate Ready(s: Session, e: Event)
      reads this, Repr
    {
      && Valid() && WellFormed(World()) && Enabled(World(), e)
      && e.op.id < |heap| && s == heap[e.op.id] && s.live
    }

    /** A connection was accepted, or the accept failed. */
    method AcceptCompleted(s: Session, e: Event)
      requires Ready(s, e) && e.what.AcceptDone?
      modifies Repr
      ensures Valid() && old(Repr) <= Repr && fresh(Repr - old(Repr))
      ensures Running(World()) == Step(old(World()), e)
    {
      io.pending := io.pending - multiset{e.op};
      s.Record(S.Accept, e.what.ok);
      OthersUnchanged(s.id);
      HandleAccept(s, e.what.ok, e.garbage);
    }

    /** The handshake succeeded or failed. */
    method HandshakeCompleted(s: Session, e: Event)
      requires Ready(s, e) && e.what.HandshakeDone?
      modifies Repr
      ensures Valid() && old(Repr) <= Repr && fresh(Repr - old(Repr))
      ensures Running(World()) == Step(old(World()), e)
    {
      hide Step;
      ghost var w := World();
      io.pending := io.pending - multiset{e.op};
      s.Record(S.Handshake, e.what.ok);
      s.HandleHandshake(e.what.ok);
      OthersUnchanged(s.id);
      assert s.Memory() == Touched(w, e);
      StepTaken(w, World(), e);
    }

    /** Bytes arrived in the buffer, or the read failed. */
    method ReadCompleted(s: Session, e: Event)
      requires Ready(s, e) && e.what.ReadDone?
      modifies Repr
      ensures Valid() && old(Repr) <= Repr && fresh(Repr - old(Repr))
      ensures Running(World()) == Step(old(World()), e)
    {
      hide Step, Touched, Next;
      ghost var w := World();
      TouchedByRead(w, e);
      io.pending := io.pending - multiset{e.op};
      s.CompleteRead(e.what.ok, e.what.bytes);
      OthersUnchanged(s.id);
      assert s.Memory() == Touched(w, e);
      StepTaken(w, World(), e);
    }

    /** The composed write handed over a piece; no handler runs. */
    method WriteAdvanced(s: Session, e: Event)
      requires Ready(s, e) && e.what.Emit?
      modifies Repr
      ensures Valid() && old(Repr) <= Repr && fresh(Repr - old(Repr))
      ensures Running(World()) == Step(old(World()), e)
    {
      hide Step;
      ghost var w := World();
      io.pending := io.pending - multiset{e.op};
      assert s.log + Entry(e.what) == s.log;
      s.HandOver(e.op.emitted, e.op.emitted + e.what.count);
      io.Begin(AsyncWrite(s.id, e.op.size, e.op.emitted + e.what.count));
      OthersUnchanged(s.id);
      assert s.Memory() == Touched(w, e);
      StepTaken(w, World(), e);
    }

    /** The composed write handed over everything, or failed. */
    method WriteCompleted(s: Session, e: Event)
      requires Ready(s, e) && e.what.WriteDone?
      modifies Repr
      ensures Valid() && old(Repr) <= Repr && fresh(Repr - old(Repr))
      ensures Running(World()) == Step(old(World()), e)
    {
      hide Step;
      ghost var w := World();
      io.pending := io.pending - multiset{e.op};
      s.Record(S.Write, e.what.ok);
      s.HandleWrite(e.what.ok);
      OthersUnchanged(s.id);
      assert s.Memory() == Touched(w, e);
      StepTaken(w, World(), e);
    }

    /** One turn of io_service.run().  The handler's precondition, that its session is alive, is proved here. */
    method Dispatch(e: Event)
      requires Valid() && Inv(World()) && Enabled(World(), e)
      modifies Repr
      ensures Valid() && old(Repr) <= Repr && fresh(Repr - old(Repr))
      ensures Running(World()) == Step(old(World()), e)
    {
      assert Owns(World(), e.op);
      var s := heap[e.op.id];
      match e.what
      case AcceptDone(_) => AcceptCompleted(s, e);
      case HandshakeDone(_) => HandshakeCompleted(s, e);
      case ReadDone(_, _) => ReadCompleted(s, e);
      case Emit(_) => WriteAdvanced(s, e);
      case WriteDone(_) => WriteCompleted(s, e);
    }
  }

  /** The program: construct the server, then let io_service.run() call handlers for the completions `es`. */
  method Serve(garbage: EchoRuns.Buffer, es: seq<Event>) returns (server: Server)
    requires EchoRuns.Legal(garbage, es)
    ensures server.Valid() && fresh(server) && server.World() == EchoRuns.Run(garbage, es)
  {
    hide Step, EchoRuns.Run, EchoRuns.Legal, Inv, Enabled;
    var io := new IoService();
    server := new Server(io, garbage);
    var i := 0;
    EchoRuns.NothingYet(garbage, es);
    while i < |es|
      invariant 0 <= i <= |es| && fresh(server) && fresh(server.Repr) && server.Valid()
      invariant EchoRuns.Legal(garbage, es[..i]) && server.World() == EchoRuns.Run(garbage, es[..i])
    {
      EchoRuns.NextStep(garbage, es, i);
      server.Dispatch(es[i]);
      i := i + 1;
    }
    assert es[..i] == es;
  }
}
