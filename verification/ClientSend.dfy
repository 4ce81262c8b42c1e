/**
 ASIOClientChannel::async_send, the library's own way of writing a whole buffer with write_some.  When write_some
 takes only part of the buffer, the handler starts over with the remaining length and with `beg` advanced; but
 `beg` is not used, and the write begins at the start of the buffer again.
 */
module ClientSend {
  import opened Bytes

  /** `sizes` are the byte counts of successive successful write_some calls that together write `len` bytes. */
  predicate Complete(len: nat, sizes: seq<nat>) {
    if len == 0 then sizes == []
    else sizes != [] && sizes[0] <= len && Complete(len - sizes[0], sizes[1..])
  }

  function Sum(sizes: seq<nat>): nat {
    if sizes == [] then 0 else sizes[0] + Sum(sizes[1..])
  }

  /** Any byte counts, zero among them, that add up to the length and end with the write that completes it. */
  lemma {:induction false} WhatIsComplete(len: nat, sizes: seq<nat>)
    ensures Complete(len, sizes) <==> Sum(sizes) == len && (sizes != [] ==> sizes[|sizes| - 1] > 0)
  {
    if sizes != [] {
      if sizes[0] <= len {
        WhatIsComplete(len - sizes[0], sizes[1..]);
      }
      SumOfLast(sizes);
    }
  }

  lemma {:induction false} SumOfLast(sizes: seq<nat>)
    requires sizes != []
    ensures Sum(sizes) >= sizes[|sizes| - 1]
  {
    if |sizes| > 1 {
      SumOfLast(sizes[1..]);
    }
  }

  /** What goes onto the wire while `len` bytes are still to be written. */
  function Wire(buff: seq<byte>, len: nat, sizes: seq<nat>): seq<byte>
    requires len <= |buff| && Complete(len, sizes)
  {
    if len == 0 then [] else buff[..sizes[0]] + Wire(buff, len - sizes[0], sizes[1..])
  }

  /** What would go onto the wire if each write resumed at `beg`, where the one before it stopped. */
  function Resumed(buff: seq<byte>, beg: nat, sizes: seq<nat>): seq<byte>
    requires beg <= |buff| && Complete(|buff| - beg, sizes)
    decreases |sizes|
  {
    if beg == |buff| then [] else buff[beg..beg + sizes[0]] + Resumed(buff, beg + sizes[0], sizes[1..])
  }

  /** One client connection, with one call of async_send in progress at a time. */
  class ClientChannel {
    var connected: bool
    /** Everything write_some has taken so far. */
    ghost var wire: seq<byte>
    /** The length passed to the write_some that is outstanding; 0 if none is. */
    var outstanding: nat
    var beg: nat
    /** How often the completion callback and the error event have been raised. */
    var completions: nat
    var errors: nat

    constructor (connected: bool)
      ensures wire == [] && outstanding == 0 && completions == errors == 0 && this.connected == connected
    {
      this.connected, wire, outstanding, beg, completions, errors := connected, [], 0, 0, 0, 0;
    }

    method AsyncSend(buff: seq<byte>, buffLen: nat, beg: nat)
      requires buffLen <= |buff| && outstanding == 0
      modifies this
      ensures connected == old(connected) && wire == old(wire)
      ensures outstanding == if connected then buffLen else 0
      ensures this.beg == if connected && buffLen > 0 then beg else old(this.beg)
      ensures completions == old(completions) + if buffLen == 0 then 1 else 0
      ensures errors == old(errors) + if buffLen > 0 && !connected then 1 else 0
    {
      if buffLen == 0 {
        completions := completions + 1;
      } else if !connected {
        errors := errors + 1;
      } else {
        this.beg, outstanding := beg, buffLen;
      }
    }

    /** The handler of write_some, which has taken `s` bytes from the start of `buff`, or failed. */
    method SendHandler(buff: seq<byte>, ok: bool, s: nat)
      requires connected && 0 < outstanding <= |buff| && s <= outstanding && (!ok ==> s == 0)
      modifies this
      ensures connected && wire == old(wire) + buff[..s]
      ensures outstanding == if ok then old(outstanding) - s else 0
      ensures beg == old(beg) + if ok && s < old(outstanding) then s else 0
      ensures completions == old(completions) + if ok && s == old(outstanding) then 1 else 0
      ensures errors == old(errors) + if ok then 0 else 1
    {
      wire := wire + buff[..s];
      var buffLen := outstanding;
      outstanding := 0;
      if !ok {
        errors := errors + 1;
      } else if buffLen <= s {
        completions := completions + 1;
      } else {
        AsyncSend(buff, buffLen - s, beg + s);
      }
    }

    /** A call of async_send, and the handlers that follow it until the buffer counts as written. */
    method Send(buff: seq<byte>, sizes: seq<nat>)
      requires connected && outstanding == 0 && Complete(|buff|, sizes)
      modifies this
      ensures connected && outstanding == 0 && wire == old(wire) + Wire(buff, |buff|, sizes)
      ensures completions == old(completions) + 1 && errors == old(errors)
    {
      AsyncSend(buff, |buff|, 0);
      var i := 0;
      while outstanding > 0
        invariant connected && i <= |sizes| && outstanding <= |buff| && Complete(outstanding, sizes[i..])
        invariant wire + Wire(buff, outstanding, sizes[i..]) == old(wire) + Wire(buff, |buff|, sizes)
        invariant completions == old(completions) + (if outstanding == 0 then 1 else 0) && errors == old(errors)
        decreases |sizes| - i
      {
        assert sizes[i..][1..] == sizes[i + 1..];
        ghost var rest := Wire(buff, outstanding - sizes[i], sizes[i + 1..]);
        assert wire + (buff[..sizes[i]] + rest) == wire + buff[..sizes[i]] + rest;
        SendHandler(buff, true, sizes[i]);
        i := i + 1;
      }
    }
  }

  /** The number of bytes written is always right, whatever the bytes are. */
  lemma {:induction false} WireLength(buff: seq<byte>, len: nat, sizes: seq<nat>)
    requires len <= |buff| && Complete(len, sizes)
    ensures |Wire(buff, len, sizes)| == len
  {
    if len > 0 {
      WireLength(buff, len - sizes[0], sizes[1..]);
    }
  }

  /** Resuming where the last write stopped would deliver the buffer, however it is cut up. */
  lemma {:induction false} ResumedDelivers(buff: seq<byte>, beg: nat, sizes: seq<nat>)
    requires beg <= |buff| && Complete(|buff| - beg, sizes)
    ensures Resumed(buff, beg, sizes) == buff[beg..]
    decreases |sizes|
  {
    if beg < |buff| {
      ResumedDelivers(buff, beg + sizes[0], sizes[1..]);
      assert buff[beg..] == buff[beg..beg + sizes[0]] + buff[beg + sizes[0]..];
    }
  }

  /** All bytes of `b` are the same. */
  predicate Uniform(b: seq<byte>) {
    forall i :: 0 <= i < |b| ==> b[i] == b[0]
  }

  function SingleBytes(n: nat): seq<nat> {
    seq(n, _ => 1)
  }

  lemma {:induction false} WireOneByOne(buff: seq<byte>, len: nat)
    requires len <= |buff|
    ensures Complete(len, SingleBytes(len))
    ensures forall i :: 0 <= i < |Wire(buff, len, SingleBytes(len))| ==> Wire(buff, len, SingleBytes(len))[i] == buff[0]
  {
    if len > 0 {
      WireOneByOne(buff, len - 1);
      assert SingleBytes(len)[1..] == SingleBytes(len - 1);
    }
  }

  lemma {:induction false} WireOfUniform(buff: seq<byte>, len: nat, sizes: seq<nat>)
    requires len <= |buff| && Complete(len, sizes) && Uniform(buff)
    ensures Wire(buff, len, sizes) == buff[..len]
  {
    if len > 0 {
      WireOfUniform(buff, len - sizes[0], sizes[1..]);
    }
  }

  /** The buffer arrives intact however the connection cuts it up exactly if all its bytes are the same. */
  lemma DeliveredUnderAnyChunking(buff: seq<byte>)
    ensures (forall sizes :: Complete(|buff|, sizes) ==> Wire(buff, |buff|, sizes) == buff) <==> Uniform(buff)
  {
    if Uniform(buff) {
      forall sizes | Complete(|buff|, sizes) ensures Wire(buff, |buff|, sizes) == buff {
        WireOfUniform(buff, |buff|, sizes);
        assert buff[..|buff|] == buff;
      }
    } else {
      WireOneByOne(buff, |buff|);
      WireLength(buff, |buff|, SingleBytes(|buff|));
      assert Complete(|buff|, SingleBytes(|buff|)) && Wire(buff, |buff|, SingleBytes(|buff|)) != buff;
    }
  }

  /** No write_some takes only a part: each takes nothing, or everything. */
  predicate Whole(n: nat, sizes: seq<nat>) {
    forall i :: 0 <= i < |sizes| ==> sizes[i] == 0 || sizes[i] == n
  }

  lemma {:induction false} WholeDelivers(buff: seq<byte>, sizes: seq<nat>)
    requires Complete(|buff|, sizes) && Whole(|buff|, sizes)
    ensures Wire(buff, |buff|, sizes) == buff
  {
    if |buff| > 0 {
      if sizes[0] == 0 {
        WholeDelivers(buff, sizes[1..]);
      } else {
        assert buff[..|buff|] == buff;
      }
    }
  }

  /** A buffer of `n` bytes in which the bytes from `k` on differ from those before. */
  function TwoValued(n: nat, k: nat): (b: seq<byte>)
    ensures |b| == n
  {
    seq(n, i => if i < k then 0 else 1)
  }

  lemma {:induction false} WireBeginsAgain(buff: seq<byte>, len: nat, sizes: seq<nat>)
    requires 0 < len <= |buff| && Complete(len, sizes)
    ensures |Wire(buff, len, sizes)| == len && Wire(buff, len, sizes)[0] == buff[0]
  {
    WireLength(buff, len, sizes);
    if sizes[0] == 0 {
      WireBeginsAgain(buff, len, sizes[1..]);
    }
  }

  lemma {:induction false} PartialSpoils(n: nat, sizes: seq<nat>) returns (buff: seq<byte>)
    requires Complete(n, sizes) && !Whole(n, sizes)
    ensures |buff| == n && Wire(buff, n, sizes) != buff
  {
    var s := sizes[0];
    if s == 0 {
      buff := PartialSpoils(n, sizes[1..]);
    } else if s < n {
      buff := TwoValued(n, s);
      WireBeginsAgain(buff, n - s, sizes[1..]);
      assert Wire(buff, n, sizes)[s] == buff[0];
    } else {
      TakenWhole(n, sizes);
      assert false;
    }
  }

  lemma TakenWhole(n: nat, sizes: seq<nat>)
    requires n > 0 && Complete(n, sizes) && sizes[0] == n
    ensures Whole(n, sizes)
  {
    assert Complete(0, sizes[1..]);
  }

  /** A way of cutting up delivers every buffer of length `n` intact exactly if nothing is cut. */
  lemma ChunkingDeliversEverything(n: nat, sizes: seq<nat>)
    requires Complete(n, sizes)
    ensures (forall buff: seq<byte> :: |buff| == n ==> Wire(buff, n, sizes) == buff) <==> Whole(n, sizes)
  {
    if Whole(n, sizes) {
      forall buff: seq<byte> | |buff| == n ensures Wire(buff, n, sizes) == buff {
        WholeDelivers(buff, sizes);
      }
    } else {
      var buff := PartialSpoils(n, sizes);
    }
  }

  /** Two different bytes, taken one at a time, arrive as the first one twice. */
  lemma SendFails()
    ensures Complete(2, [1, 1]) && Wire([7, 9], 2, [1, 1]) == [7, 7]
  {
    assert [1, 1][1..] == [1] && [1][1..] == [];
    assert Wire([7, 9], 1, [1]) == [7] + Wire([7, 9], 0, []);
  }
}
