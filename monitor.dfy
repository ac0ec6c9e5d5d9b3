/** One iteration of the worker loop in `stun_loop` (`src/stun.rs`): reconnect
    when asked to, send the Binding Request, read the response, and call the
    DNS update only when the public address differs from the last one that was
    published. The socket calls and the DNS update are inputs: `ProbeIo` says
    what each of them returned in this iteration. */
module StunWorker {
  import opened Common
  import opened Stun

  /** What the I/O of one iteration returned. Each field is only consulted
      when the source makes that call. */
  datatype ProbeIo = ProbeIo(
    reconnectOk: bool,           // `stun_connect`, made only while `reconn` is set
    writeOk: bool,               // `write_all` of the request
    read: Option<seq<Byte>>,     // `read`: `None` for an error, else the bytes delivered
    updateOk: bool,              // `update_srv`, made only when the address changed
    shutdownOk: bool)            // `shutdown`, made only when `keep_alive` is off

  /** The loop's mutable variables, and whether the task is still alive
      (a panic in `parse_addr` ends the spawned task). */
  datatype WorkerState = WorkerState(lastAddr: Option<SocketAddr>, reconn: bool, running: bool)

  /** The outcome of one iteration: the new state, the address handed to the
      DNS update if it was called, and whether the iteration ended in an error. */
  datatype Iteration = Iteration(next: WorkerState, update: Option<SocketAddr>, failed: bool)

  /** The address this iteration's response yields, if the iteration gets that far. */
  function Observed(s: WorkerState, io: ProbeIo): (o: Option<SocketAddr>)
    ensures o.Some? ==> s.running && io.writeOk && io.read.Some? && o.value.ip.V4?
    ensures o.Some? ==> ParseAddrSpec(ResponseBuffer(io.read.value)) == Ok(o.value)
  {
    if !s.running || (s.reconn && !io.reconnectOk) || !io.writeOk || io.read.None? then None
    else match ParseAddrSpec(ResponseBuffer(io.read.value))
      case Ok(a) => Some(a)
      case Err(_) => None
  }

  /** One pass through the body of the loop in `stun_loop`. The address
      handed to the DNS update is always the one this iteration observed, and
      a new one; the published address either stays or becomes that address;
      a stopped task never restarts. */
  function Step(s: WorkerState, keepAlive: bool, io: ProbeIo): (it: Iteration)
    ensures it.update.Some? ==> it.update == Observed(s, io) && it.update != s.lastAddr
    ensures it.next.lastAddr == s.lastAddr || it.next.lastAddr == it.update
    ensures it.next.running ==> s.running
  {
    if !s.running then Iteration(s, None, false)
    else if (s.reconn && !io.reconnectOk) || !io.writeOk || io.read.None? then
      Iteration(s.(reconn := true), None, true)
    else match ParseAddrSpec(ResponseBuffer(io.read.value))
      case Err(AttributeOutOfBounds) => Iteration(s.(reconn := false, running := false), None, true)
      case Err(_) => Iteration(s.(reconn := true), None, true)
      case Ok(addr) =>
        var changed := Some(addr) != s.lastAddr;
        var last := if changed && io.updateOk then Some(addr) else s.lastAddr;
        var update := if changed then Some(addr) else None;
        if keepAlive then Iteration(WorkerState(last, false, true), update, false)
        else Iteration(WorkerState(last, true, true), update, !io.shutdownOk)
  }

  /** The loop variables of `stun_loop` and the iteration that updates them. */
  class Worker {
    const keepAlive: bool
    var lastAddr: Option<SocketAddr>
    var reconn: bool
    var running: bool

    function State(): WorkerState
      reads this
    {
      WorkerState(lastAddr, reconn, running)
    }

    /** The state entering the loop: nothing published, connected, alive. */
    constructor(keepAlive: bool)
      ensures this.keepAlive == keepAlive
      ensures State() == WorkerState(None, false, true)
    {
      this.keepAlive := keepAlive;
      lastAddr := None;
      reconn := false;
      running := true;
    }

    /** One iteration. `sent` is the request written to the stream, if the
        iteration got as far as writing: exactly the 20 bytes of the Binding
        Request, nothing more. */
    method Iterate(io: ProbeIo) returns (sent: Option<seq<Byte>>, update: Option<SocketAddr>, failed: bool)
      modifies this
      ensures Iteration(State(), update, failed) == Step(old(State()), keepAlive, io)
      ensures sent.Some? <==> old(running) && (!old(reconn) || io.reconnectOk)
      ensures sent.Some? ==> |sent.value| == HeaderLength
      ensures sent.Some? ==> sent.value == [0x00, 0x01, 0x00, 0x00] + CookieBytes() + TransactionId()
      ensures sent.Some? ==> DecodeHeader(sent.value) == Some(Header(BindingRequestType, 0, MagicCookie, TransactionId()))
    {
      sent, update, failed := None, None, false;
      if !running {
        return;
      }
      if reconn {
        if !io.reconnectOk {
          failed := true;
          return;
        }
        reconn := false;
      }
      var request := BindingRequest();
      sent := Some(request);
      if !io.writeOk || io.read.None? {
        reconn, failed := true, true;
        return;
      }
      var parsed := ParseAddr(ResponseBuffer(io.read.value));
      if parsed.Err? {
        if parsed.error == AttributeOutOfBounds {
          running := false;
        } else {
          reconn := true;
        }
        failed := true;
        return;
      }
      var addr := parsed.value;
      if Some(addr) != lastAddr {
        update := Some(addr);
        if io.updateOk {
          lastAddr := Some(addr);
        }
      }
      if !keepAlive {
        failed := !io.shutdownOk;
        reconn := true;
      }
    }
  }

  /** The DNS update is called exactly when the iteration observes an address
      that differs from the last published one, and it is handed that address. */
  lemma UpdateIffChanged(s: WorkerState, keepAlive: bool, io: ProbeIo)
    ensures var it := Step(s, keepAlive, io);
      it.update == (if Observed(s, io).Some? && Observed(s, io) != s.lastAddr then Observed(s, io) else None)
  {
  }

  /** The published address changes only through a successful update, and a
      successful update always publishes what it was handed. */
  lemma CommitOnlyOnSuccess(s: WorkerState, keepAlive: bool, io: ProbeIo)
    ensures var it := Step(s, keepAlive, io);
      && (it.next.lastAddr != s.lastAddr ==> it.update.Some? && io.updateOk && it.next.lastAddr == it.update)
      && (it.update.Some? && io.updateOk ==> it.next.lastAddr == it.update)
      && (it.update.Some? && !io.updateOk ==> it.next.lastAddr == s.lastAddr)
  {
  }

  /** A failed update is retried: the next iteration that observes the same
      address calls the update with it again. */
  lemma FailedUpdateRetried(s: WorkerState, keepAlive: bool, io1: ProbeIo, io2: ProbeIo, a: SocketAddr)
    requires Step(s, keepAlive, io1).update == Some(a) && !io1.updateOk
    requires Observed(Step(s, keepAlive, io1).next, io2) == Some(a)
    ensures Step(Step(s, keepAlive, io1).next, keepAlive, io2).update == Some(a)
  {
    assert Observed(s, io1) == Some(a);
  }

  /** `reconn` is set after any failed iteration, and at the end of every
      iteration when `keep_alive` is off; it is cleared only by a successful
      reconnect. */
  lemma ReconnRules(s: WorkerState, keepAlive: bool, io: ProbeIo)
    ensures var it := Step(s, keepAlive, io);
      && (s.running && it.failed && it.next.running ==> it.next.reconn)
      && (s.running && !keepAlive && it.next.running ==> it.next.reconn)
      && (s.reconn && !it.next.reconn ==> s.running && io.reconnectOk)
      && (s.running && keepAlive && !it.failed ==> !it.next.reconn)
  {
  }

  /** The task stops only when `parse_addr` indexes past the buffer, and a
      stopped task does nothing more. */
  lemma StopsOnlyOnPanic(s: WorkerState, keepAlive: bool, io: ProbeIo)
    ensures var it := Step(s, keepAlive, io);
      && (s.running && !it.next.running <==>
            s.running && !(s.reconn && !io.reconnectOk) && io.writeOk && io.read.Some?
            && ParseAddrSpec(ResponseBuffer(io.read.value)) == Err(AttributeOutOfBounds))
      && (!s.running ==> it == Iteration(s, None, false))
  {
  }

  /** The addresses handed to the DNS update over a run of iterations. */
  function Run(s: WorkerState, keepAlive: bool, ios: seq<ProbeIo>): (r: (WorkerState, seq<SocketAddr>))
    decreases |ios|
  {
    if ios == [] then (s, [])
    else
      var it := Step(s, keepAlive, ios[0]);
      var rest := Run(it.next, keepAlive, ios[1..]);
      (rest.0, (if it.update.Some? then [it.update.value] else []) + rest.1)
  }

  /** Each iteration either fails before a response is parsed or observes `a`. */
  predicate SeesOnly(io: ProbeIo, a: SocketAddr)
  {
    io.writeOk && io.read.Some? ==>
      match ParseAddrSpec(ResponseBuffer(io.read.value))
      case Ok(b) => b == a
      case Err(e) => e != AttributeOutOfBounds
  }

  /** Repeated probes that keep seeing the same public address, with updates
      that succeed, call the DNS update at most once, and not at all when that
      address is already published. */
  lemma {:induction false} RepeatedProbesUpdateOnce(s: WorkerState, keepAlive: bool, ios: seq<ProbeIo>, a: SocketAddr)
    requires forall i :: 0 <= i < |ios| ==> SeesOnly(ios[i], a) && ios[i].updateOk
    ensures |Run(s, keepAlive, ios).1| <= 1
    ensures s.lastAddr == Some(a) ==> Run(s, keepAlive, ios).1 == []
    ensures forall i :: 0 <= i < |Run(s, keepAlive, ios).1| ==> Run(s, keepAlive, ios).1[i] == a
    decreases |ios|
  {
    if ios != [] {
      var it := Step(s, keepAlive, ios[0]);
      RepeatedProbesUpdateOnce(it.next, keepAlive, ios[1..], a);
      if it.update.Some? {
        assert it.next.lastAddr == Some(a);
      } else {
        assert it.next.lastAddr == s.lastAddr;
      }
    }
  }
}
