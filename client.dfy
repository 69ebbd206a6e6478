/** The IEC 60870-5-104 client of client/client.go as an object whose state
    the operations change in place: the octets the peer will still deliver,
    whether the socket accepts writes, the frames written, the contents of
    the data, control and output channels, and whether the session was
    cancelled. Each method keeps to the rule of module ClientRules that
    describes it, so what is proved there about the rules holds for the
    object. */
module Client {
  import opened Wire
  import opened Apci
  import opened MeNc1
  import opened Asdu
  import opened Apdu
  import opened ClientRules

  class Connection {
    /** The octets each socket read will return, oldest first; a read with
        none left fails. */
    var inbound: seq<seq<byte>>
    /** Whether socket writes succeed. */
    const writable: bool
    /** The frames written, oldest first. */
    var sent: seq<Outbound>
    /** `dataChan`, `ctrChan` and `outChan`, oldest first. */
    var data: seq<Apdu>
    var ctrl: seq<Apdu>
    var out: seq<map<int, uint32>>
    /** The session's context was cancelled. */
    var cancelled: bool

    /** The state as the rules of ClientRules see it: each pending read as
        the outcome of ParseAPDU on its octets. */
    function Snapshot(): Link
      reads this
    {
      Link(Parsed(inbound), writable, sent, data, ctrl, out, cancelled)
    }

    /** `New` (client.go:40-62) on a connection that will deliver `frames`,
        with empty channels. */
    constructor (frames: seq<seq<byte>>, writable: bool)
      ensures Snapshot() == Link(Parsed(frames), writable, [], [], [], [], false)
    {
      inbound := frames;
      this.writable := writable;
      sent := [];
      data := [];
      ctrl := [];
      out := [];
      cancelled := false;
    }

    /** `conn.Write` of one frame. */
    method Write(o: Outbound) returns (ok: bool)
      modifies this
      ensures (ok, Snapshot()) == ClientRules.Write(old(Snapshot()), o)
      ensures inbound == old(inbound)
    {
      ok := writable;
      if ok {
        sent := sent + [o];
      }
    }

    /** `conn.Read` and ParseAPDU on the octets read; `got` is false when the
        socket read fails. */
    method Read() returns (got: bool, r: Outcome<Apdu>)
      modifies this
      ensures (r, Snapshot()) == ReadNext(old(Snapshot()))
      ensures got <==> old(inbound) != []
      ensures got ==> inbound == old(inbound)[1..]
      ensures !got ==> inbound == old(inbound)
    {
      if inbound == [] {
        return false, Err(ReadFailed);
      }
      ParsedTail(inbound);
      got, r := true, ParseApdu(inbound[0]);
      inbound := inbound[1..];
    }

    /** writeUFrame (client.go:413-451): write the U frame, then read until a
        U frame arrives; I and S frames on the way go to the data channel,
        and the U frame goes to the control channel too when it carries an
        activation. */
    method WriteUFrame(u: UFrame) returns (r: Outcome<Apdu>)
      modifies this
      ensures (r, Snapshot()) == ClientRules.WriteUFrame(old(Snapshot()), u)
    {
      var ok := Write(Outbound(APCI_LEN, UFrameOf(u), None));
      if !ok {
        return Err(WriteFailed);
      }
      ghost var goal := AwaitU(Snapshot());
      while true
        invariant AwaitU(Snapshot()) == goal
        decreases |inbound|
      {
        var got;
        got, r := Read();
        if !r.Ok? {
          return;
        }
        match r.value.ctrFrame {
          case UFrameOf(f) =>
            if AnyAct(f) {
              ctrl := ctrl + [r.value];
            }
            return;
          case _ =>
            data := data + [r.value];
        }
      }
    }

    /** `stop`, `start` and `test` (client.go:172-247): send the activation of
        `h` and check the confirmation flag of the answer. */
    method Handshake(h: Handshake) returns (r: Outcome<()>)
      modifies this
      ensures (r, Snapshot()) == Handshaking(old(Snapshot()), h)
    {
      var w := WriteUFrame(ActFrame(h));
      if !w.Ok? {
        return Propagate(w);
      }
      if !w.value.ctrFrame.UFrameOf? {
        return Panic(FailedTypeAssertion);
      }
      if Confirms(w.value.ctrFrame.u, h) {
        r := Ok(());
      } else {
        r := Err(NotConfirmed);
      }
    }

    /** init (client.go:158-169). */
    method Init() returns (r: Outcome<()>)
      modifies this
      ensures (r, Snapshot()) == ClientRules.Init(old(Snapshot()))
    {
      r := Handshake(StopDt);
      if !r.Ok? {
        return;
      }
      r := Handshake(StartDt);
    }

    /** totalCall (client.go:250-306): send the general interrogation, then
        read until an I frame arrives; S frames on the way go to the data
        channel and U frames to the control channel. The I frame is
        acknowledged when it confirms the interrogation and goes to the data
        channel otherwise. */
    method TotalCall() returns (r: Outcome<()>)
      modifies this
      ensures (r, Snapshot()) == ClientRules.TotalCall(old(Snapshot()))
    {
      var ok := Write(TOTAL_CALL_FRAME);
      if !ok {
        return Err(WriteFailed);
      }
      ghost var goal := AwaitI(Snapshot());
      while true
        invariant AwaitI(Snapshot()) == goal
        decreases |inbound|
      {
        var got, a := Read();
        if !a.Ok? {
          return Propagate(a);
        }
        match a.value.ctrFrame {
          case IFrame(send, _) =>
            if ConfirmsInterrogation(a.value) {
              ok := Write(AckFrame(send));
              r := if ok then Ok(()) else Err(WriteFailed);
            } else {
              data := data + [a.value];
              r := Err(InterrogationUnconfirmed);
            }
            return;
          case SFrame(_) =>
            data := data + [a.value];
          case UFrameOf(_) =>
            ctrl := ctrl + [a.value];
        }
      }
    }

    /** reconnect (client.go:359-373). */
    method Reconnect() returns (r: Outcome<()>)
      modifies this
      ensures (r, Snapshot()) == ClientRules.Reconnect(old(Snapshot()))
    {
      r := Handshake(StopDt);
      if !r.Ok? {
        return;
      }
      r := Handshake(StartDt);
      if !r.Ok? {
        return;
      }
      r := TotalCall();
    }

    /** The reconnect loop of connectionTest (client.go:96-103): up to five
        attempts, stopping at the first that succeeds or panics. */
    method Retry() returns (e: RetryEnd, attempts: nat)
      modifies this
      ensures (e, Snapshot(), attempts) == ClientRules.Retry(old(Snapshot()), 0)
    {
      ghost var goal := ClientRules.Retry(Snapshot(), 0);
      attempts := 0;
      while attempts < MAX_RECONNECTS
        invariant attempts <= MAX_RECONNECTS
        invariant ClientRules.Retry(Snapshot(), attempts) == goal
        decreases MAX_RECONNECTS - attempts
      {
        var r := Reconnect();
        attempts := attempts + 1;
        if r.Ok? {
          return Reconnected, attempts;
        } else if r.Panic? {
          return RetryPanicked(r.kind), attempts;
        }
      }
      e := GaveUp;
    }

    /** One tick of connectionTest (client.go:91-106): a test, and after a
        test that fails with an error the reconnect loop, cancelling the
        session when it gives up. A panic runs the deferred `cancel` and
        ends the process. */
    method Tick() returns (e: TickEnd, attempts: nat)
      modifies this
      ensures (e, Snapshot(), attempts) == ClientRules.Tick(old(Snapshot()))
    {
      var r := Handshake(TestFr);
      if r.Ok? {
        return Resumed, 0;
      } else if r.Panic? {
        cancelled := true;
        return Crashed(r.kind), 0;
      }
      var re;
      re, attempts := Retry();
      match re
      case Reconnected =>
        e := Resumed;
      case GaveUp =>
        cancelled := true;
        e := Cancelled;
      case RetryPanicked(k) =>
        cancelled := true;
        e := Crashed(k);
    }

    /** connectionTest (client.go:84-113) over `ticks` ticker ticks. */
    method ConnectionTest(ticks: nat)
      modifies this
      ensures Snapshot() == ClientRules.ConnectionTest(old(Snapshot()), ticks)
    {
      ghost var goal := ClientRules.ConnectionTest(Snapshot(), ticks);
      var left, stopped := ticks, false;
      while left > 0 && !stopped
        invariant !stopped ==> ClientRules.ConnectionTest(Snapshot(), left) == goal
        invariant stopped ==> Snapshot() == goal
        decreases left
      {
        ghost var pre := Snapshot();
        var e, n := Tick();
        ConnectionTestStep(pre, left, e, Snapshot(), n);
        stopped := !e.Resumed?;
        left := left - 1;
      }
      if !stopped {
        ConnectionTestDone(Snapshot());
      }
    }

    /** The loop of `read` (client.go:378-410), with the mutex left out:
        frames that do not parse are skipped, I and S frames go to the data
        channel and U frames to the control channel, until a read fails. */
    method ReadLoop() returns (r: Outcome<()>)
      modifies this
      ensures (r, Snapshot()) == ReadAll(old(Snapshot()))
    {
      ghost var goal := ReadAll(Snapshot());
      while true
        invariant ReadAll(Snapshot()) == goal
        decreases |inbound|
      {
        var got, a := Read();
        if !got {
          cancelled := true;
          return Err(ReadFailed);
        }
        if a.Panic? {
          cancelled := true;
          return Propagate(a);
        }
        if a.Ok? {
          if a.value.ctrFrame.UFrameOf? {
            ctrl := ctrl + [a.value];
          } else {
            data := data + [a.value];
          }
        }
      }
    }

    /** uFrameResp (client.go:309-357) until the control channel is empty:
        each frame must hold a U frame, and an activation is answered by the
        echo rule. */
    method UFrameResp() returns (r: Outcome<()>)
      modifies this
      ensures (r, Snapshot()) == ClientRules.UFrameResp(old(Snapshot()))
    {
      ghost var goal := ClientRules.UFrameResp(Snapshot());
      while ctrl != []
        invariant ClientRules.UFrameResp(Snapshot()) == goal
        decreases |ctrl|
      {
        var a := ctrl[0];
        if !a.ctrFrame.UFrameOf? {
          ctrl := ctrl[1..];
          cancelled := true;
          return Panic(FailedTypeAssertion);
        }
        ghost var before := Snapshot();
        ctrl := ctrl[1..];
        var e := Echo(a.ctrFrame.u);
        if e.Some? {
          var _ := Write(Outbound(APCI_LEN, UFrameOf(e.value), None));
        }
        assert Snapshot() == RespStep(before);
      }
      r := Ok(());
    }

    /** receive (client.go:115-155) until the data channel is empty: the
        values of each I frame that handleData accepts go to the output
        channel and an S frame acknowledges it. */
    method Receive()
      modifies this
      ensures Snapshot() == ClientRules.Receive(old(Snapshot()))
    {
      ghost var goal := ClientRules.Receive(Snapshot());
      while data != []
        invariant ClientRules.Receive(Snapshot()) == goal
        decreases |data|
      {
        ghost var before := Snapshot();
        var a := data[0];
        data := data[1..];
        if a.ctrFrame.IFrame? {
          var values := HandleData(a);
          if values.Ok? {
            out := out + [values.value];
            var _ := Write(AckFrame(a.ctrFrame.send));
          }
        }
        assert Snapshot() == ReceiveStep(before);
      }
    }
  }

  /** handleData (client.go:453-478) with the map made before it is filled:
      the values of an M_ME_NC_1 body by information object address, an SQ=1
      run counting up from its base address. */
  method HandleData(a: Apdu) returns (r: Outcome<map<int, uint32>>)
    ensures r == Values(a)
  {
    if a.asdu.dui.typeId != M_ME_NC_1 {
      return Err(UnsupportedAsduType(a.asdu.dui.typeId));
    }
    match a.asdu.body {
      case Nc1(Sq1(base, cores)) =>
        var values: map<int, uint32> := map[];
        var address: int := base as int;
        var i := 0;
        while i < |cores|
          invariant 0 <= i <= |cores|
          invariant address == base as int + i
          invariant values == Sq1Values(base as int, cores[..i])
        {
          assert cores[..i + 1][..i] == cores[..i];
          values := values[address := cores[i].value];
          address := address + 1;
          i := i + 1;
        }
        assert cores[..|cores|] == cores;
        r := Ok(values);
      case Nc1(Sq0(es)) =>
        var values: map<int, uint32> := map[];
        var i := 0;
        while i < |es|
          invariant 0 <= i <= |es|
          invariant values == Sq0Values(es[..i])
        {
          assert es[..i + 1][..i] == es[..i];
          values := values[es[i].address as int := es[i].core.value];
          i := i + 1;
        }
        assert es[..|es|] == es;
        r := Ok(values);
      case _ =>
        r := Err(UnknownElementType);
    }
  }
}
