/** The decision rules of the IEC 60870-5-104 client of client/client.go,
    as functions on a snapshot of everything the client touches: the frames
    the peer will still deliver, whether writes succeed, the frames written,
    the data, control and output channels, and whether the session was
    cancelled. Each rule is written the way the client's loop runs it, one
    read at a time; class Connection in module Client runs the same rules as
    methods that update that state in place. */
module ClientRules {
  import opened Wire
  import opened Apci
  import opened MeNc1
  import opened CIcNa1
  import opened Asdu
  import opened Parse
  import opened Apdu

  /** A frame the client writes: the length it hands the APCI encoder, the
      control field, and the ASDU if any. The octets themselves come from
      `NewAPCI`, which is not part of this model. */
  datatype Outbound = Outbound(apduLen: int, frame: CtrFrame, asdu: Option<Asdu>)

  /** The state the client's operations read and change. Each element of
      `inbound` is the outcome of ParseAPDU on what one socket read returns
      (see `Parsed`); when none are left a read fails. `data`, `ctrl` and
      `out` are the contents of `dataChan`, `ctrChan` and `outChan`, oldest
      first. */
  datatype Link = Link(
    inbound: seq<Outcome<Apdu>>,
    writable: bool,
    sent: seq<Outbound>,
    data: seq<Apdu>,
    ctrl: seq<Apdu>,
    out: seq<map<int, uint32>>,
    cancelled: bool)

  /** `conn.Write`: the frame is logged when writes succeed. */
  function Write(l: Link, o: Outbound): (bool, Link)
  {
    if l.writable then (true, l.(sent := l.sent + [o])) else (false, l)
  }

  /** The outcomes of ParseAPDU on the octets of successive reads. */
  function Parsed(frames: seq<seq<byte>>): (r: seq<Outcome<Apdu>>)
    ensures |r| == |frames|
    ensures forall k :: 0 <= k < |frames| ==> r[k] == ParseApdu(frames[k])
  {
    seq(|frames|, k requires 0 <= k < |frames| => ParseApdu(frames[k]))
  }

  /** `conn.Read` followed by `ParseAPDU` on the octets read. */
  function ReadNext(l: Link): (Outcome<Apdu>, Link)
  {
    if l.inbound == [] then (Err(ReadFailed), l)
    else (l.inbound[0], l.(inbound := l.inbound[1..]))
  }

  /** Nothing but the channels and the reading position differ. */
  predicate SameOutside(l: Link, l': Link)
  {
    l'.writable == l.writable && l'.sent == l.sent && l'.out == l.out && l'.cancelled == l.cancelled
  }

  // ---------------------------------------------------------------------
  // U frames: the three handshakes and the echo rule

  /** The three procedures driven by U frames: start and stop of data
      transfer (clause 5.3 of IEC 60870-5-104) and the test procedure
      (clause 5.2). */
  datatype Handshake = StartDt | StopDt | TestFr

  const NO_FLAGS: UFrame := UFrame(0, 0, 0, 0, 0, 0)

  /** The activation flag of `h` is set. */
  predicate Requests(u: UFrame, h: Handshake)
  {
    match h
    case StartDt => u.startdtAct != 0
    case StopDt => u.stopdtAct != 0
    case TestFr => u.testfrAct != 0
  }

  /** The confirmation flag of `h` is set. */
  predicate Confirms(u: UFrame, h: Handshake)
  {
    match h
    case StartDt => u.startdtCon != 0
    case StopDt => u.stopdtCon != 0
    case TestFr => u.testfrCon != 0
  }

  /** Some activation flag is set (client.go:445). */
  predicate AnyAct(u: UFrame)
  {
    u.startdtAct != 0 || u.stopdtAct != 0 || u.testfrAct != 0
  }

  /** The U frame of `stop`, `start` and `test`: only `h`'s activation flag
      (client.go:173-175, 199-201, 225-227). */
  function ActFrame(h: Handshake): (u: UFrame)
    ensures Requests(u, h) && forall h' | h' != h :: !Requests(u, h') && !Confirms(u, h')
    ensures !Confirms(u, h)
  {
    match h
    case StartDt => NO_FLAGS.(startdtAct := 0x04)
    case StopDt => NO_FLAGS.(stopdtAct := 0x10)
    case TestFr => NO_FLAGS.(testfrAct := 0x40)
  }

  /** The activation uFrameResp serves when several are set: STARTDT before
      STOPDT before TESTFR (client.go:319, 330, 341). */
  function Served(u: UFrame): (h: Option<Handshake>)
    ensures h.None? <==> !AnyAct(u)
    ensures h.Some? ==> Requests(u, h.value)
  {
    if u.startdtAct != 0 then Some(StartDt)
    else if u.stopdtAct != 0 then Some(StopDt)
    else if u.testfrAct != 0 then Some(TestFr)
    else None
  }

  /** `u` with `h`'s activation flag cleared and its confirmation flag set. */
  function Answer(u: UFrame, h: Handshake): UFrame
  {
    match h
    case StartDt => u.(startdtAct := 0, startdtCon := 0x08)
    case StopDt => u.(stopdtAct := 0, stopdtCon := 0x20)
    case TestFr => u.(testfrAct := 0, testfrCon := 0x80)
  }

  /** The echo rule of uFrameResp (client.go:318-354): the served activation
      is turned into its confirmation, every other flag is kept, and a frame
      without activation gets no answer. */
  function Echo(u: UFrame): (r: Option<UFrame>)
    ensures r.None? <==> !AnyAct(u)
    ensures r.Some? ==> var h := Served(u).value;
      && !Requests(r.value, h) && Confirms(r.value, h)
      && forall h' | h' != h :: Requests(r.value, h') == Requests(u, h') && Confirms(r.value, h') == Confirms(u, h')
  {
    match Served(u)
    case None => None
    case Some(h) => Some(Answer(u, h))
  }

  /** A peer that answers U frames by this rule confirms every handshake
      this client starts, and asks for nothing more. */
  lemma EchoAnswersHandshake(h: Handshake)
    ensures Echo(ActFrame(h)).Some?
    ensures Confirms(Echo(ActFrame(h)).value, h) && !AnyAct(Echo(ActFrame(h)).value)
  {
    assert Served(ActFrame(h)) == Some(h);
  }

  /** The wait of writeUFrame (client.go:423-450): I and S frames go to the
      data channel and the wait goes on; the first U frame ends it, and goes
      to the control channel too when it carries an activation. A failed
      read or parse ends the wait with that failure. */
  function AwaitU(l: Link): (Outcome<Apdu>, Link)
    decreases |l.inbound|
  {
    var (r, l1) := ReadNext(l);
    if !r.Ok? then (r, l1)
    else if r.value.ctrFrame.UFrameOf? then
      (r, if AnyAct(r.value.ctrFrame.u) then l1.(ctrl := l1.ctrl + [r.value]) else l1)
    else AwaitU(l1.(data := l1.data + [r.value]))
  }

  /** Every APDU on the control channel holds a U frame. */
  predicate ControlTyped(l: Link)
  {
    forall k :: 0 <= k < |l.ctrl| ==> l.ctrl[k].ctrFrame.UFrameOf?
  }

  /** The routing of writeUFrame: it returns only a U frame; the data
      channel gains only I and S frames; the control channel gains the
      returned frame exactly when it carries an activation; nothing is
      written. */
  lemma AwaitURouting(l: Link)
    ensures var (r, l') := AwaitU(l);
      && SameOutside(l, l') && (WireFrames(l.inbound) ==> WireFrames(l'.inbound))
      && (r.Ok? ==> r.value.ctrFrame.UFrameOf?)
      && |l.data| <= |l'.data| && l'.data[..|l.data|] == l.data
      && (forall k :: |l.data| <= k < |l'.data| ==> !l'.data[k].ctrFrame.UFrameOf?)
      && (l'.ctrl == if r.Ok? && AnyAct(r.value.ctrFrame.u) then l.ctrl + [r.value] else l.ctrl)
  {
    AwaitUOutside(l);
    if WireFrames(l.inbound) {
      AwaitUWire(l);
    }
    AwaitUData(l);
    AwaitUControl(l);
  }

  lemma {:induction false} AwaitUOutside(l: Link)
    ensures var (r, l') := AwaitU(l);
      && SameOutside(l, l')
      && (r.Ok? ==> r.value.ctrFrame.UFrameOf?)
    decreases |l.inbound|
  {
    if l.inbound != [] && l.inbound[0].Ok? && !l.inbound[0].value.ctrFrame.UFrameOf? {
      AwaitUOutside(l.(inbound := l.inbound[1..], data := l.data + [l.inbound[0].value]));
    }
  }

  lemma {:induction false} AwaitUWire(l: Link)
    requires WireFrames(l.inbound)
    ensures WireFrames(AwaitU(l).1.inbound)
    decreases |l.inbound|
  {
    if l.inbound != [] {
      WireFramesTail(l.inbound);
      if l.inbound[0].Ok? && !l.inbound[0].value.ctrFrame.UFrameOf? {
        AwaitUWire(l.(inbound := l.inbound[1..], data := l.data + [l.inbound[0].value]));
      }
    }
  }

  lemma {:induction false} AwaitUData(l: Link)
    ensures var l' := AwaitU(l).1;
      && |l.data| <= |l'.data| && l'.data[..|l.data|] == l.data
      && (forall k :: |l.data| <= k < |l'.data| ==> !l'.data[k].ctrFrame.UFrameOf?)
    decreases |l.inbound|
  {
    if l.inbound != [] && l.inbound[0].Ok? && !l.inbound[0].value.ctrFrame.UFrameOf? {
      var l2 := l.(inbound := l.inbound[1..], data := l.data + [l.inbound[0].value]);
      AwaitUData(l2);
      var l' := AwaitU(l2).1;
      assert l'.data[..|l.data|] == l2.data[..|l.data|];
    }
  }

  lemma {:induction false} AwaitUControl(l: Link)
    ensures var (r, l') := AwaitU(l);
      l'.ctrl == if r.Ok? && r.value.ctrFrame.UFrameOf? && AnyAct(r.value.ctrFrame.u) then l.ctrl + [r.value] else l.ctrl
    decreases |l.inbound|
  {
    if l.inbound != [] && l.inbound[0].Ok? && !l.inbound[0].value.ctrFrame.UFrameOf? {
      AwaitUControl(l.(inbound := l.inbound[1..], data := l.data + [l.inbound[0].value]));
    }
  }

  /** writeUFrame (client.go:413-451). */
  function WriteUFrame(l: Link, u: UFrame): (Outcome<Apdu>, Link)
  {
    var (ok, l1) := Write(l, Outbound(APCI_LEN, UFrameOf(u), None));
    if !ok then (Err(WriteFailed), l1) else AwaitU(l1)
  }

  /** The check of `stop`, `start` and `test` on writeUFrame's answer
      (client.go:186-194, 212-220, 238-246). */
  function Verdict(h: Handshake, w: Outcome<Apdu>): Outcome<()>
  {
    if !w.Ok? then Propagate(w)
    else if !w.value.ctrFrame.UFrameOf? then Panic(FailedTypeAssertion)
    else if Confirms(w.value.ctrFrame.u, h) then Ok(())
    else Err(NotConfirmed)
  }

  /** `stop`, `start` or `test`: send the activation, wait for a U frame and
      check its confirmation flag. */
  function Handshaking(l: Link, h: Handshake): (Outcome<()>, Link)
  {
    var (w, l1) := WriteUFrame(l, ActFrame(h));
    (Verdict(h, w), l1)
  }

  /** A handshake succeeds exactly when the awaited U frame confirms it;
      an answer without the confirmation is an error, and the type
      assertion on the answer never fails. */
  lemma HandshakeIffConfirmed(l: Link, h: Handshake)
    ensures WriteUFrame(l, ActFrame(h)).0.Ok? ==> WriteUFrame(l, ActFrame(h)).0.value.ctrFrame.UFrameOf?
    ensures var (w, _) := WriteUFrame(l, ActFrame(h));
      var r := Handshaking(l, h).0;
      && (w.Ok? ==> (r.Ok? <==> Confirms(w.value.ctrFrame.u, h)))
      && (w.Ok? && !Confirms(w.value.ctrFrame.u, h) ==> r == Err(NotConfirmed))
      && (!w.Ok? ==> r == Propagate(w))
  {
    var (ok, l1) := Write(l, Outbound(APCI_LEN, UFrameOf(ActFrame(h)), None));
    if ok {
      AwaitURouting(l1);
    }
  }

  /** A handshake consumes some of the inbound frames, writes only its
      activation, and adds only to the two channels. */
  lemma HandshakeFrame(l: Link, h: Handshake)
    ensures var l' := Handshaking(l, h).1;
      && (WireFrames(l.inbound) ==> WireFrames(l'.inbound)) && l'.out == l.out && l'.cancelled == l.cancelled && l'.writable == l.writable
      && l'.sent == l.sent + (if l.writable then [Outbound(APCI_LEN, UFrameOf(ActFrame(h)), None)] else [])
  {
    var (ok, l1) := Write(l, Outbound(APCI_LEN, UFrameOf(ActFrame(h)), None));
    if ok {
      AwaitURouting(l1);
    }
  }

  // ---------------------------------------------------------------------
  // I frames: acknowledgement and general interrogation

  /** The receive number of the S frame that acknowledges an I frame with
      send number `send`: `f.Send + 1` in `int16` (client.go:136, 287). */
  function AckFor(send: int16): (recv: int16)
    ensures send < 32767 ==> recv == send + 1
    ensures send == 32767 ==> recv == -32768
    ensures (recv - send - 1) % 65536 == 0
  {
    Wrap16(send + 1)
  }

  /** The S frame that acknowledges an I frame. */
  function AckFrame(send: int16): Outbound
  {
    Outbound(APCI_LEN, SFrame(AckFor(send)), None)
  }

  /** The general interrogation totalCall sends: an I frame with both
      numbers 0, length 14, and a C_IC_NA_1 activation for common address
      1 with the station QOI (client.go:253-259). */
  const TOTAL_CALL_FRAME: Outbound :=
    Outbound(14, IFrame(0, 0), Some(NewAsduCIcNa1(COT_ACT, 0x01, QOI_GLOBAL_CALL)))

  /** The confirmation totalCall looks for (client.go:284). */
  predicate ConfirmsInterrogation(a: Apdu)
  {
    a.asdu.dui.typeId == C_IC_NA_1 && a.asdu.dui.cause == COT_ACTCON
  }

  /** The wait of totalCall (client.go:266-306): S frames go to the data
      channel, U frames to the control channel, and the first I frame ends
      the wait. */
  function AwaitI(l: Link): (Outcome<Apdu>, Link)
    decreases |l.inbound|
  {
    var (r, l1) := ReadNext(l);
    if !r.Ok? then (r, l1)
    else match r.value.ctrFrame
      case IFrame(_, _) => (r, l1)
      case SFrame(_) => AwaitI(l1.(data := l1.data + [r.value]))
      case UFrameOf(_) => AwaitI(l1.(ctrl := l1.ctrl + [r.value]))
  }

  /** An APDU as ParseAPDU can produce it: an interrogation never carries a
      cause. */
  predicate FromWire(a: Apdu)
  {
    a.asdu.dui.typeId == C_IC_NA_1 ==> a.asdu.dui.cause == 0
  }

  /** Every APDU still to be read is one ParseAPDU can produce. */
  predicate WireFrames(inbound: seq<Outcome<Apdu>>)
  {
    forall k :: 0 <= k < |inbound| && inbound[k].Ok? ==> FromWire(inbound[k].value)
  }

  /** What ParseAPDU returns for any octets satisfies `WireFrames`. */
  lemma ParsedFromWire(frames: seq<seq<byte>>)
    ensures WireFrames(Parsed(frames))
  {
    forall k | 0 <= k < |frames| && ParseApdu(frames[k]).Ok?
      ensures FromWire(ParseApdu(frames[k]).value)
    {
      if ParseApdu(frames[k]).value.asdu.dui.typeId == C_IC_NA_1 {
        ParsedIcNeverConfirms(frames[k]);
      }
    }
  }

  /** What is left of the inbound frames after a read still satisfies
      `WireFrames`. */
  lemma WireFramesTail(inbound: seq<Outcome<Apdu>>)
    requires inbound != [] && WireFrames(inbound)
    ensures WireFrames(inbound[1..])
  {
    forall k | 0 <= k < |inbound| - 1 && inbound[1..][k].Ok? ensures FromWire(inbound[1..][k].value) {
      assert inbound[1..][k] == inbound[k + 1];
    }
  }

  /** The wait of totalCall returns a parsed I frame, adds only S frames to
      the data channel and only U frames to the control channel, and writes
      nothing. */
  lemma AwaitIRouting(l: Link)
    requires WireFrames(l.inbound)
    ensures var (r, l') := AwaitI(l);
      && SameOutside(l, l') && WireFrames(l'.inbound)
      && (r.Ok? ==> r.value.ctrFrame.IFrame? && FromWire(r.value))
      && |l.data| <= |l'.data| && l'.data[..|l.data|] == l.data
      && (forall k :: |l.data| <= k < |l'.data| ==> l'.data[k].ctrFrame.SFrame?)
      && |l.ctrl| <= |l'.ctrl| && l'.ctrl[..|l.ctrl|] == l.ctrl
      && (forall k :: |l.ctrl| <= k < |l'.ctrl| ==> l'.ctrl[k].ctrFrame.UFrameOf?)
  {
    AwaitIOutside(l);
    AwaitIWire(l);
    AwaitIData(l);
    AwaitIControl(l);
  }

  /** The state after reading and routing one frame that is not an I frame. */
  function AfterRouted(l: Link): (l': Link)
    requires l.inbound != [] && l.inbound[0].Ok?
    ensures l'.inbound == l.inbound[1..] && SameOutside(l, l')
    ensures var a := l.inbound[0].value;
      && l'.data == (if a.ctrFrame.SFrame? then l.data + [a] else l.data)
      && l'.ctrl == (if a.ctrFrame.SFrame? then l.ctrl else l.ctrl + [a])
  {
    var a := l.inbound[0].value;
    if a.ctrFrame.SFrame? then l.(inbound := l.inbound[1..], data := l.data + [a])
    else l.(inbound := l.inbound[1..], ctrl := l.ctrl + [a])
  }

  lemma {:induction false} AwaitIOutside(l: Link)
    ensures SameOutside(l, AwaitI(l).1)
    decreases |l.inbound|
  {
    if l.inbound != [] && l.inbound[0].Ok? && !l.inbound[0].value.ctrFrame.IFrame? {
      AwaitIOutside(AfterRouted(l));
    }
  }

  /** The frames left, and the I frame returned, are ones ParseAPDU produces. */
  lemma {:induction false} AwaitIWire(l: Link)
    requires WireFrames(l.inbound)
    ensures WireFrames(AwaitI(l).1.inbound)
    ensures var r := AwaitI(l).0;
      r.Ok? ==> r.value.ctrFrame.IFrame? && FromWire(r.value)
    decreases |l.inbound|
  {
    if l.inbound != [] {
      WireFramesTail(l.inbound);
      if l.inbound[0].Ok? && !l.inbound[0].value.ctrFrame.IFrame? {
        AwaitIWire(AfterRouted(l));
      }
    }
  }

  lemma {:induction false} AwaitIData(l: Link)
    ensures var l' := AwaitI(l).1;
      && |l.data| <= |l'.data| && l'.data[..|l.data|] == l.data
      && (forall k :: |l.data| <= k < |l'.data| ==> l'.data[k].ctrFrame.SFrame?)
    decreases |l.inbound|
  {
    if l.inbound != [] && l.inbound[0].Ok? && !l.inbound[0].value.ctrFrame.IFrame? {
      var l2 := AfterRouted(l);
      assert AwaitI(l).1 == AwaitI(l2).1;
      AwaitIData(l2);
      var l' := AwaitI(l2).1;
      var n := |l.data|;
      assert l'.data[..n] == l'.data[..|l2.data|][..n] == l2.data[..n] == l.data;
    }
  }

  lemma {:induction false} AwaitIControl(l: Link)
    ensures var l' := AwaitI(l).1;
      && |l.ctrl| <= |l'.ctrl| && l'.ctrl[..|l.ctrl|] == l.ctrl
      && (forall k :: |l.ctrl| <= k < |l'.ctrl| ==> l'.ctrl[k].ctrFrame.UFrameOf?)
    decreases |l.inbound|
  {
    if l.inbound != [] && l.inbound[0].Ok? && !l.inbound[0].value.ctrFrame.IFrame? {
      var l2 := AfterRouted(l);
      assert AwaitI(l).1 == AwaitI(l2).1;
      AwaitIControl(l2);
      var l' := AwaitI(l2).1;
      var n := |l.ctrl|;
      assert l'.ctrl[..n] == l'.ctrl[..|l2.ctrl|][..n] == l2.ctrl[..n] == l.ctrl;
    }
  }

  /** What totalCall does with the first I frame (client.go:283-300). */
  function Conclude(l: Link, a: Apdu): (Outcome<()>, Link)
    requires a.ctrFrame.IFrame?
  {
    if ConfirmsInterrogation(a) then
      var (ok, l1) := Write(l, AckFrame(a.ctrFrame.send));
      (if ok then Ok(()) else Err(WriteFailed), l1)
    else (Err(InterrogationUnconfirmed), l.(data := l.data + [a]))
  }

  /** The first I frame decides: a confirmation is acknowledged once and
      ends the call successfully when the acknowledgement can be written;
      any other I frame is passed on to the data channel and fails the
      call. */
  lemma ConcludeOutcomes(l: Link, a: Apdu)
    requires a.ctrFrame.IFrame?
    ensures var (r, l') := Conclude(l, a);
      && (r.Ok? <==> ConfirmsInterrogation(a) && l.writable)
      && (r.Ok? ==> l' == l.(sent := l.sent + [AckFrame(a.ctrFrame.send)]))
      && (!ConfirmsInterrogation(a) ==> r == Err(InterrogationUnconfirmed) && l' == l.(data := l.data + [a]))
  {
  }

  /** totalCall (client.go:250-307). */
  function TotalCall(l: Link): (Outcome<()>, Link)
  {
    var (ok, l1) := Write(l, TOTAL_CALL_FRAME);
    if !ok then (Err(WriteFailed), l1)
    else
      var (r, l2) := AwaitI(l1);
      if !r.Ok? then (Propagate(r), l2)
      else if !r.value.ctrFrame.IFrame? then (Err(InterrogationUnconfirmed), l2)
      else Conclude(l2, r.value)
  }

  /** Through ParseAPDU the confirmation at client.go:284 never matches, so
      the general interrogation never succeeds. */
  lemma TotalCallNeverSucceeds(l: Link)
    requires WireFrames(l.inbound)
    ensures !TotalCall(l).0.Ok?
    ensures WireFrames(TotalCall(l).1.inbound)
  {
    var (ok, l1) := Write(l, TOTAL_CALL_FRAME);
    if ok {
      AwaitIRouting(l1);
    }
  }

  // ---------------------------------------------------------------------
  // Sequencing: init, reconnect and the connection test

  /** init (client.go:158-169): stop, then start, up to the first error. */
  function Init(l: Link): (Outcome<()>, Link)
  {
    var (r1, l1) := Handshaking(l, StopDt);
    if !r1.Ok? then (r1, l1) else Handshaking(l1, StartDt)
  }

  /** reconnect (client.go:359-373): stop, start and general interrogation,
      up to the first error. */
  function Reconnect(l: Link): (Outcome<()>, Link)
  {
    var (r1, l1) := Handshaking(l, StopDt);
    if !r1.Ok? then (r1, l1)
    else
      var (r2, l2) := Handshaking(l1, StartDt);
      if !r2.Ok? then (r2, l2) else TotalCall(l2)
  }

  /** Init succeeds exactly when both handshakes succeed in turn. */
  lemma InitIffBothConfirmed(l: Link)
    ensures Init(l).0.Ok? <==> Handshaking(l, StopDt).0.Ok? && Handshaking(Handshaking(l, StopDt).1, StartDt).0.Ok?
  {
  }

  /** Because the interrogation never succeeds, neither does a reconnect. */
  lemma ReconnectNeverSucceeds(l: Link)
    requires WireFrames(l.inbound)
    ensures !Reconnect(l).0.Ok?
    ensures WireFrames(Reconnect(l).1.inbound)
  {
    var (r1, l1) := Handshaking(l, StopDt);
    HandshakeFrame(l, StopDt);
    if r1.Ok? {
      var (r2, l2) := Handshaking(l1, StartDt);
      HandshakeFrame(l1, StartDt);
      if r2.Ok? {
        TotalCallNeverSucceeds(l2);
      }
    }
  }

  /** The number of reconnect attempts after a failed test (client.go:96). */
  const MAX_RECONNECTS: nat := 5

  /** How the reconnect loop ends: one attempt succeeded, all five failed
      with an error, or one panicked. */
  datatype RetryEnd = Reconnected | GaveUp | RetryPanicked(kind: PanicKind)

  /** How one tick of connectionTest ends: the loop goes on, the session is
      cancelled and the goroutine returns, or a panic ends the process. */
  datatype TickEnd = Resumed | Cancelled | Crashed(kind: PanicKind)

  /** The reconnect loop from attempt `i` (client.go:96-103): how it ended,
      the state after it, and how many attempts were made in all. A panic
      inside `reconnect` is not recovered, so it ends the loop at once. */
  function Retry(l: Link, i: nat): (RetryEnd, Link, nat)
    decreases MAX_RECONNECTS - i
  {
    if i >= MAX_RECONNECTS then (GaveUp, l, i)
    else
      var (r, l1) := Reconnect(l);
      match r
      case Ok(_) => (Reconnected, l1, i + 1)
      case Panic(k) => (RetryPanicked(k), l1, i + 1)
      case Err(_) => Retry(l1, i + 1)
  }

  /** The loop never makes more than five attempts, stops at the first
      success or panic, and gives up only after the fifth error. */
  lemma {:induction false} RetryBound(l: Link, i: nat)
    requires i <= MAX_RECONNECTS
    ensures var (e, _, n) := Retry(l, i);
      && i <= n <= MAX_RECONNECTS
      && (!e.GaveUp? ==> i < n)
      && (e.GaveUp? ==> n == MAX_RECONNECTS)
    decreases MAX_RECONNECTS - i
  {
    if i < MAX_RECONNECTS {
      var (r, l1) := Reconnect(l);
      if r.Err? {
        RetryBound(l1, i + 1);
      }
    }
  }

  /** With reconnect never succeeding, the loop never reconnects: it either
      makes all five attempts or stops at one that panics. */
  lemma {:induction false} RetryExhausts(l: Link, i: nat)
    requires i <= MAX_RECONNECTS && WireFrames(l.inbound)
    ensures !Retry(l, i).0.Reconnected?
    ensures Retry(l, i).0.GaveUp? ==> Retry(l, i).2 == MAX_RECONNECTS
    decreases MAX_RECONNECTS - i
  {
    if i < MAX_RECONNECTS {
      ReconnectNeverSucceeds(l);
      if Reconnect(l).0.Err? {
        RetryExhausts(Reconnect(l).1, i + 1);
      }
    }
  }

  /** One tick of connectionTest (client.go:91-107): a test, and after a
      failed one the reconnect loop, which cancels the session when it gives
      up. A panic in `test` or `reconnect` unwinds the goroutine, running its
      deferred `cancel`, and ends the process. Returns how the tick ended, the
      new state and the number of reconnect attempts. */
  function Tick(l: Link): (TickEnd, Link, nat)
  {
    var (r, l1) := Handshaking(l, TestFr);
    match r
    case Ok(_) => (Resumed, l1, 0)
    case Panic(k) => (Crashed(k), l1.(cancelled := true), 0)
    case Err(_) => AfterRetry(Retry(l1, 0))
  }

  /** The end of a tick whose test failed with an error, from the end of
      its reconnect loop (client.go:96-106). */
  function AfterRetry(t: (RetryEnd, Link, nat)): (TickEnd, Link, nat)
  {
    var (e, l, n) := t;
    match e
    case Reconnected => (Resumed, l, n)
    case GaveUp => (Cancelled, l.(cancelled := true), n)
    case RetryPanicked(k) => (Crashed(k), l.(cancelled := true), n)
  }

  /** connectionTest over `ticks` ticker ticks (client.go:84-113): it goes on
      only while every tick resumes. */
  function ConnectionTest(l: Link, ticks: nat): Link
    decreases ticks
  {
    if ticks == 0 then l
    else
      var (e, l1, _) := Tick(l);
      if !e.Resumed? then l1 else ConnectionTest(l1, ticks - 1)
  }

  /** One tick of connectionTest, taken on its own. */
  lemma ConnectionTestStep(l: Link, ticks: nat, e: TickEnd, l1: Link, n: nat)
    requires ticks > 0 && (e, l1, n) == Tick(l)
    ensures ConnectionTest(l, ticks) == if !e.Resumed? then l1 else ConnectionTest(l1, ticks - 1)
  {
  }

  lemma ConnectionTestDone(l: Link)
    ensures ConnectionTest(l, 0) == l
  {
  }

  /** A passed test makes no reconnect attempt. A test that fails with an
      error ends the goroutine: after exactly five failed reconnects the
      session is cancelled, unless a reconnect panics first; either way the
      session is cancelled. */
  lemma FailedTestCancels(l: Link)
    requires WireFrames(l.inbound)
    ensures var (e, l', n) := Tick(l);
      && (Handshaking(l, TestFr).0.Ok? ==> e == Resumed && n == 0)
      && (Handshaking(l, TestFr).0.Err? ==>
            && l'.cancelled && 0 < n <= MAX_RECONNECTS
            && ((e == Cancelled && n == MAX_RECONNECTS) || e.Crashed?))
  {
    var (r, l1) := Handshaking(l, TestFr);
    if r.Err? {
      HandshakeFrame(l, TestFr);
      RetryExhausts(l1, 0);
      RetryBound(l1, 0);
    }
  }

  /** A test that panics ends the process with that panic before any
      reconnect attempt: nothing is written after the test frame. */
  lemma PanickingTestNoReconnect(l: Link)
    requires Handshaking(l, TestFr).0.Panic?
    ensures var (e, l', n) := Tick(l);
      && e == Crashed(Handshaking(l, TestFr).0.kind) && n == 0
      && l' == Handshaking(l, TestFr).1.(cancelled := true)
      && l'.sent == l.sent + (if l.writable then [Outbound(APCI_LEN, UFrameOf(ActFrame(TestFr)), None)] else [])
  {
    HandshakeFrame(l, TestFr);
  }

  /** An example: the test reads an interrogation frame whose ASDU has only
      four octets, parsing it panics, and the process ends with no
      reconnect attempt. */
  lemma ShortInterrogationCrashesTest()
    ensures var l := Link(Parsed([[0x68, 8, 0, 0, 0, 0, 100, 1, 6, 1]]), true, [], [], [], [], false);
      var (e, l', n) := Tick(l);
      e.Crashed? && n == 0 && l'.cancelled
  {
    var frame: seq<byte> := [0x68, 8, 0, 0, 0, 0, 100, 1, 6, 1];
    assert frame[APCI_LEN..] == [100, 1, 6, 1];
    assert ParseAsdu(frame[APCI_LEN..]).Panic?;
    assert ParseCtr(ApciOf(frame)).1.Ok?;
    assert ParseApdu(frame).Panic?;
    var l := Link(Parsed([frame]), true, [], [], [], [], false);
    var (w, l1) := Write(l, Outbound(APCI_LEN, UFrameOf(ActFrame(TestFr)), None));
    assert AwaitU(l1).0 == l.inbound[0];
    PanickingTestNoReconnect(l);
  }

  // ---------------------------------------------------------------------
  // The read goroutine

  /** The APDUs a sequence of reads parses successfully, routed as `read`
      routes them: I and S frames to the data channel. */
  function DataFrames(frames: seq<Outcome<Apdu>>): seq<Apdu>
  {
    if frames == [] then [] else DataOf(frames[0]) + DataFrames(frames[1..])
  }

  function DataOf(r: Outcome<Apdu>): seq<Apdu>
  {
    if r.Ok? && !r.value.ctrFrame.UFrameOf? then [r.value] else []
  }

  function ControlOf(r: Outcome<Apdu>): seq<Apdu>
  {
    if r.Ok? && r.value.ctrFrame.UFrameOf? then [r.value] else []
  }

  /** ... and U frames to the control channel. */
  function ControlFrames(frames: seq<Outcome<Apdu>>): seq<Apdu>
  {
    if frames == [] then [] else ControlOf(frames[0]) + ControlFrames(frames[1..])
  }

  /** Some frame of the sequence makes ParseAPDU panic. */
  predicate SomeParsePanics(frames: seq<Outcome<Apdu>>)
  {
    exists k :: 0 <= k < |frames| && frames[k].Panic?
  }

  /** The loop of `read` (client.go:376-410): a frame that does not parse is
      skipped, a parsed one is routed by its format, and the loop ends at
      the first failed read. Either way out of the goroutine, the return at
      client.go:388 or a panic in ParseAPDU, runs its deferred `cancel`. */
  function ReadAll(l: Link): (Outcome<()>, Link)
    decreases |l.inbound|
  {
    if l.inbound == [] then (Err(ReadFailed), l.(cancelled := true))
    else
      var (r, l1) := ReadNext(l);
      if r.Panic? then (Propagate(r), l1.(cancelled := true))
      else if r.Err? then ReadAll(l1)
      else if r.value.ctrFrame.UFrameOf? then ReadAll(l1.(ctrl := l1.ctrl + [r.value]))
      else ReadAll(l1.(data := l1.data + [r.value]))
  }

  /** The state after `read` routes a first frame that did not panic. */
  function ReadStep(l: Link): (l': Link)
    requires l.inbound != [] && !l.inbound[0].Panic?
    ensures l'.inbound == l.inbound[1..] && SameOutside(l, l')
    ensures l'.data == l.data + DataOf(l.inbound[0])
    ensures l'.ctrl == l.ctrl + ControlOf(l.inbound[0])
  {
    var r := l.inbound[0];
    var l1 := l.(inbound := l.inbound[1..]);
    if r.Err? then l1
    else if r.value.ctrFrame.UFrameOf? then l1.(ctrl := l1.ctrl + [r.value])
    else l1.(data := l1.data + [r.value])
  }

  lemma ReadUnfold(l: Link)
    requires l.inbound != [] && !l.inbound[0].Panic?
    ensures ReadAll(l) == ReadAll(ReadStep(l))
    ensures ReadStep(l).inbound == l.inbound[1..]
  {
  }

  /** Unless some frame makes the parser panic, `read` consumes every frame
      and appends exactly the parsed I and S frames to the data channel and
      the parsed U frames to the control channel, in order. However it ends,
      it writes nothing and cancels the session. */
  lemma ReadAllRoutes(l: Link)
    ensures var (r, l') := ReadAll(l);
      && l'.writable == l.writable && l'.sent == l.sent && l'.out == l.out && l'.cancelled
      && (r.Panic? <==> SomeParsePanics(l.inbound))
      && (!r.Panic? ==> && r == Err(ReadFailed) && l'.inbound == []
                        && l'.data == l.data + DataFrames(l.inbound)
                        && l'.ctrl == l.ctrl + ControlFrames(l.inbound))
  {
    ReadAllEnds(l);
    if !SomeParsePanics(l.inbound) {
      ReadAllData(l);
      ReadAllControl(l);
    }
  }

  lemma NoPanicTail(frames: seq<Outcome<Apdu>>)
    requires frames != [] && !SomeParsePanics(frames)
    ensures !frames[0].Panic? && !SomeParsePanics(frames[1..])
  {
    forall k | 0 <= k < |frames| - 1 ensures !frames[1..][k].Panic? {
      assert frames[1..][k] == frames[k + 1];
    }
  }

  lemma {:induction false} ReadAllEnds(l: Link)
    ensures var (r, l') := ReadAll(l);
      && l'.writable == l.writable && l'.sent == l.sent && l'.out == l.out && l'.cancelled
      && (r.Panic? <==> SomeParsePanics(l.inbound))
      && (!r.Panic? ==> r == Err(ReadFailed) && l'.inbound == [])
    decreases |l.inbound|
  {
    if l.inbound != [] && !l.inbound[0].Panic? {
      var frames := l.inbound;
      ReadUnfold(l);
      ReadAllEnds(ReadStep(l));
      assert SomeParsePanics(frames) <==> SomeParsePanics(frames[1..]) by {
        if SomeParsePanics(frames) {
          var k :| 0 <= k < |frames| && frames[k].Panic?;
          assert k > 0 && frames[1..][k - 1] == frames[k];
        }
        if SomeParsePanics(frames[1..]) {
          var k :| 0 <= k < |frames[1..]| && frames[1..][k].Panic?;
          assert frames[k + 1] == frames[1..][k];
        }
      }
    }
  }

  lemma {:induction false} ReadAllData(l: Link)
    requires !SomeParsePanics(l.inbound)
    ensures ReadAll(l).1.data == l.data + DataFrames(l.inbound)
    decreases |l.inbound|
  {
    if l.inbound != [] {
      NoPanicTail(l.inbound);
      ReadUnfold(l);
      var l2 := ReadStep(l);
      ReadAllData(l2);
      assert DataFrames(l.inbound) == DataOf(l.inbound[0]) + DataFrames(l2.inbound);
      assert l2.data + DataFrames(l2.inbound) == l.data + DataFrames(l.inbound);
    }
  }

  lemma {:induction false} ReadAllControl(l: Link)
    requires !SomeParsePanics(l.inbound)
    ensures ReadAll(l).1.ctrl == l.ctrl + ControlFrames(l.inbound)
    decreases |l.inbound|
  {
    if l.inbound != [] {
      NoPanicTail(l.inbound);
      ReadUnfold(l);
      var l2 := ReadStep(l);
      ReadAllControl(l2);
      assert ControlFrames(l.inbound) == ControlOf(l.inbound[0]) + ControlFrames(l2.inbound);
      assert l2.ctrl + ControlFrames(l2.inbound) == l.ctrl + ControlFrames(l.inbound);
    }
  }

  /** The control channel holds U frames only: `read`, writeUFrame and
      totalCall put nothing else there. */
  lemma ControlChannelTyped(l: Link, u: UFrame)
    requires ControlTyped(l)
    ensures ControlTyped(WriteUFrame(l, u).1)
    ensures ControlTyped(TotalCall(l).1)
    ensures ControlTyped(ReadAll(l).1)
  {
    WriteUFrameTyped(l, u);
    TotalCallTyped(l);
    ReadAllRouting(l);
  }

  lemma WriteUFrameTyped(l: Link, u: UFrame)
    requires ControlTyped(l)
    ensures ControlTyped(WriteUFrame(l, u).1)
  {
    var (ok, l1) := Write(l, Outbound(APCI_LEN, UFrameOf(u), None));
    if ok {
      AwaitUControl(l1);
      AwaitUOutside(l1);
    }
  }

  lemma TotalCallTyped(l: Link)
    requires ControlTyped(l)
    ensures ControlTyped(TotalCall(l).1)
  {
    var (ok, l1) := Write(l, TOTAL_CALL_FRAME);
    if ok {
      AwaitIControl(l1);
      var l2 := AwaitI(l1).1;
      assert forall k :: 0 <= k < |l.ctrl| ==> l2.ctrl[k] == l2.ctrl[..|l.ctrl|][k];
    }
  }

  lemma {:induction false} ReadAllRouting(l: Link)
    requires ControlTyped(l)
    ensures ControlTyped(ReadAll(l).1)
    decreases |l.inbound|
  {
    if l.inbound != [] {
      var (r, l1) := ReadNext(l);
      if r.Ok? {
        ReadAllRouting(if r.value.ctrFrame.UFrameOf? then l1.(ctrl := l1.ctrl + [r.value])
                       else l1.(data := l1.data + [r.value]));
      } else if r.Err? {
        ReadAllRouting(l1);
      }
    }
  }

  // ---------------------------------------------------------------------
  // The U-frame answering goroutine

  /** The answers uFrameResp writes for a queue of U frames. */
  function EchoAnswers(queue: seq<Apdu>): seq<Outbound>
  {
    if queue == [] then [] else EchoOf(queue[0]) + EchoAnswers(queue[1..])
  }

  /** The answer, if any, to one U frame. */
  function EchoOf(a: Apdu): seq<Outbound>
  {
    if !a.ctrFrame.UFrameOf? then []
    else
      var e := Echo(a.ctrFrame.u);
      if e.Some? then [Outbound(APCI_LEN, UFrameOf(e.value), None)] else []
  }

  /** uFrameResp (client.go:309-357) over the frames on the control channel:
      each is answered by the echo rule; a write error skips the answer. */
  function UFrameResp(l: Link): (Outcome<()>, Link)
    decreases |l.ctrl|
  {
    if l.ctrl == [] then (Ok(()), l)
    else if !l.ctrl[0].ctrFrame.UFrameOf? then (Panic(FailedTypeAssertion), l.(ctrl := l.ctrl[1..], cancelled := true))
    else UFrameResp(RespStep(l))
  }

  /** How uFrameResp answers the U frame at the head of the control channel:
      the frame is taken off, and its echo, if any, is written. */
  function RespStep(l: Link): (l': Link)
    requires l.ctrl != [] && l.ctrl[0].ctrFrame.UFrameOf?
    ensures l'.ctrl == l.ctrl[1..] && l'.writable == l.writable
    ensures l'.data == l.data && l'.inbound == l.inbound && l'.out == l.out && l'.cancelled == l.cancelled
    ensures l'.sent == l.sent + (if l.writable then EchoOf(l.ctrl[0]) else [])
  {
    var l1 := l.(ctrl := l.ctrl[1..]);
    match Echo(l.ctrl[0].ctrFrame.u)
    case None => l1
    case Some(f) => Write(l1, Outbound(APCI_LEN, UFrameOf(f), None)).1
  }

  lemma RespStepTyped(l: Link)
    requires ControlTyped(l) && l.ctrl != []
    ensures ControlTyped(RespStep(l))
  {
    assert forall k :: 0 <= k < |l.ctrl| - 1 ==> l.ctrl[1..][k] == l.ctrl[k + 1];
  }

  /** On a control channel of U frames uFrameResp never panics, empties the
      channel and, when writes succeed, writes one echo per frame that
      carries an activation, in order. */
  lemma UFrameRespAnswers(l: Link)
    requires ControlTyped(l)
    ensures var (r, l') := UFrameResp(l);
      && r == Ok(()) && l'.ctrl == []
      && l'.sent == l.sent + (if l.writable then EchoAnswers(l.ctrl) else [])
      && l'.data == l.data && l'.inbound == l.inbound && l'.out == l.out && l'.cancelled == l.cancelled
  {
    RespKeeps(l);
    RespSent(l);
  }

  lemma {:induction false} RespKeeps(l: Link)
    requires ControlTyped(l)
    ensures var (r, l') := UFrameResp(l);
      && r == Ok(()) && l'.ctrl == []
      && l'.data == l.data && l'.inbound == l.inbound && l'.out == l.out && l'.cancelled == l.cancelled
    decreases |l.ctrl|
  {
    if l.ctrl != [] {
      RespStepTyped(l);
      RespKeeps(RespStep(l));
    }
  }
  /** A frame on the control channel that holds no U frame fails the type
      assertion at client.go:318: the goroutine panics, after its deferred
      `cancel`, and the frames behind it are never answered. */
  lemma {:induction false} RespPanicCancels(l: Link)
    requires !ControlTyped(l)
    ensures var (r, l') := UFrameResp(l);
      && r == Panic(FailedTypeAssertion) && l'.cancelled
      && |l'.ctrl| < |l.ctrl| && l'.ctrl == l.ctrl[|l.ctrl| - |l'.ctrl|..]
    decreases |l.ctrl|
  {
    if l.ctrl[0].ctrFrame.UFrameOf? {
      var l2 := RespStep(l);
      assert !ControlTyped(l2) by {
        var k :| 0 <= k < |l.ctrl| && !l.ctrl[k].ctrFrame.UFrameOf?;
        assert k > 0 && l2.ctrl[k - 1] == l.ctrl[k];
      }
      RespPanicCancels(l2);
      var c' := UFrameResp(l2).1.ctrl;
      assert l2.ctrl[|l2.ctrl| - |c'|..] == l.ctrl[|l.ctrl| - |c'|..];
    }
  }


  lemma RespSent(l: Link)
    requires ControlTyped(l)
    ensures UFrameResp(l).1.sent == l.sent + (if l.writable then EchoAnswers(l.ctrl) else [])
  {
    if l.writable {
      RespEchoes(l);
    } else {
      RespSilent(l);
    }
  }

  lemma {:induction false} RespSilent(l: Link)
    requires ControlTyped(l) && !l.writable
    ensures UFrameResp(l).1.sent == l.sent
    decreases |l.ctrl|
  {
    if l.ctrl != [] {
      RespStepTyped(l);
      RespSilent(RespStep(l));
    }
  }

  lemma {:induction false} RespEchoes(l: Link)
    requires ControlTyped(l) && l.writable
    ensures UFrameResp(l).1.sent == l.sent + EchoAnswers(l.ctrl)
    decreases |l.ctrl|
  {
    if l.ctrl != [] {
      RespStepTyped(l);
      var l2 := RespStep(l);
      assert UFrameResp(l) == UFrameResp(l2);
      RespEchoes(l2);
      var head, rest := EchoOf(l.ctrl[0]), EchoAnswers(l2.ctrl);
      assert l2.sent == l.sent + head;
      assert EchoAnswers(l.ctrl) == head + rest;
      assert (l.sent + head) + rest == l.sent + (head + rest);
    }
  }

  // ---------------------------------------------------------------------
  // handleData and the receive goroutine

  /** The number of information objects of an M_ME_NC_1 body. */
  function Nc1Count(b: Nc1Body): nat
  {
    match b
    case Sq1(_, cores) => |cores|
    case Sq0(es) => |es|
  }

  /** handleData as written (client.go:453-478): the map it fills is
      declared but never made, so the first insertion panics; only an empty
      body gets through, as a nil map. */
  function HandleDataAsWritten(a: Apdu): (r: Outcome<map<int, uint32>>)
    ensures r.Panic? <==> (a.asdu.dui.typeId == M_ME_NC_1 && a.asdu.body.Nc1? && Nc1Count(a.asdu.body.nc1) > 0)
    ensures r.Panic? ==> r.kind == NilMapWrite
    ensures r.Ok? ==> r.value == map[]
  {
    if a.asdu.dui.typeId != M_ME_NC_1 then Err(UnsupportedAsduType(a.asdu.dui.typeId))
    else
      match a.asdu.body
      case Nc1(Sq1(_, cores)) => if |cores| == 0 then Ok(map[]) else Panic(NilMapWrite)
      case Nc1(Sq0(es)) => if |es| == 0 then Ok(map[]) else Panic(NilMapWrite)
      case _ => Err(UnknownElementType)
  }

  /** The values of an SQ=1 run keyed by consecutive addresses, inserted in
      order as the loop of client.go:459-464 does with `address++`. */
  function Sq1Values(address: int, cores: seq<Core13>): map<int, uint32>
  {
    if cores == [] then map[]
    else Sq1Values(address, cores[..|cores| - 1])[address + |cores| - 1 := cores[|cores| - 1].value]
  }

  /** The values of an SQ=0 list keyed by each object's own address, inserted
      in order (client.go:467-470); a later object overwrites an earlier one
      with the same address. */
  function Sq0Values(es: seq<Sq0Element>): map<int, uint32>
  {
    if es == [] then map[]
    else Sq0Values(es[..|es| - 1])[es[|es| - 1].address as int := es[|es| - 1].core.value]
  }

  /** The SQ=1 keys are exactly base, base+1, ..., one per value. */
  lemma {:induction false} Sq1ValuesKeys(address: int, cores: seq<Core13>)
    ensures forall k :: k in Sq1Values(address, cores) <==> address <= k < address + |cores|
    ensures forall k :: address <= k < address + |cores| ==> Sq1Values(address, cores)[k] == cores[k - address].value
    decreases |cores|
  {
    if cores != [] {
      var n := |cores| - 1;
      Sq1ValuesKeys(address, cores[..n]);
      assert forall k :: 0 <= k < n ==> cores[..n][k] == cores[k];
    }
  }

  /** The object at `j` is the last one with its address. */
  predicate LastWithAddress(es: seq<Sq0Element>, j: nat)
    requires j < |es|
  {
    forall i :: j < i < |es| ==> es[i].address != es[j].address
  }

  /** The SQ=0 keys are exactly the objects' addresses, each mapped to the
      value of the last object with that address. */
  lemma Sq0ValuesKeys(es: seq<Sq0Element>)
    ensures forall j :: 0 <= j < |es| ==> es[j].address as int in Sq0Values(es)
    ensures forall k :: k in Sq0Values(es) ==> exists j :: 0 <= j < |es| && es[j].address as int == k
    ensures forall j :: 0 <= j < |es| && LastWithAddress(es, j) ==> Sq0Values(es)[es[j].address as int] == es[j].core.value
  {
    Sq0ValuesCover(es);
    Sq0ValuesOnly(es);
    Sq0ValuesLast(es);
  }

  lemma {:induction false} Sq0ValuesCover(es: seq<Sq0Element>)
    ensures forall j :: 0 <= j < |es| ==> es[j].address as int in Sq0Values(es)
    decreases |es|
  {
    if es != [] {
      var n := |es| - 1;
      Sq0ValuesCover(es[..n]);
      assert forall j :: 0 <= j < n ==> es[..n][j] == es[j];
    }
  }

  lemma {:induction false} Sq0ValuesOnly(es: seq<Sq0Element>)
    ensures forall k :: k in Sq0Values(es) ==> exists j :: 0 <= j < |es| && es[j].address as int == k
    decreases |es|
  {
    if es != [] {
      var n := |es| - 1;
      var prefix := es[..n];
      Sq0ValuesOnly(prefix);
      forall k | k in Sq0Values(es) ensures exists j :: 0 <= j < |es| && es[j].address as int == k {
        if k == es[n].address as int {
          assert es[n].address as int == k;
        } else {
          assert k in Sq0Values(prefix);
          var j :| 0 <= j < n && prefix[j].address as int == k;
          assert es[j] == prefix[j];
        }
      }
    }
  }

  lemma {:induction false} Sq0ValuesLast(es: seq<Sq0Element>)
    ensures forall j :: 0 <= j < |es| && LastWithAddress(es, j) ==>
      es[j].address as int in Sq0Values(es) && Sq0Values(es)[es[j].address as int] == es[j].core.value
    decreases |es|
  {
    if es != [] {
      var n := |es| - 1;
      var prefix := es[..n];
      Sq0ValuesCover(es);
      Sq0ValuesLast(prefix);
      forall j | 0 <= j < |es| && LastWithAddress(es, j)
        ensures Sq0Values(es)[es[j].address as int] == es[j].core.value
      {
        if j < n {
          assert prefix[j] == es[j];
          assert es[n].address != es[j].address;
          assert LastWithAddress(prefix, j) by {
            forall i | j < i < n ensures prefix[i].address != prefix[j].address {
              assert prefix[i] == es[i];
            }
          }
        }
      }
    }
  }

  /** handleData as evidently intended, with the map made before it is
      filled: the values of an M_ME_NC_1 body by address, and an error for
      any other type or body. */
  function Values(a: Apdu): (r: Outcome<map<int, uint32>>)
    ensures !r.Panic?
    ensures r.Err? <==> a.asdu.dui.typeId != M_ME_NC_1 || !a.asdu.body.Nc1?
    ensures a.asdu.dui.typeId != M_ME_NC_1 ==> r == Err(UnsupportedAsduType(a.asdu.dui.typeId))
  {
    if a.asdu.dui.typeId != M_ME_NC_1 then Err(UnsupportedAsduType(a.asdu.dui.typeId))
    else
      match a.asdu.body
      case Nc1(Sq1(address, cores)) => Ok(Sq1Values(address as int, cores))
      case Nc1(Sq0(es)) => Ok(Sq0Values(es))
      case _ => Err(UnknownElementType)
  }

  /** The correction changes only the outcomes that panic as written. */
  lemma AsWrittenAgreesWhenNoPanic(a: Apdu)
    requires !HandleDataAsWritten(a).Panic?
    ensures HandleDataAsWritten(a) == Values(a)
  {
  }

  /** The maps receive passes on and the acknowledgements it writes for a
      queue of APDUs, by the corrected handleData. */
  function Outputs(queue: seq<Apdu>): seq<map<int, uint32>>
  {
    if queue == [] then [] else OutputOf(queue[0]) + Outputs(queue[1..])
  }

  function Acks(queue: seq<Apdu>): seq<Outbound>
  {
    if queue == [] then [] else AckOf(queue[0]) + Acks(queue[1..])
  }

  /** An APDU receive accepts: an I frame whose values can be extracted. */
  predicate Accepted(a: Apdu)
  {
    a.ctrFrame.IFrame? && Values(a).Ok?
  }

  function OutputOf(a: Apdu): seq<map<int, uint32>>
  {
    if Accepted(a) then [Values(a).value] else []
  }

  function AckOf(a: Apdu): seq<Outbound>
  {
    if Accepted(a) then [AckFrame(a.ctrFrame.send)] else []
  }

  /** receive (client.go:115-155) over the data channel: for an I frame whose
      values can be extracted, the values go to the output channel and an S
      frame acknowledges it; everything else is skipped. */
  function Receive(l: Link): Link
    decreases |l.data|
  {
    if l.data == [] then l else Receive(ReceiveStep(l))
  }

  /** How receive handles the first APDU of the data channel. */
  function ReceiveStep(l: Link): (l': Link)
    requires l.data != []
    ensures l'.data == l.data[1..] && l'.inbound == l.inbound && l'.ctrl == l.ctrl
    ensures l'.writable == l.writable
    ensures l'.out == l.out + OutputOf(l.data[0])
    ensures l'.sent == l.sent + (if l.writable then AckOf(l.data[0]) else [])
  {
    var a := l.data[0];
    var l1 := l.(data := l.data[1..]);
    if Accepted(a) then Write(l1.(out := l1.out + [Values(a).value]), AckFrame(a.ctrFrame.send)).1
    else l1
  }

  /** receive empties the data channel, passes on one map per accepted I
      frame and, when writes succeed, acknowledges each of them, in order. */
  lemma ReceiveOutputs(l: Link)
    ensures var l' := Receive(l);
      && l'.data == [] && l'.inbound == l.inbound && l'.ctrl == l.ctrl
      && l'.out == l.out + Outputs(l.data)
      && l'.sent == l.sent + (if l.writable then Acks(l.data) else [])
  {
    ReceiveKeeps(l);
    ReceiveOut(l);
    ReceiveSent(l);
  }

  lemma {:induction false} ReceiveKeeps(l: Link)
    ensures var l' := Receive(l);
      l'.data == [] && l'.inbound == l.inbound && l'.ctrl == l.ctrl && l'.writable == l.writable
    decreases |l.data|
  {
    if l.data != [] {
      ReceiveKeeps(ReceiveStep(l));
    }
  }

  lemma {:induction false} ReceiveOut(l: Link)
    ensures Receive(l).out == l.out + Outputs(l.data)
    decreases |l.data|
  {
    if l.data != [] {
      ReceiveOut(ReceiveStep(l));
    }
  }

  lemma {:induction false} ReceiveSent(l: Link)
    ensures Receive(l).sent == l.sent + (if l.writable then Acks(l.data) else [])
    decreases |l.data|
  {
    if l.data != [] {
      var l2 := ReceiveStep(l);
      ReceiveSent(l2);
      assert Receive(l) == Receive(l2);
      if l.writable {
        var acks := Acks(l.data);
        assert acks == AckOf(l.data[0]) + Acks(l.data[1..]);
        assert l2.sent + Acks(l2.data) == l.sent + acks;
      }
    }
  }

  /** Every SQ=0 M_ME_NC_1 report with at least one value, in an I frame as
      it arrives, makes handleData as written panic, while the corrected
      handleData returns its values. */
  lemma NilMapOnEveryReport(apci: seq<byte>, d: Dui, es: seq<Sq0Element>)
    requires |apci| == APCI_LEN && apci[0] == START_BYTE && apci[2] % 4 == 0
    requires d.typeId == M_ME_NC_1 && !d.causeExtEnable && !d.publicAddressHighEnable
    requires SqBit(d.vsq) == 0 && VsqCount(d.vsq) == |es| && |es| > 0
    ensures var r := ParseApdu(apci + AsduBytes(Asdu(d, Nc1(Sq0(es)))).value);
      && r.Ok? && r.value.ctrFrame.IFrame?
      && HandleDataAsWritten(r.value) == Panic(NilMapWrite)
      && Values(r.value).Ok?
  {
    var asdu := AsduBytes(Asdu(d, Nc1(Sq0(es)))).value;
    Nc1Sq0AsduRoundTrip(d, es);
    var input := apci + asdu;
    assert input[APCI_LEN..] == asdu;
    assert ApciOf(input) == ApciOf(apci);
  }

  /** The outcomes of the reads after the first. */
  lemma ParsedTail(frames: seq<seq<byte>>)
    requires frames != []
    ensures Parsed(frames)[0] == ParseApdu(frames[0])
    ensures Parsed(frames)[1..] == Parsed(frames[1..])
  {
    var p, q := Parsed(frames), Parsed(frames[1..]);
    forall k | 0 <= k < |q| ensures p[1..][k] == q[k] {
      assert frames[1..][k] == frames[k + 1];
    }
  }
}
