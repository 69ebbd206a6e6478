/** The control field (APCI) of an IEC 60870-5-104 frame: the start octet, the
    length octet and the four control octets, and their classification into the
    numbered-information (I), supervisory (S) and unnumbered-control (U)
    formats of clause 5 of IEC 60870-5-104 (apci.go). */
module Apci {
  import opened Wire

  /** The six header octets as the parser stores them (apci.go:7-14). */
  datatype Apci = Apci(start: byte, apduLen: int, ctr1: byte, ctr2: byte, ctr3: byte, ctr4: byte)

  /** The six U-format flags; each holds `Ctr1` masked by its own bit (apci.go:25-34). */
  datatype UFrame = UFrame(
    testfrCon: byte, testfrAct: byte,
    stopdtCon: byte, stopdtAct: byte,
    startdtCon: byte, startdtAct: byte)

  /** The decoded control field: `IFrame`, `SFrame` or `UFrame` of apci.go. */
  datatype CtrFrame =
    | IFrame(send: int16, recv: int16)
    | SFrame(recv: int16)
    | UFrameOf(u: UFrame)

  const I_TAG: byte := 0
  const S_TAG: byte := 1
  const U_TAG: byte := 3
  const ERROR_TAG: byte := 0xFF

  /** A 15-bit sequence number packed as `int16(lo)>>1 + int16(hi)<<7`, with every
      Go `int16` operation wrapping; the contract says that nothing wraps. */
  function SeqNumber(lo: byte, hi: byte): (n: int16)
    ensures n == lo / 2 + hi * 128
    ensures 0 <= n <= 32767
  {
    Wrap16(lo / 2 + Wrap16(hi * 128))
  }

  /** parseIFrame (apci.go:53-61). */
  function ParseIFrame(apci: Apci): (f: CtrFrame)
    ensures f.IFrame?
    ensures f.send == apci.ctr1 / 2 + apci.ctr2 * 128
    ensures f.recv == apci.ctr3 / 2 + apci.ctr4 * 128
  {
    IFrame(SeqNumber(apci.ctr1, apci.ctr2), SeqNumber(apci.ctr3, apci.ctr4))
  }

  /** parseSFrame (apci.go:63-69): only Ctr3 and Ctr4 count. */
  function ParseSFrame(apci: Apci): (f: CtrFrame)
    ensures f.SFrame?
    ensures f.recv == apci.ctr3 / 2 + apci.ctr4 * 128
  {
    SFrame(SeqNumber(apci.ctr3, apci.ctr4))
  }

  /** parseUFrame (apci.go:71-89): each flag is Ctr1 masked by its own bit;
      only Ctr1 counts. */
  function ParseUFrame(apci: Apci): (f: CtrFrame)
    ensures f.UFrameOf?
    ensures f.u.testfrCon in {0, 0x80} && (f.u.testfrCon != 0 <==> BitSet(apci.ctr1, 0x80))
    ensures f.u.testfrAct in {0, 0x40} && (f.u.testfrAct != 0 <==> BitSet(apci.ctr1, 0x40))
    ensures f.u.stopdtCon in {0, 0x20} && (f.u.stopdtCon != 0 <==> BitSet(apci.ctr1, 0x20))
    ensures f.u.stopdtAct in {0, 0x10} && (f.u.stopdtAct != 0 <==> BitSet(apci.ctr1, 0x10))
    ensures f.u.startdtCon in {0, 0x08} && (f.u.startdtCon != 0 <==> BitSet(apci.ctr1, 0x08))
    ensures f.u.startdtAct in {0, 0x04} && (f.u.startdtAct != 0 <==> BitSet(apci.ctr1, 0x04))
  {
    var c := apci.ctr1;
    UFrameOf(UFrame(
      testfrCon := BitAnd(c, 0x80), testfrAct := BitAnd(c, 0x40),
      stopdtCon := BitAnd(c, 0x20), stopdtAct := BitAnd(c, 0x10),
      startdtCon := BitAnd(c, 0x08), startdtAct := BitAnd(c, 0x04)))
  }

  /** ParseCtr (apci.go:36-51): dispatch on the two low bits of Ctr1
      (`Ctr1 & 0x03`); the tag is the first Go result, the frame or error the
      other two. */
  function ParseCtr(apci: Apci): (r: (byte, Outcome<CtrFrame>))
    ensures !r.1.Panic?
    ensures r.0 in {I_TAG, S_TAG, U_TAG, ERROR_TAG}
    ensures r.0 == I_TAG <==> apci.ctr1 % 4 == 0
    ensures r.0 == S_TAG <==> apci.ctr1 % 4 == 1
    ensures r.0 == U_TAG <==> apci.ctr1 % 4 == 3
    ensures r.0 == ERROR_TAG <==> r.1 == Err(UnknownFrameType(2))
    ensures r.0 == I_TAG ==> r.1 == Ok(ParseIFrame(apci))
    ensures r.0 == S_TAG ==> r.1 == Ok(ParseSFrame(apci))
    ensures r.0 == U_TAG ==> r.1 == Ok(ParseUFrame(apci))
  {
    var frameType := apci.ctr1 % 4;
    if frameType == 0 then (I_TAG, Ok(ParseIFrame(apci)))
    else if frameType == 1 then (S_TAG, Ok(ParseSFrame(apci)))
    else if frameType == 3 then (U_TAG, Ok(ParseUFrame(apci)))
    else (ERROR_TAG, Err(UnknownFrameType(frameType)))
  }

  /** The octets that carry sequence number `n` as IEC 60870-5-104 packs it:
      the low seven bits shifted up by one, then the high eight bits. */
  function SeqLow(n: int): byte
    requires 0 <= n <= 32767
  {
    (n % 128) * 2
  }

  function SeqHigh(n: int): byte
    requires 0 <= n <= 32767
  {
    n / 128
  }

  /** Every 15-bit sequence number is reached by the packing formula. */
  lemma SeqNumberCoversRange(n: int)
    requires 0 <= n <= 32767
    ensures SeqNumber(SeqLow(n), SeqHigh(n)) == n
  {
    assert (n % 128) * 2 / 2 + (n / 128) * 128 == n;
  }

  /** Only frames whose Ctr1 has both low bits clear are I frames, so every
      decoded send number is even. */
  lemma IFrameSendIsEven(apci: Apci)
    requires ParseCtr(apci).1.Ok? && ParseCtr(apci).1.value.IFrame?
    ensures ParseCtr(apci).1.value.send % 2 == 0
  {
    var q := apci.ctr1 / 4;
    assert apci.ctr1 == 4 * q;
    assert ParseCtr(apci).1.value.send == 2 * (q + apci.ctr2 * 64);
  }

  /** An I-format control field carrying send number `n` is accepted exactly
      when `n` is even: an odd N(S) sets bit 1 of Ctr1, and the dispatch takes
      the value 2 of the two low bits for an error. */
  lemma IFrameAcceptedIffSendEven(n: int, ctr3: byte, ctr4: byte, start: byte, len: int)
    requires 0 <= n <= 32767
    ensures var apci := Apci(start, len, SeqLow(n), SeqHigh(n), ctr3, ctr4);
      && (ParseCtr(apci).1.Ok? <==> n % 2 == 0)
      && (n % 2 == 0 ==> ParseCtr(apci).1.value == IFrame(n, SeqNumber(ctr3, ctr4)))
      && (n % 2 == 1 ==> ParseCtr(apci) == (ERROR_TAG, Err(UnknownFrameType(2))))
  {
    var lo := SeqLow(n);
    assert lo % 4 == 2 * (n % 2) by {
      var q, r := n / 128, n % 128;
      assert n == 128 * q + r;
      assert n % 2 == r % 2;
    }
    SeqNumberCoversRange(n);
  }

  /** The receive number of an S frame comes from Ctr3 and Ctr4 alone: the
      upper bits of Ctr1 and all of Ctr2 leave the result unchanged. */
  lemma SFrameIgnoresCtr1AndCtr2(apci: Apci, ctr1: byte, ctr2: byte)
    requires apci.ctr1 % 4 == 1 && ctr1 % 4 == 1
    ensures ParseCtr(apci.(ctr1 := ctr1, ctr2 := ctr2)) == ParseCtr(apci)
  {
  }

  /** The flags of a U frame come from Ctr1 alone. */
  lemma UFrameIgnoresCtr2To4(apci: Apci, ctr2: byte, ctr3: byte, ctr4: byte)
    requires apci.ctr1 % 4 == 3
    ensures ParseCtr(apci.(ctr2 := ctr2, ctr3 := ctr3, ctr4 := ctr4)) == ParseCtr(apci)
  {
  }
}
