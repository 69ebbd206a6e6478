/** The application protocol data unit (APDU): a six-octet control header
    followed by an optional ASDU, as apdu.go parses, builds and encodes it.
    The APCI encoder (`NewAPCI`, `APCI.ConvertBytes`) is not part of this
    model; where the encoding needs it, it is a parameter. */
module Apdu {
  import opened Wire
  import opened Apci
  import opened Asdu
  import opened Parse

  /** Length of the control header (apdu.go:10). */
  const APCI_LEN: nat := 6
  /** The start octet of every frame. */
  const START_BYTE: byte := 0x68

  /** APDU (apdu.go:13-20). */
  datatype Apdu = Apdu(apci: Apci, asdu: Asdu, len: int, asduLen: int, ctrType: byte, ctrFrame: CtrFrame)

  /** The APCI record filled from the first six octets (apdu.go:52-58). */
  function ApciOf(input: seq<byte>): Apci
    requires |input| >= APCI_LEN
  {
    Apci(input[0], input[1], input[2], input[3], input[4], input[5])
  }

  /** ParseAPDU (apdu.go:43-87). */
  function ParseApdu(input: seq<byte>): (r: Outcome<Apdu>)
    ensures |input| < APCI_LEN ==> r == Err(ApduTooShort)
    ensures |input| >= APCI_LEN && input[0] != START_BYTE ==> r == Err(MissingStartByte)
    ensures |input| >= APCI_LEN && input[0] == START_BYTE && ParseCtr(ApciOf(input)).1.Err? ==>
      r == Err(ParseCtr(ApciOf(input)).1.fault)
    ensures (|input| > APCI_LEN && input[0] == START_BYTE && ParseCtr(ApciOf(input)).1.Ok?
             && !ParseAsdu(input[APCI_LEN..]).Ok?) ==> r == Propagate(ParseAsdu(input[APCI_LEN..]))
    ensures r.Ok? <==> (|input| >= APCI_LEN && input[0] == START_BYTE && ParseCtr(ApciOf(input)).1.Ok?
                        && (|input| == APCI_LEN || ParseAsdu(input[APCI_LEN..]).Ok?))
    ensures r.Ok? ==>
      && r.value.apci == ApciOf(input)
      && r.value.len == input[1]
      && ParseCtr(r.value.apci) == (r.value.ctrType, Ok(r.value.ctrFrame))
      && r.value.asduLen == |input| - APCI_LEN
      && (|input| == APCI_LEN ==> r.value.asdu == EMPTY_ASDU)
      && (|input| > APCI_LEN ==> Ok(r.value.asdu) == ParseAsdu(input[APCI_LEN..]))
  {
    if |input| < APCI_LEN then Err(ApduTooShort)
    else if input[0] != START_BYTE then Err(MissingStartByte)
    else
      var apci := ApciOf(input);
      var (fType, ctrFrame) := ParseCtr(apci);
      if !ctrFrame.Ok? then Propagate(ctrFrame)
      else if |input[APCI_LEN..]| < 1 then
        Ok(Apdu(apci, EMPTY_ASDU, apci.apduLen, 0, fType, ctrFrame.value))
      else
        match ParseAsdu(input[APCI_LEN..])
        case Ok(asdu) => Ok(Apdu(apci, asdu, apci.apduLen, |input| - APCI_LEN, fType, ctrFrame.value))
        case Err(f) => Err(f)
        case Panic(k) => Panic(k)
  }

  /** The length octet is copied and never checked: changing it changes only
      the recorded length. */
  lemma LengthOctetUnchecked(input: seq<byte>, x: byte)
    requires |input| >= APCI_LEN
    ensures var r, r' := ParseApdu(input), ParseApdu(input[1 := x]);
      && (r'.Ok? <==> r.Ok?)
      && (r.Ok? ==> r'.value == r.value.(apci := r.value.apci.(apduLen := x), len := x))
      && (!r.Ok? ==> r' == r)
  {
    var input' := input[1 := x];
    assert input'[APCI_LEN..] == input[APCI_LEN..];
    var apci := ApciOf(input);
    assert ApciOf(input') == apci.(apduLen := x);
    assert ParseCtr(ApciOf(input')) == ParseCtr(apci);
  }

  /** NewAPDU (apdu.go:22-41). The body is encoded first, to learn its
      length; the control field is parsed next; and the `*asdu` of line 35
      dereferences a nil `asdu`. */
  function NewApdu(apci: Apci, asdu: Option<Asdu>): (r: Outcome<Apdu>)
    ensures asdu.Some? && asdu.value.body.NoBody? ==> r == Panic(NilDereference)
    ensures (asdu.None? || !asdu.value.body.NoBody?) && ParseCtr(apci).1.Err? ==> r == Err(ParseCtr(apci).1.fault)
    ensures asdu.None? && ParseCtr(apci).1.Ok? ==> r == Panic(NilDereference)
    ensures r.Ok? <==> asdu.Some? && AsduBytes(asdu.value).Ok? && ParseCtr(apci).1.Ok?
    ensures r.Ok? ==>
      && r.value.apci == apci
      && r.value.asdu == asdu.value
      && r.value.asduLen == |AsduBytes(asdu.value).value|
      && r.value.len == APCI_LEN + r.value.asduLen
      && ParseCtr(apci) == (r.value.ctrType, Ok(r.value.ctrFrame))
  {
    var encoded := if asdu.None? then Ok([]) else AsduBytes(asdu.value);
    if !encoded.Ok? then Propagate(encoded)
    else
      var asduLen := |encoded.value|;
      var (t, f) := ParseCtr(apci);
      if !f.Ok? then Propagate(f)
      else if asdu.None? then Panic(NilDereference)
      else Ok(Apdu(apci, asdu.value, APCI_LEN + asduLen, asduLen, t, f.value))
  }

  /** APDU.ConvertBytes (apdu.go:89-99) with `apciBytes` for the APCI
      encoder: the ASDU's octets follow the header only when ASDULen is at
      least 1. */
  function ApduBytes(apdu: Apdu, apciBytes: Apci -> seq<byte>): (r: Outcome<seq<byte>>)
    ensures !r.Err?
    ensures apdu.asduLen < 1 ==> r == Ok(apciBytes(apdu.apci))
    ensures apdu.asduLen >= 1 ==> (r.Panic? <==> apdu.asdu.body.NoBody?)
    ensures apdu.asduLen >= 1 && r.Ok? ==> r.value == apciBytes(apdu.apci) + AsduBytes(apdu.asdu).value
  {
    if apdu.asduLen < 1 then Ok(apciBytes(apdu.apci))
    else
      var asdu := AsduBytes(apdu.asdu);
      if !asdu.Ok? then Propagate(asdu) else Ok(apciBytes(apdu.apci) + asdu.value)
  }

  /** A frame built by NewAPDU encodes to exactly `Len` octets when the APCI
      encoder writes six: its header and then its ASDU. */
  lemma NewApduEncodesLen(apci: Apci, asdu: Asdu, apciBytes: Apci -> seq<byte>)
    requires NewApdu(apci, Some(asdu)).Ok? && |apciBytes(apci)| == APCI_LEN
    ensures var apdu := NewApdu(apci, Some(asdu)).value;
      && ApduBytes(apdu, apciBytes) == Ok(apciBytes(apci) + AsduBytes(asdu).value)
      && |ApduBytes(apdu, apciBytes).value| == apdu.len
  {
    var encoded := AsduBytes(asdu).value;
    assert |DuiBytes(asdu.dui)| <= |encoded|;
  }

  /** A parsed frame can always be encoded again: it never holds a nil body
      behind a positive ASDULen. */
  lemma ParsedApduEncodes(input: seq<byte>, apciBytes: Apci -> seq<byte>)
    requires ParseApdu(input).Ok?
    ensures ApduBytes(ParseApdu(input).value, apciBytes).Ok?
  {
  }

  /** Through ParseAPDU an interrogation frame never carries a cause, in
      particular never the activation confirmation. */
  lemma ParsedIcNeverConfirms(input: seq<byte>)
    requires ParseApdu(input).Ok? && ParseApdu(input).value.asdu.dui.typeId == C_IC_NA_1
    ensures ParseApdu(input).value.asdu.dui.cause == 0 != COT_ACTCON
  {
    assert |input| > APCI_LEN;
    ParsedIcCauseIsZero(input[APCI_LEN..]);
  }
}
