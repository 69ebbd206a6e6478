/** The application service data unit (ASDU): its data unit identifier (DUI)
    and its information objects, as asdu.go encodes them, with the constructor
    of the interrogation ASDU of c_ic_na_1.go. */
module Asdu {
  import opened Wire
  import opened MeNc1
  import opened MeNa1
  import opened CIcNa1

  /** The type identifications the code names (the file declaring them is not
      part of this model; the values are those of IEC 60870-5-101). */
  const M_ME_NA_1: byte := 9
  const M_ME_NC_1: byte := 13
  const C_IC_NA_1: byte := 100

  /** Causes of transmission: activation and its confirmation (cot.go:8-9). */
  const COT_ACT: byte := 6
  const COT_ACTCON: byte := 7

  /** The data unit identifier (asdu.go:25-34). The originator address and the
      high octet of the common address are sent only when enabled. */
  datatype Dui = Dui(
    typeId: byte, vsq: byte, cause: byte,
    causeExt: byte, causeExtEnable: bool,
    publicAddressLow: byte,
    publicAddressHigh: byte, publicAddressHighEnable: bool)

  /** Go's zero value of DUI. */
  const ZERO_DUI: Dui := Dui(0, 0, 0, 0, false, 0, 0, false)

  /** The information objects of an ASDU (the `MessageBody` interface of
      asdu.go:5), one case per implementation in the code, or nil. */
  datatype Body =
    | NoBody
    | Nc1(nc1: Nc1Body)
    | Na1(na1: Na1Body)
    | Ic(ic: IcElement)

  datatype Asdu = Asdu(dui: Dui, body: Body)

  /** Go's zero value of ASDU: a zero DUI and a nil body. */
  const EMPTY_ASDU: Asdu := Asdu(ZERO_DUI, NoBody)

  /** The DUI octets of ASDU.ConvertBytes (asdu.go:9-19): type, qualifier,
      cause, the originator address when enabled, the low common-address
      octet, and the high one when enabled. */
  function DuiBytes(d: Dui): (r: seq<byte>)
    ensures |r| == 4 + (if d.causeExtEnable then 1 else 0) + (if d.publicAddressHighEnable then 1 else 0)
    ensures r[0] == d.typeId && r[1] == d.vsq && r[2] == d.cause
    ensures d.causeExtEnable ==> r[3] == d.causeExt
    ensures r[if d.causeExtEnable then 4 else 3] == d.publicAddressLow
    ensures d.publicAddressHighEnable ==> r[|r| - 1] == d.publicAddressHigh
  {
    [d.typeId, d.vsq, d.cause]
    + (if d.causeExtEnable then [d.causeExt] else [])
    + [d.publicAddressLow]
    + (if d.publicAddressHighEnable then [d.publicAddressHigh] else [])
  }

  /** A field that is not enabled never reaches the wire. */
  lemma DuiBytesIgnoresDisabled(d: Dui, ext: byte, high: byte)
    ensures !d.causeExtEnable ==> DuiBytes(d.(causeExt := ext)) == DuiBytes(d)
    ensures !d.publicAddressHighEnable ==> DuiBytes(d.(publicAddressHigh := high)) == DuiBytes(d)
  {
  }

  /** `MessageBody.ConvertBytes()` (asdu.go:21): a nil body is a nil
      interface, and calling a method on it panics. */
  function BodyBytes(b: Body): (r: Outcome<seq<byte>>)
    ensures !r.Err?
    ensures r.Panic? <==> b.NoBody?
    ensures r.Panic? ==> r.kind == NilDereference
    ensures b.Ic? ==> r == Ok(IcElementBytes(b.ic))
  {
    match b
    case NoBody => Panic(NilDereference)
    case Nc1(nc1) => Ok(Nc1BodyBytes(nc1))
    case Na1(na1) => Ok(Na1BodyBytes(na1))
    case Ic(ic) => Ok(IcElementBytes(ic))
  }

  /** ASDU.ConvertBytes (asdu.go:8-22): the DUI octets followed by the body's. */
  function AsduBytes(a: Asdu): (r: Outcome<seq<byte>>)
    ensures !r.Err?
    ensures r.Panic? <==> a.body.NoBody?
    ensures r.Ok? ==> var h := DuiBytes(a.dui);
      && |h| <= |r.value|
      && r.value[..|h|] == h
      && r.value[|h|..] == BodyBytes(a.body).value
  {
    match BodyBytes(a.body)
    case Ok(body) => Ok(DuiBytes(a.dui) + body)
    case Panic(kind) => Panic(kind)
    case Err(fault) => Err(fault)
  }

  /** NewASDUC_IC_NA_1 (c_ic_na_1.go:46-60): an interrogation command with a
      qualifier of 0x01, the given cause and common address, and object
      address 0. */
  function NewAsduCIcNa1(cause: byte, publicAddress: byte, qoi: byte): Asdu
  {
    Asdu(
      Dui(C_IC_NA_1, 0x01, cause, 0, false, publicAddress, 0, false),
      Ic(IcElement(0, qoi)))
  }

  /** The interrogation ASDU is the six octets type, qualifier, cause, common
      address, object address and QOI. */
  lemma NewAsduCIcNa1Bytes(cause: byte, publicAddress: byte, qoi: byte)
    ensures AsduBytes(NewAsduCIcNa1(cause, publicAddress, qoi)) == Ok([C_IC_NA_1, 0x01, cause, publicAddress, 0, qoi])
  {
    var a := NewAsduCIcNa1(cause, publicAddress, qoi);
    assert DuiBytes(a.dui) == [C_IC_NA_1, 0x01, cause, publicAddress];
    assert BodyBytes(a.body) == Ok([0, qoi]);
    assert [C_IC_NA_1, 0x01, cause, publicAddress] + [0, qoi] == [C_IC_NA_1, 0x01, cause, publicAddress, 0, qoi];
  }
}
