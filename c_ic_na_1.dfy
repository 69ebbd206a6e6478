/** Interrogation command (type C_IC_NA_1) with its qualifier of
    interrogation QOI (clause 7.2.6.22 of IEC 60870-5-101), as c_ic_na_1.go
    encodes and parses its one information object. The ASDU that carries it
    is built in module Asdu. */
module CIcNa1 {
  import opened Wire

  /** Station (global) interrogation (c_ic_na_1.go:23). */
  const QOI_GLOBAL_CALL: byte := 20
  /** Interrogation of group 1 (c_ic_na_1.go:24). */
  const QOI_GROUP_1: byte := 21

  /** MessageElement_100 (c_ic_na_1.go:27-30): an object address and a QOI. */
  datatype IcElement = IcElement(address: byte, qoi: byte)

  /** MessageElement_100.ConvertBytes (c_ic_na_1.go:32-37). */
  function IcElementBytes(e: IcElement): (r: seq<byte>)
    ensures |r| == 2
  {
    [e.address, e.qoi]
  }

  /** parseC_IC_NA_1 (c_ic_na_1.go:39-44): octets 4 and 5 of the ASDU. The
      code does not check the length, so an ASDU of fewer than six octets
      indexes past its end. */
  function ParseIc(asdu: seq<byte>): (r: Outcome<IcElement>)
    ensures !r.Err?
    ensures r.Panic? <==> |asdu| < 6
    ensures r.Panic? ==> r.kind == IndexOutOfRange
    ensures r.Ok? ==> IcElementBytes(r.value) == asdu[4..6]
  {
    if |asdu| < 6 then Panic(IndexOutOfRange) else Ok(IcElement(asdu[4], asdu[5]))
  }

  /** The object read back from behind any four header octets is the object
      encoded there. */
  lemma IcRoundTrip(header: seq<byte>, e: IcElement, rest: seq<byte>)
    requires |header| == 4
    ensures ParseIc(header + IcElementBytes(e) + rest) == Ok(e)
  {
    var asdu := header + IcElementBytes(e) + rest;
    assert asdu[4] == e.address && asdu[5] == e.qoi;
  }
}
