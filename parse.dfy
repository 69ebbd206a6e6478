/** ParseASDU and the decoding of the data unit identifier (parse.go). Only
    the types M_ME_NC_1 and C_IC_NA_1 are recognised, and only for
    M_ME_NC_1 are the qualifier, the cause and the common address read. */
module Parse {
  import opened Wire
  import opened MeNc1
  import opened CIcNa1
  import opened Asdu

  /** parseDUITypeIdentification (parse.go:55-64). */
  function ParseTypeId(t: byte): (r: Outcome<byte>)
    ensures !r.Panic?
    ensures r.Ok? <==> t == M_ME_NC_1 || t == C_IC_NA_1
    ensures r.Ok? ==> r.value == t
    ensures r.Err? ==> r.fault == UnknownTypeId(t)
  {
    if t == M_ME_NC_1 then Ok(t)
    else if t == C_IC_NA_1 then Ok(t)
    else Err(UnknownTypeId(t))
  }

  /** parseDUI (parse.go:37-53). It indexes the input without checking its
      length; it never sets either enable flag. */
  function ParseDui(asdu: seq<byte>): (r: Outcome<Dui>)
    ensures r.Panic? <==> |asdu| == 0 || (asdu[0] == M_ME_NC_1 && |asdu| < 4)
    ensures r.Panic? ==> r.kind == IndexOutOfRange
    ensures r.Err? <==> |asdu| > 0 && asdu[0] != M_ME_NC_1 && asdu[0] != C_IC_NA_1
    ensures r.Err? ==> r.fault == UnknownTypeId(asdu[0])
    ensures r.Ok? && asdu[0] == M_ME_NC_1 ==>
      r.value == ZERO_DUI.(typeId := M_ME_NC_1, vsq := asdu[1], cause := asdu[2], publicAddressLow := asdu[3])
    ensures r.Ok? && asdu[0] != M_ME_NC_1 ==> r.value == ZERO_DUI.(typeId := asdu[0])
  {
    if |asdu| == 0 then Panic(IndexOutOfRange)
    else
      match ParseTypeId(asdu[0])
      case Ok(t) =>
        if t == M_ME_NC_1 then
          if |asdu| < 4 then Panic(IndexOutOfRange)
          else Ok(ZERO_DUI.(typeId := t, vsq := asdu[1], cause := asdu[2], publicAddressLow := asdu[3]))
        else Ok(ZERO_DUI.(typeId := t))
      case Err(f) => Err(f)
      case Panic(k) => Panic(k)
  }

  /** ParseASDU (parse.go:8-35). */
  function ParseAsdu(asdu: seq<byte>): (r: Outcome<Asdu>)
    ensures |asdu| < 4 ==> r == Err(AsduTooShort)
    ensures |asdu| >= 4 && asdu[0] != M_ME_NC_1 && asdu[0] != C_IC_NA_1 ==> r == Err(UnknownTypeId(asdu[0]))
    ensures |asdu| >= 4 && asdu[0] == M_ME_NC_1 ==>
      var dui := ZERO_DUI.(typeId := M_ME_NC_1, vsq := asdu[1], cause := asdu[2], publicAddressLow := asdu[3]);
      var body := DecodeNc1(asdu, asdu[1]);
      && (r.Ok? <==> body.Ok?)
      && (r.Ok? ==> r.value == Asdu(dui, Nc1(body.value)))
      && (!r.Ok? ==> r == Propagate(body))
    ensures |asdu| >= 4 && asdu[0] == C_IC_NA_1 ==>
      && !r.Err?
      && (r.Panic? <==> |asdu| < 6)
      && (r.Ok? ==> r.value == Asdu(ZERO_DUI.(typeId := C_IC_NA_1), Ic(IcElement(asdu[4], asdu[5]))))
    ensures r.Ok? ==> r.value.body.Nc1? || r.value.body.Ic?
  {
    if |asdu| < 4 then Err(AsduTooShort)
    else
      match ParseDui(asdu)
      case Ok(dui) =>
        if dui.typeId == M_ME_NC_1 then
          match DecodeNc1(asdu, dui.vsq)
          case Ok(body) => Ok(Asdu(dui, Nc1(body)))
          case Err(f) => Err(f)
          case Panic(k) => Panic(k)
        else if dui.typeId == C_IC_NA_1 then
          match ParseIc(asdu)
          case Ok(e) => Ok(Asdu(dui, Ic(e)))
          case Err(f) => Err(f)
          case Panic(k) => Panic(k)
        else Err(UnknownTypeId(dui.typeId))
      case Err(f) => Err(f)
      case Panic(k) => Panic(k)
  }

  /** Type M_ME_NA_1 is encoded by the code but never parsed back: every
      M_ME_NA_1 ASDU is rejected as of unknown type. */
  lemma Na1NeverParsed(a: Asdu)
    requires a.dui.typeId == M_ME_NA_1 && AsduBytes(a).Ok?
    ensures ParseAsdu(AsduBytes(a).value) == Err(UnknownTypeId(M_ME_NA_1))
  {
    var bytes := AsduBytes(a).value;
    assert bytes[0] == DuiBytes(a.dui)[0];
  }

  /** The interrogation ASDU the client sends does not read back: its
      qualifier, cause and common address come back as 0, so an activation
      confirmation is never recognised by its cause. */
  lemma IcFieldsLost(cause: byte, publicAddress: byte, qoi: byte)
    ensures ParseAsdu(AsduBytes(NewAsduCIcNa1(cause, publicAddress, qoi)).value)
      == Ok(Asdu(ZERO_DUI.(typeId := C_IC_NA_1), Ic(IcElement(0, qoi))))
  {
    NewAsduCIcNa1Bytes(cause, publicAddress, qoi);
  }

  /** Whatever the octets, a parsed interrogation ASDU has cause 0. */
  lemma ParsedIcCauseIsZero(asdu: seq<byte>)
    requires ParseAsdu(asdu).Ok? && ParseAsdu(asdu).value.dui.typeId == C_IC_NA_1
    ensures ParseAsdu(asdu).value.dui.cause == 0
  {
  }

  /** ASDU round trip for an SQ=0 M_ME_NC_1 list: a DUI with neither optional
      field enabled, whose qualifier declares the list's length, reads back
      with its type, qualifier, cause and low common address, and the list up
      to the QDS flags ParseQds drops. */
  lemma Nc1Sq0AsduRoundTrip(d: Dui, es: seq<Sq0Element>)
    requires d.typeId == M_ME_NC_1 && !d.causeExtEnable && !d.publicAddressHighEnable
    requires SqBit(d.vsq) == 0 && VsqCount(d.vsq) == |es|
    ensures ParseAsdu(AsduBytes(Asdu(d, Nc1(Sq0(es)))).value)
      == Ok(Asdu(d.(causeExt := 0, publicAddressHigh := 0),
                 Nc1(Sq0(seq(|es|, k requires 0 <= k < |es| => ReadBack(es[k]))))))
  {
    var header := DuiBytes(d);
    var asdu := AsduBytes(Asdu(d, Nc1(Sq0(es)))).value;
    assert asdu == header + Sq0Bytes(es);
    Sq0RoundTrip(header, d.vsq, es);
  }
}
