/** Measured value, short floating point (type M_ME_NC_1, clause 7.3.1.13 of
    IEC 60870-5-101, cited by the code as DL/T 634.5101-2002) and the
    quality descriptor QDS (clause 7.2.6.3), as m_me_nc_1.go encodes and
    parses them. The float32 value is carried as its 32-bit pattern. */
module MeNc1 {
  import opened Wire

  const SQ_1_MSG_LEN: nat := 5
  const SQ_0_MSG_LEN: nat := 6

  /** Quality descriptor (m_me_nc_1.go:64-70). */
  datatype Qds = Qds(ov: bool, bl: bool, sb: bool, nt: bool, iv: bool)

  /** One value with its quality (MessageElementCore_13, m_me_nc_1.go:48-51). */
  datatype Core13 = Core13(value: uint32, qds: Qds)

  /** One explicitly addressed object (MessageElement_13_SQ_0_Ele, m_me_nc_1.go:29-32). */
  datatype Sq0Element = Sq0Element(address: byte, core: Core13)

  /** The two body shapes: one base address and a run of values (SQ=1), or a
      list of addressed objects (SQ=0). */
  datatype Nc1Body =
    | Sq1(address: byte, cores: seq<Core13>)
    | Sq0(elements: seq<Sq0Element>)

  /** The QDS octet of clause 7.2.6.3 of IEC 60870-5-101: OV in bit 0, BL in
      bit 4, SB in bit 5, NT in bit 6 and IV in bit 7. */
  function QdsByte(q: Qds): (b: byte)
    ensures BitSet(b, 0x01) == q.ov
    ensures BitSet(b, 0x10) == q.bl
    ensures BitSet(b, 0x20) == q.sb
    ensures BitSet(b, 0x40) == q.nt
    ensures BitSet(b, 0x80) == q.iv
    ensures !BitSet(b, 0x02) && !BitSet(b, 0x04) && !BitSet(b, 0x08)
  {
    (if q.ov then 0x01 else 0) + (if q.bl then 0x10 else 0) + (if q.sb then 0x20 else 0) +
    (if q.nt then 0x40 else 0) + (if q.iv then 0x80 else 0)
  }

  /** QDS.ConvertBytes (m_me_nc_1.go:72-92): the octet accumulated with `+=`;
      the Go slice holds just this octet. */
  method ConvertQds(q: Qds) returns (result: byte)
    ensures result == QdsByte(q)
  {
    result := 0x00;
    if q.ov {
      result := result + 0x01;
    }
    if q.bl {
      result := result + 0x10;
    }
    if q.sb {
      result := result + 0x20;
    }
    if q.nt {
      result := result + 0x40;
    }
    if q.iv {
      result := result + 0x80;
    }
  }

  /** ParseQDS (m_me_nc_1.go:141-149): each mask is compared with 1, so only
      the overflow bit can ever read back as set. */
  function ParseQds(b: byte): (q: Qds)
    ensures q.ov == BitSet(b, 0x01)
    ensures !q.bl && !q.sb && !q.nt && !q.iv
  {
    Qds(ov := BitAnd(b, 0x01) == 1, bl := BitAnd(b, 0x10) == 1, sb := BitAnd(b, 0x20) == 1,
        nt := BitAnd(b, 0x40) == 1, iv := BitAnd(b, 0x80) == 1)
  }

  /** Encoding a QDS and parsing it back returns it exactly when no flag but
      the overflow flag is set. */
  lemma QdsRoundTripIff(q: Qds)
    ensures ParseQds(QdsByte(q)) == q <==> !q.bl && !q.sb && !q.nt && !q.iv
    ensures ParseQds(QdsByte(q)) == Qds(q.ov, false, false, false, false)
  {
  }

  /** MessageElementCore_13.ConvertBytes (m_me_nc_1.go:53-61). */
  function Core13Bytes(c: Core13): (r: seq<byte>)
    ensures |r| == 5
    ensures BigEndian32(r[..4]) == c.value && r[4] == QdsByte(c.qds)
  {
    var v := BigEndianBytes(c.value);
    assert (v + [QdsByte(c.qds)])[..4] == v;
    v + [QdsByte(c.qds)]
  }

  /** MessageElement_13_SQ_0_Ele.ConvertBytes (m_me_nc_1.go:34-36). */
  function Sq0ElementBytes(e: Sq0Element): (r: seq<byte>)
    ensures |r| == SQ_0_MSG_LEN
    ensures r[0] == e.address && r[1..] == Core13Bytes(e.core)
  {
    [e.address] + Core13Bytes(e.core)
  }

  /** MessageElement_13_SQ_0.ConvertBytes (m_me_nc_1.go:40-46). */
  function Sq0Bytes(es: seq<Sq0Element>): (r: seq<byte>)
    ensures |r| == SQ_0_MSG_LEN * |es|
    ensures forall k :: 0 <= k < |es| ==> r[6 * k .. 6 * k + 6] == Sq0ElementBytes(es[k])
  {
    ConcatMapLength(es, Sq0ElementBytes, SQ_0_MSG_LEN);
    assert forall k :: 0 <= k < |es| ==> ConcatMap(es, Sq0ElementBytes)[6 * k .. 6 * k + 6] == Sq0ElementBytes(es[k]) by {
      forall k | 0 <= k < |es| ensures ConcatMap(es, Sq0ElementBytes)[6 * k .. 6 * k + 6] == Sq0ElementBytes(es[k]) {
        ConcatMapSlice(es, Sq0ElementBytes, SQ_0_MSG_LEN, k);
      }
    }
    ConcatMap(es, Sq0ElementBytes)
  }

  /** MessageElement_13_SQ_1.ConvertBytes (m_me_nc_1.go:20-26). */
  function Sq1Bytes(address: byte, cores: seq<Core13>): (r: seq<byte>)
    ensures |r| == 1 + SQ_1_MSG_LEN * |cores| && r[0] == address
  {
    ConcatMapLength(cores, Core13Bytes, SQ_1_MSG_LEN);
    [address] + ConcatMap(cores, Core13Bytes)
  }

  /** The body an M_ME_NC_1 object encodes to. */
  function Nc1BodyBytes(b: Nc1Body): seq<byte>
  {
    match b
    case Sq1(address, cores) => Sq1Bytes(address, cores)
    case Sq0(elements) => Sq0Bytes(elements)
  }

  /** The element encoders, as the loops of m_me_nc_1.go:40-46 run them. */
  method ConvertSq0(es: seq<Sq0Element>) returns (result: seq<byte>)
    ensures result == Sq0Bytes(es)
  {
    result := [];
    var i := 0;
    while i < |es|
      invariant 0 <= i <= |es|
      invariant result == ConcatMap(es[..i], Sq0ElementBytes)
    {
      assert es[..i + 1][..i] == es[..i];
      result := result + Sq0ElementBytes(es[i]);
      i := i + 1;
    }
    assert es[..|es|] == es;
  }

  /** The loop of m_me_nc_1.go:20-26. */
  method ConvertSq1(address: byte, cores: seq<Core13>) returns (result: seq<byte>)
    ensures result == Sq1Bytes(address, cores)
  {
    var coreBytes: seq<byte> := [];
    var i := 0;
    while i < |cores|
      invariant 0 <= i <= |cores|
      invariant coreBytes == ConcatMap(cores[..i], Core13Bytes)
    {
      assert cores[..i + 1][..i] == cores[..i];
      coreBytes := coreBytes + Core13Bytes(cores[i]);
      i := i + 1;
    }
    assert cores[..|cores|] == cores;
    result := [address] + coreBytes;
  }

  /** The value read from the five octets at `p`: a big-endian float pattern
      and a QDS octet. */
  function CoreAt(body: seq<byte>, p: nat): Core13
    requires p + 5 <= |body|
  {
    Core13(BigEndian32(body[p..p + 4]), ParseQds(body[p + 4]))
  }

  /** The SQ=0 objects read with stride 6 (m_me_nc_1.go:105-117). */
  function Sq0Decoded(body: seq<byte>, n: nat): (es: seq<Sq0Element>)
    requires SQ_0_MSG_LEN * n <= |body|
    ensures |es| == n
  {
    seq(n, k requires 0 <= k < n => Sq0Element(body[6 * k], CoreAt(body, 6 * k + 1)))
  }

  /** The SQ=1 values read with stride 5 but at offsets 1..5 of each stride
      (m_me_nc_1.go:127-135): the last QDS read is one past the run. */
  function Sq1Decoded(body: seq<byte>, n: nat): (r: Outcome<seq<Core13>>)
    requires SQ_1_MSG_LEN * n <= |body|
    ensures r.Ok? || r == Panic(IndexOutOfRange)
    ensures r.Ok? ==> |r.value| == n
  {
    if n > 0 && |body| <= SQ_1_MSG_LEN * n then Panic(IndexOutOfRange)
    else Ok(Sq1Cores(body, n))
  }

  /** The first `m` values of an SQ=1 run, each read from offsets 1..5 of its stride. */
  function Sq1Cores(body: seq<byte>, m: nat): (cs: seq<Core13>)
    requires m == 0 || SQ_1_MSG_LEN * m + 1 <= |body|
    ensures |cs| == m
  {
    seq(m, k requires 0 <= k < m => CoreAt(body, 5 * k + 1))
  }

  /** The SQ=0 branch of parseM_ME_NC_1 (m_me_nc_1.go:99-118): `number`
      objects of six octets after the four header octets; the count check is
      on whole strides, so up to five trailing octets are ignored. */
  function DecodeSq0Objects(asdu: seq<byte>, number: nat): (r: Outcome<Nc1Body>)
    requires |asdu| >= 4
    ensures !r.Panic?
    ensures r.Err? <==> (|asdu| - 4) / SQ_0_MSG_LEN != number
    ensures r.Ok? ==>
      && r.value.Sq0?
      && |r.value.elements| == number
      && forall k :: 0 <= k < number ==>
           && 4 + 6 * k + 6 <= |asdu|
           && r.value.elements[k].address == asdu[4 + 6 * k]
           && r.value.elements[k].core.value == BigEndian32(asdu[5 + 6 * k .. 9 + 6 * k])
           && r.value.elements[k].core.qds == ParseQds(asdu[9 + 6 * k])
  {
    var body := asdu[4..];
    if |body| / SQ_0_MSG_LEN != number then Err(CountMismatch(|body| / SQ_0_MSG_LEN, number))
    else
      var es := Sq0Decoded(body, number);
      assert forall k :: 0 <= k < number ==>
        es[k] == Sq0Element(body[6 * k], CoreAt(body, 6 * k + 1))
        && body[6 * k + 1 .. 6 * k + 5] == asdu[5 + 6 * k .. 9 + 6 * k];
      Ok(Sq0(es))
  }

  /** The SQ=1 branch of parseM_ME_NC_1 (m_me_nc_1.go:119-136): one address
      octet, then `number` values counted in strides of five but each read
      from offsets 1..5 of its stride, so the read of the last QDS runs one
      past a body of exactly `5 * number` octets. */
  function DecodeSq1Objects(asdu: seq<byte>, number: nat): (r: Outcome<Nc1Body>)
    requires |asdu| >= 4
    ensures r == Panic(IndexOutOfRange) <==>
      |asdu| < 5 || (number != 0 && |asdu| - 5 == SQ_1_MSG_LEN * number)
    ensures r.Err? <==> |asdu| >= 5 && (|asdu| - 5) / SQ_1_MSG_LEN != number
    ensures r.Ok? ==>
      && r.value.Sq1?
      && r.value.address == asdu[4]
      && |r.value.cores| == number
      && forall k :: 0 <= k < number ==>
           && 5 + 5 * k + 6 <= |asdu|
           && r.value.cores[k].value == BigEndian32(asdu[6 + 5 * k .. 10 + 5 * k])
           && r.value.cores[k].qds == ParseQds(asdu[10 + 5 * k])
  {
    if |asdu| < 5 then Panic(IndexOutOfRange)
    else
      var address := asdu[4];
      var body := asdu[5..];
      if |body| / SQ_1_MSG_LEN != number then Err(CountMismatch(|body| / SQ_1_MSG_LEN, number))
      else
        match Sq1Decoded(body, number)
        case Ok(cores) =>
          assert forall k :: 0 <= k < number ==>
            cores[k] == CoreAt(body, 5 * k + 1) && body[5 * k + 1 .. 5 * k + 5] == asdu[6 + 5 * k .. 10 + 5 * k];
          Ok(Sq1(address, cores))
        case Err(f) => Err(f)
        case Panic(p) => Panic(p)
  }

  /** parseM_ME_NC_1 (m_me_nc_1.go:94-138): the SQ bit chooses the layout and
      the qualifier's count is the declared count. */
  function DecodeNc1(asdu: seq<byte>, vsq: byte): Outcome<Nc1Body>
    requires |asdu| >= 4
  {
    var sq := SqBit(vsq);
    var number := VsqCount(vsq);
    if sq == 0 then DecodeSq0Objects(asdu, number) else DecodeSq1Objects(asdu, number)
  }

  /** The SQ=0 loop of parseM_ME_NC_1 (m_me_nc_1.go:99-118). */
  method ParseNc1Sq0(asdu: seq<byte>, number: nat) returns (r: Outcome<Nc1Body>)
    requires |asdu| >= 4
    ensures r == DecodeSq0Objects(asdu, number)
  {
    var body := asdu[4..];
    if |body| / SQ_0_MSG_LEN != number {
      return Err(CountMismatch(|body| / SQ_0_MSG_LEN, number));
    }
    var elements: seq<Sq0Element> := [];
    var i := 0;
    while i < number * SQ_0_MSG_LEN
      invariant i == SQ_0_MSG_LEN * |elements| && |elements| <= number
      invariant elements == Sq0Decoded(body, |elements|)
    {
      var address := body[i];
      var value := BigEndian32(body[i + 1 .. i + 5]);
      var qds := ParseQds(body[i + 5]);
      elements := elements + [Sq0Element(address, Core13(value, qds))];
      i := i + SQ_0_MSG_LEN;
    }
    return Ok(Sq0(elements));
  }

  /** The SQ=1 loop of parseM_ME_NC_1 (m_me_nc_1.go:119-136). */
  method ParseNc1Sq1(asdu: seq<byte>, number: nat) returns (r: Outcome<Nc1Body>)
    requires |asdu| >= 4
    ensures r == DecodeSq1Objects(asdu, number)
  {
    if |asdu| < 5 {
      return Panic(IndexOutOfRange);
    }
    var address := asdu[4];
    var body := asdu[5..];
    if |body| / SQ_1_MSG_LEN != number {
      return Err(CountMismatch(|body| / SQ_1_MSG_LEN, number));
    }
    var cores: seq<Core13> := [];
    var i := 0;
    while i < number * SQ_1_MSG_LEN
      invariant i == SQ_1_MSG_LEN * |cores| && |cores| <= number
      invariant |cores| == 0 || i + 1 <= |body|
      invariant cores == Sq1Cores(body, |cores|)
    {
      if i + 5 >= |body| {
        return Panic(IndexOutOfRange);
      }
      var value := BigEndian32(body[i + 1 .. i + 5]);
      var qds := ParseQds(body[i + 5]);
      cores := cores + [Core13(value, qds)];
      i := i + SQ_1_MSG_LEN;
    }
    return Ok(Sq1(address, cores));
  }

  /** parseM_ME_NC_1 (m_me_nc_1.go:94-138). */
  method ParseNc1(asdu: seq<byte>, vsq: byte) returns (r: Outcome<Nc1Body>)
    requires |asdu| >= 4
    ensures r == DecodeNc1(asdu, vsq)
  {
    var sq := SqBit(vsq);
    var number := VsqCount(vsq);
    if sq == 0 {
      r := ParseNc1Sq0(asdu, number);
    } else {
      r := ParseNc1Sq1(asdu, number);
    }
  }

  /** An object as it reads back after encoding: only the overflow flag of its
      QDS survives ParseQds. */
  function ReadBack(e: Sq0Element): (r: Sq0Element)
    ensures r.address == e.address && r.core.value == e.core.value
    ensures r.core.qds == Qds(e.core.qds.ov, false, false, false, false)
  {
    Sq0Element(e.address, Core13(e.core.value, ParseQds(QdsByte(e.core.qds))))
  }

  /** SQ=0 round trip: parsing a four-octet header followed by an encoded list,
      whose qualifier declares the list's length, returns the list, up to the
      QDS flags ParseQds cannot read. */
  lemma Sq0RoundTrip(header: seq<byte>, vsq: byte, es: seq<Sq0Element>)
    requires |header| == 4
    requires SqBit(vsq) == 0 && VsqCount(vsq) == |es|
    ensures DecodeNc1(header + Sq0Bytes(es), vsq) == Ok(Sq0(seq(|es|, k requires 0 <= k < |es| => ReadBack(es[k]))))
  {
    var asdu := header + Sq0Bytes(es);
    var n := |es|;
    var want := seq(n, k requires 0 <= k < n => ReadBack(es[k]));
    assert DecodeSq0Objects(asdu, n) == Ok(Sq0(want)) by {
      var r := DecodeSq0Objects(asdu, n);
      assert (|asdu| - 4) / SQ_0_MSG_LEN == n;
      assert r.Ok?;
      assert |r.value.elements| == n;
      forall k | 0 <= k < n ensures r.value.elements[k] == want[k] {
        Sq0ObjectReadBack(header, es, k);
      }
      assert r.value.elements == want;
    }
  }

  /** Object `k` of an encoded list sits at its place in the ASDU. */
  lemma Sq0ObjectReadBack(header: seq<byte>, es: seq<Sq0Element>, k: nat)
    requires |header| == 4 && k < |es|
    ensures var asdu := header + Sq0Bytes(es);
      && 4 + 6 * k + 6 <= |asdu|
      && asdu[4 + 6 * k] == es[k].address
      && BigEndian32(asdu[5 + 6 * k .. 9 + 6 * k]) == es[k].core.value
      && asdu[9 + 6 * k] == QdsByte(es[k].core.qds)
  {
    var bytes := Sq0Bytes(es);
    var asdu := header + bytes;
    var p := 4 + 6 * k;
    var part := Sq0ElementBytes(es[k]);
    assert bytes[6 * k .. 6 * k + 6] == part;
    assert asdu[4..] == bytes;
    assert asdu[p .. p + 6] == asdu[4..][6 * k .. 6 * k + 6];
    Sq0ElementFields(asdu, p, es[k]);
  }

  /** The fields of an encoded object read back from its six octets. */
  lemma Sq0ElementFields(asdu: seq<byte>, p: nat, e: Sq0Element)
    requires p + 6 <= |asdu| && asdu[p .. p + 6] == Sq0ElementBytes(e)
    ensures asdu[p] == e.address
    ensures BigEndian32(asdu[p + 1 .. p + 5]) == e.core.value
    ensures asdu[p + 5] == QdsByte(e.core.qds)
  {
    var part := Sq0ElementBytes(e);
    assert asdu[p] == part[0] && asdu[p + 5] == part[5];
    forall i | 0 <= i < 4 ensures asdu[p + 1 .. p + 5][i] == part[1..5][i] {
      assert asdu[p .. p + 6][i + 1] == asdu[p + 1 + i];
    }
    assert asdu[p + 1 .. p + 5] == part[1..5];
    assert part[1..5] == Core13Bytes(e.core)[..4];
  }

  /** SQ=1: what ConvertSq1 produces for a non-empty run, behind a four-octet
      header whose qualifier declares the run's length, makes the parser index
      one past the end. */
  lemma Sq1EncodingPanics(header: seq<byte>, vsq: byte, address: byte, cores: seq<Core13>)
    requires |header| == 4
    requires SqBit(vsq) == 1 && VsqCount(vsq) == |cores| > 0
    ensures DecodeNc1(header + Sq1Bytes(address, cores), vsq) == Panic(IndexOutOfRange)
  {
  }
}
