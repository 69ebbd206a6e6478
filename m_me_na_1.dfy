/** Measured value, normalised (type M_ME_NA_1): a 16-bit two's-complement
    value with a QDS octet, as m_me_na_1.go encodes and parses it. */
module MeNa1 {
  import opened Wire
  import opened MeNc1

  const CORE_9_LEN: nat := 3
  const SQ_0_ELE_9_LEN: nat := 5

  /** One value with its quality (MessageElementCore_9, m_me_na_1.go:43-46). */
  datatype Core9 = Core9(value: int16, qds: Qds)

  /** One explicitly addressed object (MessageElement_9_SQ_0_Ele, m_me_na_1.go:24-27). */
  datatype Na1Element = Na1Element(address: uint32, core: Core9)

  /** The two body shapes (MessageElement_9_SQ_1 and MessageElement_9_SQ_0). */
  datatype Na1Body =
    | Na1Sq1(address: uint32, cores: seq<Core9>)
    | Na1Sq0(elements: seq<Na1Element>)

  /** getValueWithComplementUseLittleEndian (m_me_na_1.go:105-117). With the
      sign bit set it forms the 16-bit complement `^v + 1` of the
      little-endian value, reads it as `int16` and negates it with `int16`
      wrap-around; otherwise it reads the value as `int16` directly. Either
      way the result is the two's-complement reading of the two octets. */
  function DecodeInt16(b: seq<byte>): (r: Outcome<int16>)
    ensures !r.Panic?
    ensures r.Err? <==> |b| < 2
    ensures r.Err? ==> r.fault == ValueTooShort
    ensures r.Ok? ==> r.value == Signed16(LittleEndian16(b[0], b[1]))
  {
    if |b| < 2 then Err(ValueTooShort)
    else
      var v := LittleEndian16(b[0], b[1]);
      SignBit(b[0], b[1]);
      if BitAnd(b[1], 0x80) == 0x80 then
        var t := (65535 - v + 1) % 65536;
        ComplementNegation(v);
        Ok(Wrap16(Signed16(t) * -1))
      else
        Ok(Wrap16(v))
  }

  /** The sign bit of the high octet is the top bit of the 16-bit value. */
  lemma SignBit(lo: byte, hi: byte)
    ensures (BitAnd(hi, 0x80) == 0x80) == (LittleEndian16(lo, hi) >= 32768)
  {
  }

  /** Negating the `int16` reading of the complement of a negative pattern. */
  lemma ComplementNegation(v: int)
    requires 32768 <= v < 65536
    ensures Wrap16(Signed16((65535 - v + 1) % 65536) * -1) == Signed16(v)
  {
    if v == 32768 {
      assert Signed16(32768) == -32768;
    } else {
      assert (65535 - v + 1) % 65536 == 65536 - v;
    }
  }

  /** The complement branch also covers 0x8000: `^0x8000 + 1` is 0x8000, which
      reads as -32768, and its negation wraps back to -32768. */
  lemma MostNegativeValue()
    ensures DecodeInt16([0x00, 0x80]) == Ok(-32768)
  {
  }

  /** The two octets of a 16-bit pattern 0..65535, low octet first. */
  function Uint16Bytes(u: int): (r: seq<byte>)
    requires 0 <= u < 65536
    ensures |r| == 2
  {
    [u % 256, u / 256]
  }

  /** The octets `binary.Write` emits for an `int16` in little-endian order:
      those of its 16-bit two's-complement pattern. */
  function Int16Bytes(v: int16): (r: seq<byte>)
    ensures |r| == 2
  {
    Uint16Bytes((v as int) % 65536)
  }

  lemma Uint16BytesValue(u: int)
    requires 0 <= u < 65536
    ensures LittleEndian16(Uint16Bytes(u)[0], Uint16Bytes(u)[1]) == u
  {
  }

  lemma Uint16BytesOf(lo: byte, hi: byte)
    ensures Uint16Bytes(LittleEndian16(lo, hi)) == [lo, hi]
  {
    Uint16BytesOfSum(LittleEndian16(lo, hi), lo, hi);
  }

  lemma Uint16BytesOfSum(u: int, lo: byte, hi: byte)
    requires u == lo as int + 256 * hi as int
    ensures 0 <= u < 65536 && Uint16Bytes(u) == [lo, hi]
  {
    assert u % 256 == lo as int && u / 256 == hi as int;
  }

  /** MessageElementCore_9.ConvertBytes (m_me_na_1.go:48-56). */
  function Core9Bytes(c: Core9): (r: seq<byte>)
    ensures |r| == CORE_9_LEN
    ensures r[..2] == Int16Bytes(c.value) && r[2] == QdsByte(c.qds)
  {
    Int16Bytes(c.value) + [QdsByte(c.qds)]
  }

  /** Decoding the value octets of an encoded core returns its value. */
  lemma Core9ValueRoundTrip(c: Core9)
    ensures DecodeInt16(Core9Bytes(c)[..2]) == Ok(c.value)
  {
    var u := (c.value as int) % 65536;
    Uint16BytesValue(u);
    assert Signed16(u) == c.value;
  }

  /** MessageElement_9_SQ_0_Ele.ConvertBytes (m_me_na_1.go:29-31): the address
      is written as `byte(a & 0xFF)` and `byte(a)`, and since the conversion to
      `byte` keeps the low octet, that is twice the low octet `a % 256`. */
  function Na1ElementBytes(e: Na1Element): (r: seq<byte>)
    ensures |r| == SQ_0_ELE_9_LEN
    ensures r[0] == r[1] == e.address % 256
    ensures r[2..] == Core9Bytes(e.core)
  {
    [e.address % 256, e.address % 256] + Core9Bytes(e.core)
  }

  /** MessageElement_9_SQ_0.ConvertBytes (m_me_na_1.go:35-41). */
  function Na1Sq0Bytes(es: seq<Na1Element>): (r: seq<byte>)
    ensures |r| == SQ_0_ELE_9_LEN * |es|
    ensures forall k :: 0 <= k < |es| ==> r[5 * k .. 5 * k + 5] == Na1ElementBytes(es[k])
  {
    ConcatMapLength(es, Na1ElementBytes, SQ_0_ELE_9_LEN);
    assert forall k :: 0 <= k < |es| ==> ConcatMap(es, Na1ElementBytes)[5 * k .. 5 * k + 5] == Na1ElementBytes(es[k]) by {
      forall k | 0 <= k < |es| ensures ConcatMap(es, Na1ElementBytes)[5 * k .. 5 * k + 5] == Na1ElementBytes(es[k]) {
        ConcatMapSlice(es, Na1ElementBytes, SQ_0_ELE_9_LEN, k);
      }
    }
    ConcatMap(es, Na1ElementBytes)
  }

  /** The three address octets of MessageElement_9_SQ_1.ConvertBytes. */
  function Address24Bytes(a: uint32): (r: seq<byte>)
    ensures |r| == 3 && LittleEndian24(r[0], r[1], r[2]) == a % 0x100_0000
  {
    Address24Split(a);
    [a % 0x100, a / 0x100 % 0x100, a / 0x1_0000 % 0x100]
  }

  lemma Address24Split(a: uint32)
    ensures a % 0x100_0000 == a % 0x100 + 0x100 * (a / 0x100 % 0x100) + 0x1_0000 * (a / 0x1_0000 % 0x100)
  {
    var q1, q2, q3 := a / 0x100, a / 0x1_0000, a / 0x100_0000;
    assert a == q1 * 0x100 + a % 0x100;
    assert q1 == q2 * 0x100 + q1 % 0x100 by { assert q2 == q1 / 0x100; }
    assert q2 == q3 * 0x100 + q2 % 0x100 by { assert q3 == q2 / 0x100; }
    assert a == q3 * 0x100_0000 + (a % 0x100 + 0x100 * (q1 % 0x100) + 0x1_0000 * (q2 % 0x100));
  }

  /** MessageElement_9_SQ_1.ConvertBytes (m_me_na_1.go:15-21). */
  function Na1Sq1Bytes(address: uint32, cores: seq<Core9>): (r: seq<byte>)
    ensures |r| == 3 + CORE_9_LEN * |cores|
    ensures r[..3] == Address24Bytes(address)
  {
    ConcatMapLength(cores, Core9Bytes, CORE_9_LEN);
    Address24Bytes(address) + ConcatMap(cores, Core9Bytes)
  }

  /** The body an M_ME_NA_1 object encodes to. */
  function Na1BodyBytes(b: Na1Body): seq<byte>
  {
    match b
    case Na1Sq1(address, cores) => Na1Sq1Bytes(address, cores)
    case Na1Sq0(elements) => Na1Sq0Bytes(elements)
  }

  /** The loop of m_me_na_1.go:35-41. */
  method ConvertNa1Sq0(es: seq<Na1Element>) returns (result: seq<byte>)
    ensures result == Na1Sq0Bytes(es)
  {
    result := [];
    var i := 0;
    while i < |es|
      invariant 0 <= i <= |es|
      invariant result == ConcatMap(es[..i], Na1ElementBytes)
    {
      assert es[..i + 1][..i] == es[..i];
      result := result + Na1ElementBytes(es[i]);
      i := i + 1;
    }
    assert es[..|es|] == es;
  }

  /** The loop of m_me_na_1.go:15-21. */
  method ConvertNa1Sq1(address: uint32, cores: seq<Core9>) returns (result: seq<byte>)
    ensures result == Na1Sq1Bytes(address, cores)
  {
    var coreBytes: seq<byte> := [];
    var i := 0;
    while i < |cores|
      invariant 0 <= i <= |cores|
      invariant coreBytes == ConcatMap(cores[..i], Core9Bytes)
    {
      assert cores[..i + 1][..i] == cores[..i];
      coreBytes := coreBytes + Core9Bytes(cores[i]);
      i := i + 1;
    }
    assert cores[..|cores|] == cores;
    result := Address24Bytes(address) + coreBytes;
  }

  /** The core read from the three octets at `p`. Its value is what
      DecodeInt16 returns on the first two, by DecodeInt16's contract; the
      error the source discards cannot occur on two octets. */
  function Core9At(body: seq<byte>, p: nat): Core9
    requires p + 3 <= |body|
  {
    Core9(Signed16(LittleEndian16(body[p], body[p + 1])), ParseQds(body[p + 2]))
  }

  /** The SQ=0 object read from the six octets at `p`. */
  function Na1ElementAt(body: seq<byte>, p: nat): Na1Element
    requires p + 6 <= |body|
  {
    Na1Element(LittleEndian24(body[p], body[p + 1], body[p + 2]), Core9At(body, p + 3))
  }

  /** The first `n` SQ=0 objects at stride `size`. */
  function Na1Sq0Decoded(body: seq<byte>, size: nat, n: nat): (es: seq<Na1Element>)
    requires n == 0 || size * (n - 1) + 6 <= |body|
    ensures |es| == n
  {
    seq(n, k requires 0 <= k < n => MulMonotone(size, k, n - 1); Na1ElementAt(body, size * k))
  }

  /** The first `n` SQ=1 cores at stride `size`. */
  function Na1Sq1Cores(body: seq<byte>, size: nat, n: nat): (cs: seq<Core9>)
    requires n == 0 || size * (n - 1) + 3 <= |body|
    ensures |cs| == n
  {
    seq(n, k requires 0 <= k < n => MulMonotone(size, k, n - 1); Core9At(body, size * k))
  }

  /** The number of loop rounds of m_me_na_1.go:68 and 91: `number` strides,
      or none when the stride is 0. */
  function Rounds(bodyLen: nat, number: nat): (n: nat)
    requires number > 0
    ensures n == 0 || n == number
    ensures n == number <==> bodyLen >= number
  {
    if bodyLen / number == 0 then 0 else number
  }

  /** `c` is the core held by the three octets of `asdu` at `p`: a
      little-endian two's-complement value and a QDS octet. */
  predicate Core9ReadFrom(asdu: seq<byte>, p: nat, c: Core9)
  {
    && p + 3 <= |asdu|
    && c.value == Signed16(LittleEndian16(asdu[p], asdu[p + 1]))
    && c.qds == ParseQds(asdu[p + 2])
  }

  /** `e` is the object held by the six octets of `asdu` at `p`: a
      little-endian three-octet address, then a core. */
  predicate Na1ElementReadFrom(asdu: seq<byte>, p: nat, e: Na1Element)
  {
    && p + 6 <= |asdu|
    && e.address == LittleEndian24(asdu[p], asdu[p + 1], asdu[p + 2])
    && Core9ReadFrom(asdu, p + 3, e.core)
  }

  lemma Core9AtReads(asdu: seq<byte>, offset: nat, p: nat)
    requires offset <= |asdu| && p + 3 <= |asdu| - offset
    ensures Core9ReadFrom(asdu, offset + p, Core9At(asdu[offset..], p))
  {
    var body := asdu[offset..];
    assert body[p..p + 2] == asdu[offset + p .. offset + p + 2];
  }

  lemma Na1ElementAtReads(asdu: seq<byte>, offset: nat, p: nat)
    requires offset <= |asdu| && p + 6 <= |asdu| - offset
    ensures Na1ElementReadFrom(asdu, offset + p, Na1ElementAt(asdu[offset..], p))
  {
    Core9AtReads(asdu, offset, p + 3);
  }

  /** What the loop of m_me_na_1.go:68-83 reads from the body after the
      header, stated in closed form: the objects at the `Rounds` strides, or
      the panic of the last index when the last object runs past the body. */
  function Na1Sq0Strides(body: seq<byte>, number: nat): Outcome<seq<Na1Element>>
    requires number > 0
  {
    var size := |body| / number;
    var n := Rounds(|body|, number);
    if n > 0 && size * (n - 1) + 6 > |body| then Panic(IndexOutOfRange)
    else Ok(Na1Sq0Decoded(body, size, n))
  }

  /** What the loop of m_me_na_1.go:91-100 reads from the body after the
      address, in closed form. */
  function Na1Sq1Strides(body: seq<byte>, number: nat): Outcome<seq<Core9>>
    requires number > 0
  {
    var size := |body| / number;
    var n := Rounds(|body|, number);
    if n > 0 && size * (n - 1) + 3 > |body| then Panic(IndexOutOfRange)
    else Ok(Na1Sq1Cores(body, size, n))
  }

  /** The SQ=0 branch of parseM_ME_NA_1 (m_me_na_1.go:64-84): the body after
      six octets is cut into `number` equal strides, each read as a three-octet
      address, a value and a QDS octet; trailing octets are ignored. */
  function DecodeNa1Sq0Objects(asdu: seq<byte>, number: nat): (r: Outcome<Na1Body>)
    ensures !r.Err?
    ensures r == Panic(DivideByZero) <==> |asdu| >= 6 && number == 0
    ensures r == Panic(IndexOutOfRange) <==>
      |asdu| < 6 ||
      (number > 0 && Rounds(|asdu| - 6, number) > 0 &&
       (|asdu| - 6) / number * (number - 1) + 6 > |asdu| - 6)
    ensures r.Ok? ==>
      && number > 0
      && r.value.Na1Sq0?
      && |r.value.elements| == Rounds(|asdu| - 6, number)
      && forall k :: 0 <= k < |r.value.elements| ==>
           Na1ElementReadFrom(asdu, 6 + (|asdu| - 6) / number * k, r.value.elements[k])
  {
    if |asdu| < 6 then Panic(IndexOutOfRange)
    else if number == 0 then Panic(DivideByZero)
    else
      var body := asdu[6..];
      var run := Na1Sq0Strides(body, number);
      if run.Panic? then Panic(IndexOutOfRange)
      else
        Na1Sq0RunReads(asdu, number);
        Ok(Na1Sq0(run.value))
  }

  /** The SQ=1 branch of parseM_ME_NA_1 (m_me_na_1.go:85-101): a three-octet
      address at octets 6..8, then `number` equal strides of the rest, each
      read as a value and a QDS octet. */
  function DecodeNa1Sq1Objects(asdu: seq<byte>, number: nat): (r: Outcome<Na1Body>)
    ensures !r.Err?
    ensures r == Panic(DivideByZero) <==> |asdu| >= 9 && number == 0
    ensures r == Panic(IndexOutOfRange) <==>
      |asdu| < 9 ||
      (number > 0 && Rounds(|asdu| - 9, number) > 0 &&
       (|asdu| - 9) / number * (number - 1) + 3 > |asdu| - 9)
    ensures r.Ok? ==>
      && number > 0
      && r.value.Na1Sq1?
      && r.value.address == LittleEndian24(asdu[6], asdu[7], asdu[8])
      && |r.value.cores| == Rounds(|asdu| - 9, number)
      && forall k :: 0 <= k < |r.value.cores| ==>
           Core9ReadFrom(asdu, 9 + (|asdu| - 9) / number * k, r.value.cores[k])
  {
    if |asdu| < 9 then Panic(IndexOutOfRange)
    else if number == 0 then Panic(DivideByZero)
    else
      var address := LittleEndian24(asdu[6], asdu[7], asdu[8]);
      var body := asdu[9..];
      assert |body| == |asdu| - 9;
      var run := Na1Sq1Strides(body, number);
      if run.Panic? then Panic(IndexOutOfRange)
      else
        Na1Sq1RunReads(asdu, number);
        Ok(Na1Sq1(address, run.value))
  }

  /** Object `k` of an SQ=0 run comes from stride `k` after the header. */
  lemma Na1Sq0RunReads(asdu: seq<byte>, number: nat)
    requires |asdu| >= 6 && number > 0 && Na1Sq0Strides(asdu[6..], number).Ok?
    ensures var es := Na1Sq0Strides(asdu[6..], number).value;
      forall k :: 0 <= k < |es| ==> Na1ElementReadFrom(asdu, 6 + (|asdu| - 6) / number * k, es[k])
  {
    var body := asdu[6..];
    var es := Na1Sq0Strides(body, number).value;
    var size := |body| / number;
    var n := |es|;
    forall k | 0 <= k < n ensures Na1ElementReadFrom(asdu, 6 + size * k, es[k]) {
      MulMonotone(size, k, n - 1);
      Na1ElementAtReads(asdu, 6, size * k);
    }
  }

  /** Core `k` of an SQ=1 run comes from stride `k` after the address. */
  lemma Na1Sq1RunReads(asdu: seq<byte>, number: nat)
    requires |asdu| >= 9 && number > 0 && Na1Sq1Strides(asdu[9..], number).Ok?
    ensures var cs := Na1Sq1Strides(asdu[9..], number).value;
      forall k :: 0 <= k < |cs| ==> Core9ReadFrom(asdu, 9 + (|asdu| - 9) / number * k, cs[k])
  {
    var body := asdu[9..];
    var cs := Na1Sq1Strides(body, number).value;
    var size := |body| / number;
    var n := |cs|;
    forall k | 0 <= k < n ensures Core9ReadFrom(asdu, 9 + size * k, cs[k]) {
      MulMonotone(size, k, n - 1);
      Core9AtReads(asdu, 9, size * k);
    }
  }

  /** parseM_ME_NA_1 (m_me_na_1.go:58-103). */
  function DecodeNa1(asdu: seq<byte>, vsq: byte): Outcome<Na1Body>
  {
    var sq := SqBit(vsq);
    var number := VsqCount(vsq);
    if sq == 0 then DecodeNa1Sq0Objects(asdu, number) else DecodeNa1Sq1Objects(asdu, number)
  }

  /** The quotient of an exact multiple. */
  lemma ExactQuotient(w: nat, n: nat)
    requires n > 0
    ensures (w * n) / n == w
  {
    var q, r := (w * n) / n, (w * n) % n;
    assert w * n == q * n + r && 0 <= r < n;
    assert q >= 0;
    assert (q + 1) * n == q * n + n;
    MulLessIff(w, q, n);
    MulLessIff(w, q + 1, n);
  }

  /** Multiplying by a positive number keeps strict order, both ways. */
  lemma MulLessIff(a: nat, b: nat, n: nat)
    requires n > 0
    ensures a * n < b * n <==> a < b
  {
    if a < b {
      MulMonotone(n, a + 1, b);
      assert (a + 1) * n == a * n + n;
    } else {
      MulMonotone(n, b, a);
    }
  }

  /** `xs` followed by the list `o` holds, if `o` holds one. */
  function Prefixed<T>(xs: seq<T>, o: Outcome<seq<T>>): Outcome<seq<T>>
  {
    if o.Ok? then Ok(xs + o.value) else o
  }

  lemma PrefixedNil<T>(o: Outcome<seq<T>>)
    ensures Prefixed([], o) == o
  {
    if o.Ok? {
      assert [] + o.value == o.value;
    }
  }

  lemma PrefixedSnoc<T>(xs: seq<T>, x: T, o: Outcome<seq<T>>)
    ensures Prefixed(xs, Prefixed([x], o)) == Prefixed(xs + [x], o)
  {
    if o.Ok? {
      assert xs + ([x] + o.value) == xs + [x] + o.value;
    }
  }

  lemma PrefixedDone<T>(xs: seq<T>)
    ensures Prefixed(xs, Ok([])) == Ok(xs)
  {
    assert xs + [] == xs;
  }

  /** The rounds of the SQ=0 loop from index `i` on, as the loop runs them:
      stop at `limit`, panic on the first object that runs past the body,
      otherwise read it and move on by `size`. */
  function Na1Sq0From(body: seq<byte>, size: nat, limit: nat, i: nat): Outcome<seq<Na1Element>>
    requires size > 0 || limit == 0
    decreases limit - i
  {
    if i >= limit then Ok([])
    else if i + 5 >= |body| then Panic(IndexOutOfRange)
    else Prefixed([Na1ElementAt(body, i)], Na1Sq0From(body, size, limit, i + size))
  }

  /** The rounds of the SQ=1 loop from index `i` on. */
  function Na1Sq1From(body: seq<byte>, size: nat, limit: nat, i: nat): Outcome<seq<Core9>>
    requires size > 0 || limit == 0
    decreases limit - i
  {
    if i >= limit then Ok([])
    else if i + 2 >= |body| then Panic(IndexOutOfRange)
    else Prefixed([Core9At(body, i)], Na1Sq1From(body, size, limit, i + size))
  }

  /** The SQ=0 rounds from round `j` of `n` at stride `size`: none left, the
      panic of the last object when it runs past the body, or the rest of the
      objects. */
  lemma {:induction false} Na1Sq0FromClosed(body: seq<byte>, size: nat, n: nat, j: nat)
    requires size > 0 && j <= n
    ensures Na1Sq0From(body, size, size * n, size * j) ==
      if j == n then Ok([])
      else if size * (n - 1) + 6 > |body| then Panic(IndexOutOfRange)
      else Ok(Na1Sq0Decoded(body, size, n)[j..])
    decreases n - j
  {
    if j < n {
      MulMonotone(size, j + 1, n);
      MulMonotone(size, j, n - 1);
      assert size * (j + 1) == size * j + size;
      if size * j + 5 < |body| {
        Na1Sq0FromClosed(body, size, n, j + 1);
        if size * (n - 1) + 6 <= |body| {
          var es := Na1Sq0Decoded(body, size, n);
          assert es[j..] == [es[j]] + es[j + 1..];
        }
      }
    }
  }

  /** The SQ=1 rounds from round `j` of `n` at stride `size`. */
  lemma {:induction false} Na1Sq1FromClosed(body: seq<byte>, size: nat, n: nat, j: nat)
    requires size > 0 && j <= n
    ensures Na1Sq1From(body, size, size * n, size * j) ==
      if j == n then Ok([])
      else if size * (n - 1) + 3 > |body| then Panic(IndexOutOfRange)
      else Ok(Na1Sq1Cores(body, size, n)[j..])
    decreases n - j
  {
    if j < n {
      MulMonotone(size, j + 1, n);
      MulMonotone(size, j, n - 1);
      assert size * (j + 1) == size * j + size;
      if size * j + 2 < |body| {
        Na1Sq1FromClosed(body, size, n, j + 1);
        if size * (n - 1) + 3 <= |body| {
          var cs := Na1Sq1Cores(body, size, n);
          assert cs[j..] == [cs[j]] + cs[j + 1..];
        }
      }
    }
  }

  /** The loop of m_me_na_1.go:68-83, run from its start with the bound
      `number * size`, `size` being the body length over `number`. */
  function Na1Sq0Run(body: seq<byte>, number: nat): Outcome<seq<Na1Element>>
    requires number > 0
  {
    var size := |body| / number;
    Na1Sq0From(body, size, number * size, 0)
  }

  /** The loop reads exactly the objects at the strides, or panics exactly
      when the last of them runs past the body. */
  lemma Na1Sq0RunClosed(body: seq<byte>, number: nat)
    requires number > 0
    ensures Na1Sq0Run(body, number) == Na1Sq0Strides(body, number)
  {
    var size := |body| / number;
    if size > 0 {
      Na1Sq0FromStart(body, size, number);
    }
  }

  /** All `number` rounds at a positive stride `size`. */
  lemma Na1Sq0FromStart(body: seq<byte>, size: nat, number: nat)
    requires size > 0 && number > 0
    ensures Na1Sq0From(body, size, number * size, 0) ==
      if size * (number - 1) + 6 > |body| then Panic(IndexOutOfRange)
      else Ok(Na1Sq0Decoded(body, size, number))
  {
    assert number * size == size * number && size * 0 == 0;
    Na1Sq0FromClosed(body, size, number, 0);
    if size * (number - 1) + 6 <= |body| {
      assert Na1Sq0Decoded(body, size, number)[0..] == Na1Sq0Decoded(body, size, number);
    }
  }

  /** The loop of m_me_na_1.go:91-100, run from its start. */
  function Na1Sq1Run(body: seq<byte>, number: nat): Outcome<seq<Core9>>
    requires number > 0
  {
    var size := |body| / number;
    Na1Sq1From(body, size, number * size, 0)
  }

  /** The loop reads exactly the objects at the strides, or panics exactly
      when the last of them runs past the body. */
  lemma Na1Sq1RunClosed(body: seq<byte>, number: nat)
    requires number > 0
    ensures Na1Sq1Run(body, number) == Na1Sq1Strides(body, number)
  {
    var size := |body| / number;
    if size > 0 {
      assert Rounds(|body|, number) == number;
      Na1Sq1FromStart(body, size, number);
    } else {
      assert Rounds(|body|, number) == 0 && number * size == 0;
    }
  }

  /** All `number` rounds at a positive stride `size`. */
  lemma Na1Sq1FromStart(body: seq<byte>, size: nat, number: nat)
    requires size > 0 && number > 0
    ensures Na1Sq1From(body, size, number * size, 0) ==
      if size * (number - 1) + 3 > |body| then Panic(IndexOutOfRange)
      else Ok(Na1Sq1Cores(body, size, number))
  {
    assert number * size == size * number && size * 0 == 0;
    Na1Sq1FromClosed(body, size, number, 0);
    if size * (number - 1) + 3 <= |body| {
      assert Na1Sq1Cores(body, size, number)[0..] == Na1Sq1Cores(body, size, number);
    }
  }

  /** One value and its QDS read at `p`, as both loops of parseM_ME_NA_1 read
      them (m_me_na_1.go:75-80 and 93-98). The error of the value decoder is
      discarded, as the source does; it cannot occur on two octets. */
  method ReadCore9(body: seq<byte>, p: nat) returns (c: Core9)
    requires p + 3 <= |body|
    ensures c == Core9At(body, p)
  {
    var decoded := DecodeInt16(body[p .. p + 2]);
    var value := if decoded.Ok? then decoded.value else 0;
    var qds := ParseQds(body[p + 2]);
    c := Core9(value, qds);
  }

  /** One SQ=0 object read at `p` (m_me_na_1.go:70-82): the three address
      octets with a zero octet on top, read little-endian, then a core. */
  method ReadNa1Element(body: seq<byte>, p: nat) returns (e: Na1Element)
    requires p + 6 <= |body|
    ensures e == Na1ElementAt(body, p)
  {
    var address := LittleEndian24(body[p], body[p + 1], body[p + 2]);
    var core := ReadCore9(body, p + 3);
    e := Na1Element(address, core);
  }

  /** The SQ=0 loop of parseM_ME_NA_1 (m_me_na_1.go:68-83). */
  method ReadNa1Sq0Run(body: seq<byte>, number: nat) returns (r: Outcome<seq<Na1Element>>)
    requires number > 0
    ensures r == Na1Sq0Run(body, number)
  {
    var size := |body| / number;
    var limit := number * size;
    assert size > 0 || limit == 0;
    var elements: seq<Na1Element> := [];
    var i := 0;
    PrefixedNil(Na1Sq0From(body, size, limit, 0));
    while i < limit
      invariant Na1Sq0From(body, size, limit, 0) == Prefixed(elements, Na1Sq0From(body, size, limit, i))
      decreases limit - i
    {
      if i + 5 >= |body| {
        return Panic(IndexOutOfRange);
      }
      var e := ReadNa1Element(body, i);
      PrefixedSnoc(elements, e, Na1Sq0From(body, size, limit, i + size));
      elements := elements + [e];
      i := i + size;
    }
    PrefixedDone(elements);
    return Ok(elements);
  }

  /** The SQ=1 loop of parseM_ME_NA_1 (m_me_na_1.go:91-100). */
  method ReadNa1Sq1Run(body: seq<byte>, number: nat) returns (r: Outcome<seq<Core9>>)
    requires number > 0
    ensures r == Na1Sq1Run(body, number)
  {
    var size := |body| / number;
    var limit := number * size;
    assert size > 0 || limit == 0;
    var cores: seq<Core9> := [];
    var i := 0;
    PrefixedNil(Na1Sq1From(body, size, limit, 0));
    while i < limit
      invariant Na1Sq1From(body, size, limit, 0) == Prefixed(cores, Na1Sq1From(body, size, limit, i))
      decreases limit - i
    {
      if i + 2 >= |body| {
        return Panic(IndexOutOfRange);
      }
      var c := ReadCore9(body, i);
      PrefixedSnoc(cores, c, Na1Sq1From(body, size, limit, i + size));
      cores := cores + [c];
      i := i + size;
    }
    PrefixedDone(cores);
    return Ok(cores);
  }

  /** The SQ=0 branch of parseM_ME_NA_1 (m_me_na_1.go:64-84). */
  method ParseNa1Sq0(asdu: seq<byte>, number: nat) returns (r: Outcome<Na1Body>)
    ensures r == DecodeNa1Sq0Objects(asdu, number)
  {
    if |asdu| < 6 {
      return Panic(IndexOutOfRange);
    }
    var body := asdu[6..];
    if number == 0 {
      return Panic(DivideByZero);
    }
    var run := ReadNa1Sq0Run(body, number);
    Na1Sq0RunClosed(body, number);
    if run.Panic? {
      return Panic(IndexOutOfRange);
    }
    return Ok(Na1Sq0(run.value));
  }

  /** The SQ=1 branch of parseM_ME_NA_1 (m_me_na_1.go:85-101). */
  method ParseNa1Sq1(asdu: seq<byte>, number: nat) returns (r: Outcome<Na1Body>)
    ensures r == DecodeNa1Sq1Objects(asdu, number)
  {
    if |asdu| < 9 {
      return Panic(IndexOutOfRange);
    }
    var address := LittleEndian24(asdu[6], asdu[7], asdu[8]);
    var body := asdu[9..];
    if number == 0 {
      return Panic(DivideByZero);
    }
    var run := ReadNa1Sq1Run(body, number);
    Na1Sq1RunClosed(body, number);
    if run.Panic? {
      return Panic(IndexOutOfRange);
    }
    return Ok(Na1Sq1(address, run.value));
  }

  /** parseM_ME_NA_1 (m_me_na_1.go:58-103). */
  method ParseNa1(asdu: seq<byte>, vsq: byte) returns (r: Outcome<Na1Body>)
    ensures r == DecodeNa1(asdu, vsq)
  {
    var sq := SqBit(vsq);
    var number := VsqCount(vsq);
    if sq == 0 {
      r := ParseNa1Sq0(asdu, number);
    } else {
      r := ParseNa1Sq1(asdu, number);
    }
  }

  /** A core as it reads back after encoding: only the overflow flag of its
      QDS survives ParseQds. */
  function Core9ReadBack(c: Core9): (r: Core9)
    ensures r.value == c.value && r.qds == Qds(c.qds.ov, false, false, false, false)
  {
    Core9(c.value, ParseQds(QdsByte(c.qds)))
  }

  /** SQ=1 round trip: parsing a six-octet header followed by an encoded run,
      whose qualifier declares the run's length, returns the 24-bit address
      and the run, up to the QDS flags ParseQds cannot read. */
  lemma Na1Sq1RoundTrip(header: seq<byte>, vsq: byte, address: uint32, cores: seq<Core9>)
    requires |header| == 6 && address < 0x100_0000
    requires SqBit(vsq) == 1 && VsqCount(vsq) == |cores| > 0
    ensures DecodeNa1(header + Na1Sq1Bytes(address, cores), vsq) ==
      Ok(Na1Sq1(address, seq(|cores|, k requires 0 <= k < |cores| => Core9ReadBack(cores[k]))))
  {
    var asdu := header + Na1Sq1Bytes(address, cores);
    var n := |cores|;
    var want := seq(n, k requires 0 <= k < n => Core9ReadBack(cores[k]));
    Na1Sq1AddressAt(header, address, cores);
    forall k | 0 <= k < n ensures Core9ReadFrom(asdu, 9 + 3 * k, want[k]) {
      Na1Sq1CoreAt(header, address, cores, k);
    }
    Na1Sq1DecodeExact(asdu, address, want);
  }

  /** An ASDU of exactly three octets per declared core after the address,
      each holding its core, decodes to that address and those cores. */
  lemma Na1Sq1DecodeExact(asdu: seq<byte>, address: uint32, want: seq<Core9>)
    requires |want| > 0 && |asdu| == 9 + 3 * |want|
    requires LittleEndian24(asdu[6], asdu[7], asdu[8]) == address
    requires forall k :: 0 <= k < |want| ==> Core9ReadFrom(asdu, 9 + 3 * k, want[k])
    ensures DecodeNa1Sq1Objects(asdu, |want|) == Ok(Na1Sq1(address, want))
  {
    var n := |want|;
    Na1Sq1ExactStrides(|asdu| - 9, n);
    var r := DecodeNa1Sq1Objects(asdu, n);
    assert r.Ok?;
    forall k | 0 <= k < n ensures r.value.cores[k] == want[k] {
      assert Core9ReadFrom(asdu, 9 + 3 * k, r.value.cores[k]);
    }
    assert r.value.cores == want;
  }

  /** A body of exactly three octets per object, for a qualifier that
      declares them all, is cut into strides of three and read in full. */
  lemma Na1Sq1ExactStrides(len: nat, n: nat)
    requires n > 0 && len == 3 * n
    ensures len / n == 3 && Rounds(len, n) == n && len / n * (n - 1) + 3 == len
  {
    ExactQuotient(3, n);
  }

  /** The address of an encoded run reads back from octets 6..8. */
  lemma Na1Sq1AddressAt(header: seq<byte>, address: uint32, cores: seq<Core9>)
    requires |header| == 6 && address < 0x100_0000
    ensures var asdu := header + Na1Sq1Bytes(address, cores);
      LittleEndian24(asdu[6], asdu[7], asdu[8]) == address
  {
    var enc := Na1Sq1Bytes(address, cores);
    var ab := Address24Bytes(address);
    assert enc[0] == ab[0] && enc[1] == ab[1] && enc[2] == ab[2] by {
      assert enc[..3] == ab;
    }
    var asdu := header + enc;
    assert asdu[6] == enc[0] && asdu[7] == enc[1] && asdu[8] == enc[2];
  }

  /** Core `k` of an encoded run reads back from its place in the ASDU. */
  lemma Na1Sq1CoreAt(header: seq<byte>, address: uint32, cores: seq<Core9>, k: nat)
    requires |header| == 6 && k < |cores|
    ensures Core9ReadFrom(header + Na1Sq1Bytes(address, cores), 9 + 3 * k, Core9ReadBack(cores[k]))
  {
    var asdu := header + Na1Sq1Bytes(address, cores);
    var body := ConcatMap(cores, Core9Bytes);
    assert asdu[9..] == body;
    ConcatMapSlice(cores, Core9Bytes, CORE_9_LEN, k);
    assert asdu[9 + 3 * k .. 12 + 3 * k] == Core9Bytes(cores[k]) by {
      assert body[3 * k .. 3 * k + 3] == Core9Bytes(cores[k]);
    }
    Core9BytesReadBack(asdu, 9 + 3 * k, cores[k]);
  }

  /** The three octets of an encoded core read back as Core9ReadBack says. */
  lemma Core9BytesReadBack(asdu: seq<byte>, p: nat, c: Core9)
    requires p + 3 <= |asdu| && asdu[p .. p + 3] == Core9Bytes(c)
    ensures Core9ReadFrom(asdu, p, Core9ReadBack(c))
  {
    var part := Core9Bytes(c);
    assert asdu[p] == part[0] && asdu[p + 1] == part[1] && asdu[p + 2] == part[2];
    var u := (c.value as int) % 65536;
    assert part[..2] == Uint16Bytes(u);
    Uint16BytesValue(u);
    assert Signed16(u) == c.value;
  }

  /** SQ=0: what ConvertNa1Sq0 produces for a non-empty list, behind a
      six-octet header whose qualifier declares the list's length, is cut
      into five-octet strides while each object is read from six octets, so
      the parser indexes past the end. */
  lemma Na1Sq0EncodingPanics(header: seq<byte>, vsq: byte, es: seq<Na1Element>)
    requires |header| == 6
    requires SqBit(vsq) == 0 && VsqCount(vsq) == |es| > 0
    ensures DecodeNa1(header + Na1Sq0Bytes(es), vsq) == Panic(IndexOutOfRange)
  {
    var asdu := header + Na1Sq0Bytes(es);
    var n := |es|;
    assert |asdu| - 6 == 5 * n;
    ExactQuotient(5, n);
  }

  /** The value decoder inverts the `int16` encoder on every pair of octets. */
  lemma Int16BytesOfDecode(b: seq<byte>)
    requires |b| == 2
    ensures DecodeInt16(b).Ok? && Int16Bytes(DecodeInt16(b).value) == b
  {
    assert DecodeInt16(b) == Ok(Signed16(LittleEndian16(b[0], b[1])));
    Int16BytesOfSigned(b[0], b[1]);
    assert [b[0], b[1]] == b;
  }

  lemma Int16BytesOfSigned(lo: byte, hi: byte)
    ensures Int16Bytes(Signed16(LittleEndian16(lo, hi))) == [lo, hi]
  {
    var u := LittleEndian16(lo, hi);
    assert (Signed16(u) as int) % 65536 == u;
    Uint16BytesOf(lo, hi);
  }
}
