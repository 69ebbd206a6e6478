/** Shared vocabulary of the model: octets, Go's int16 arithmetic, the outcome
    of an operation (a value, a returned error, or a Go runtime panic), and the
    byte-order helpers of the encoding/binary package that the codec uses.
    Octets are held as their values 0..255, so the Go code's masks and shifts
    by constants are written as the divisions and remainders they amount to:
    `b & 0x03` is `b % 4`, `b >> 7` is `b / 128`, `b & 0x7F` is `b % 128`. */
module Wire {

  /** An octet on the wire (Go `byte`), as its value 0..255. */
  type byte = x: int | 0 <= x < 256

  /** A Go `uint32`. */
  type uint32 = x: int | 0 <= x < 0x1_0000_0000

  /** A value of Go's `int16`. */
  type int16 = x: int | -32768 <= x <= 32767

  /** The error values the code returns (the Go code returns formatted strings;
      the model keeps only which check failed). */
  datatype Fault =
    | ApduTooShort                              // apdu.go:44-46
    | MissingStartByte                          // apdu.go:47-50
    | UnknownFrameType(frameType: byte)         // apci.go:48-49
    | AsduTooShort                              // parse.go:9-11
    | UnknownTypeId(typeId: byte)               // parse.go:61-62 and 27-28
    | CountMismatch(found: int, declared: int)  // m_me_nc_1.go:101-103, 122-124
    | ValueTooShort                             // m_me_na_1.go:106-108
    | UnsupportedAsduType(typeId: byte)         // client.go:475-476
    | UnknownElementType                        // client.go:472-473
    | ReadFailed                                // socket read error
    | WriteFailed                               // socket write error
    | NotConfirmed                              // client.go:190-192, 216-218, 242-244
    | InterrogationUnconfirmed                  // client.go:297-300

  /** The Go runtime panics the code can run into. */
  datatype PanicKind =
    | IndexOutOfRange
    | NilDereference
    | DivideByZero
    | NilMapWrite
    | FailedTypeAssertion

  /** What a Go call produces: a value, an error it returns, or a panic. */
  datatype Outcome<+T> = Ok(value: T) | Err(fault: Fault) | Panic(kind: PanicKind)

  /** The error or panic of an outcome that holds no value, as an outcome of
      another type: how a Go caller hands a callee's failure back. */
  function Propagate<T, U>(o: Outcome<T>): (r: Outcome<U>)
    requires !o.Ok?
    ensures r.Err? == o.Err? && r.Panic? == o.Panic?
    ensures r.Err? ==> r.fault == o.fault
    ensures r.Panic? ==> r.kind == o.kind
  {
    if o.Err? then Err(o.fault) else Panic(o.kind)
  }

  /** A Go pointer or interface value that may be nil. */
  datatype Option<+T> = None | Some(value: T)

  /** Go's conversion of an integer to `int16`: keep the low 16 bits, two's complement. */
  function Wrap16(x: int): (r: int16)
    ensures (r - x) % 65536 == 0
    ensures -32768 <= x <= 32767 ==> r == x
  {
    (x + 32768) % 65536 - 32768
  }

  /** The signed reading of a 16-bit pattern held as 0..65535. */
  function Signed16(u: int): (r: int16)
    requires 0 <= u < 65536
    ensures (r - u) % 65536 == 0
    ensures u < 32768 <==> r >= 0
  {
    if u < 32768 then u else u - 65536
  }

  /** The one-bit masks that occur in the code. */
  predicate IsBit(bit: int)
  {
    bit == 0x01 || bit == 0x02 || bit == 0x04 || bit == 0x08 ||
    bit == 0x10 || bit == 0x20 || bit == 0x40 || bit == 0x80
  }

  /** Bit `bit` of `b` is set. */
  predicate BitSet(b: byte, bit: int)
    requires IsBit(bit)
  {
    b as int / bit % 2 == 1
  }

  /** `b & bit` for a one-bit mask: `bit` when that bit of `b` is set, else 0. */
  function BitAnd(b: byte, bit: int): (r: byte)
    requires IsBit(bit)
    ensures r == 0 || r == bit
    ensures r != 0 <==> BitSet(b, bit)
  {
    b as int / bit % 2 * bit
  }

  /** The SQ bit of a variable-structure qualifier, `vsq >> 7`. */
  function SqBit(vsq: byte): (sq: byte)
    ensures sq == 0 || sq == 1
    ensures sq == 1 <==> BitSet(vsq, 0x80)
  {
    vsq / 128
  }

  /** The object count of a variable-structure qualifier, `vsq & 0x7F`. */
  function VsqCount(vsq: byte): (n: nat)
    ensures n < 128
  {
    vsq % 128
  }

  /** `binary.BigEndian.Uint32` on four octets. */
  function BigEndian32(b: seq<byte>): uint32
    requires |b| == 4
  {
    b[0] as int * 0x100_0000 + b[1] as int * 0x1_0000 + b[2] as int * 0x100 + b[3] as int
  }

  /** The four octets `byte(v >> 24), byte(v >> 16), byte(v >> 8), byte(v)`. */
  function BigEndianBytes(v: uint32): (r: seq<byte>)
    ensures |r| == 4 && BigEndian32(r) == v
  {
    BigEndianSplit(v);
    [v / 0x100_0000, v / 0x1_0000 % 0x100, v / 0x100 % 0x100, v % 0x100]
  }

  lemma BigEndianSplit(v: uint32)
    ensures v / 0x1_0000 == v / 0x100_0000 * 0x100 + v / 0x1_0000 % 0x100
    ensures v / 0x100 == v / 0x1_0000 * 0x100 + v / 0x100 % 0x100
    ensures v == v / 0x100 * 0x100 + v % 0x100
    ensures v / 0x100_0000 < 0x100
  {
  }

  /** `binary.LittleEndian.Uint16` on two octets. */
  function LittleEndian16(lo: byte, hi: byte): (r: nat)
    ensures r < 65536
  {
    lo as int + 256 * hi as int
  }

  /** `binary.LittleEndian.Uint32` on three octets followed by a zero octet. */
  function LittleEndian24(b0: byte, b1: byte, b2: byte): (r: uint32)
    ensures r < 0x100_0000
  {
    b0 as int + 0x100 * b1 as int + 0x1_0000 * b2 as int
  }

  /** The concatenation of `f(x)` over `s`, built left to right as the source's
      `append` loops build it. */
  function ConcatMap<T>(s: seq<T>, f: T -> seq<byte>): seq<byte>
  {
    if s == [] then [] else ConcatMap(s[..|s| - 1], f) + f(s[|s| - 1])
  }

  /** Every part produced by `f` on `s` has width `w`. */
  predicate UniformWidth<T>(s: seq<T>, f: T -> seq<byte>, w: nat)
  {
    forall k :: 0 <= k < |s| ==> |f(s[k])| == w
  }

  lemma {:induction false} ConcatMapLength<T>(s: seq<T>, f: T -> seq<byte>, w: nat)
    requires UniformWidth(s, f, w)
    ensures |ConcatMap(s, f)| == w * |s|
  {
    if s != [] {
      var n := |s| - 1;
      assert UniformWidth(s[..n], f, w) by {
        forall k | 0 <= k < n ensures |f(s[..n][k])| == w {
          assert s[..n][k] == s[k];
        }
      }
      ConcatMapLength(s[..n], f, w);
      assert w * |s| == w * n + w;
    }
  }

  /** Octet `j` of part `k` of a uniform concatenation sits at `w * k + j`. */
  lemma {:induction false} ConcatMapAt<T>(s: seq<T>, f: T -> seq<byte>, w: nat, k: nat, j: nat)
    requires UniformWidth(s, f, w)
    requires k < |s| && j < w
    ensures w * k + j < |ConcatMap(s, f)|
    ensures ConcatMap(s, f)[w * k + j] == f(s[k])[j]
  {
    var n := |s| - 1;
    assert UniformWidth(s[..n], f, w) by {
      forall i | 0 <= i < n ensures |f(s[..n][i])| == w {
        assert s[..n][i] == s[i];
      }
    }
    ConcatMapLength(s[..n], f, w);
    ConcatMapLength(s, f, w);
    assert w * |s| == w * n + w;
    if k < n {
      ConcatMapAt(s[..n], f, w, k, j);
      assert w * k + j < w * n by {
        assert w * k + w <= w * n by { MulMonotone(w, k + 1, n); }
      }
      assert s[..n][k] == s[k];
    } else {
      assert w * k == w * n;
    }
  }

  /** The `w` octets of part `k` of a uniform concatenation. */
  lemma ConcatMapSlice<T>(s: seq<T>, f: T -> seq<byte>, w: nat, k: nat)
    requires UniformWidth(s, f, w)
    requires k < |s|
    ensures w * k + w <= |ConcatMap(s, f)|
    ensures ConcatMap(s, f)[w * k .. w * k + w] == f(s[k])
  {
    ConcatMapLength(s, f, w);
    MulMonotone(w, k + 1, |s|);
    var part := ConcatMap(s, f)[w * k .. w * k + w];
    assert |part| == w == |f(s[k])|;
    forall j | 0 <= j < w ensures part[j] == f(s[k])[j] {
      ConcatMapAt(s, f, w, k, j);
    }
  }

  lemma MulMonotone(w: nat, a: nat, b: nat)
    requires a <= b
    ensures w * a <= w * b
  {
  }
}
