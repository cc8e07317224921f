/** The integer parts of the video fingerprinter: how many frames it samples,
    which frame indices, how the bit string is brought to its fixed length,
    and how the bits are packed into hexadecimal.

    Decoding video frames and computing the grid features and their medians
    are floating-point work on foreign libraries; they are not modelled. */
module Fingerprint {
  import opened Wrappers

  // ---------------------------------------------------------------------------
  // Frames to sample
  // ---------------------------------------------------------------------------

  function Min(a: int, b: int): int {
    if a <= b then a else b
  }

  /** `frames_needed` as `__init__` sets it: `min(16, frames_to_sample)` when
      given, otherwise `min(16, ceil(fingerprint_length / grid²))`, which
      divides by zero for a zero grid. */
  function FramesNeeded(fingerprintLength: nat, gridSize: int, framesToSample: Option<int>): (r: Result<int>)
    ensures framesToSample.Some? ==> r == Success(Min(16, framesToSample.value))
    ensures framesToSample.None? && gridSize == 0 ==> r == Failure(ZeroDivisionError)
    ensures r.Success? ==> r.value <= 16
    ensures framesToSample.None? && gridSize != 0 ==>
      var bits := gridSize * gridSize;
      && r.Success? && 0 <= r.value
      && (r.value < 16 ==> r.value * bits >= fingerprintLength && (r.value - 1) * bits < fingerprintLength)
      && (r.value == 16 <==> 15 * bits < fingerprintLength)
  {
    match framesToSample
    case Some(k) => Success(Min(16, k))
    case None =>
      var bits := gridSize * gridSize;
      if bits == 0 then Failure(ZeroDivisionError)
      else
        var c := (fingerprintLength + bits - 1) / bits;
        assert c * bits >= fingerprintLength && (c - 1) * bits < fingerprintLength by {
          CeilDiv(fingerprintLength, bits);
        }
        assert c >= 16 <==> 15 * bits < fingerprintLength by {
          CeilAtLeast(fingerprintLength, bits, c, 16);
        }
        Success(Min(16, c))
  }

  /** `(n + d - 1) / d` is the ceiling of `n / d`. */
  lemma CeilDiv(n: nat, d: int)
    requires d > 0
    ensures ((n + d - 1) / d) * d >= n
    ensures ((n + d - 1) / d - 1) * d < n
  {
    var q := (n + d - 1) / d;
    var m := (n + d - 1) % d;
    assert n + d - 1 == q * d + m;
  }

  /** A ceiling `c` of `n / d` reaches `k` exactly when `(k - 1) * d < n`. */
  lemma CeilAtLeast(n: nat, d: int, c: int, k: int)
    requires d > 0 && c * d >= n && (c - 1) * d < n
    ensures c >= k <==> (k - 1) * d < n
  {
    if c >= k {
      assert (k - 1) * d <= (c - 1) * d;
    } else {
      assert c * d <= (k - 1) * d;
    }
  }

  // ---------------------------------------------------------------------------
  // Uniform sampling
  // ---------------------------------------------------------------------------

  /** `list(range(n))`. */
  function Range(n: int): (r: seq<int>)
    ensures |r| == if n < 0 then 0 else n
    ensures forall i :: 0 <= i < |r| ==> r[i] == i
  {
    if n <= 0 then [] else Range(n - 1) + [n - 1]
  }

  /** `_uniform_sampling`: every frame when there are at most `framesNeeded`,
      otherwise `int(i * frameCount / framesNeeded)` for each `i` below
      `framesNeeded`, which divides by zero when `framesNeeded` is zero. The
      quotient is taken exactly; the float rounding of the source is not
      modelled. */
  function UniformSampling(frameCount: int, framesNeeded: int): (r: Result<seq<int>>)
    ensures frameCount <= framesNeeded ==> r == Success(Range(frameCount))
    ensures frameCount > framesNeeded && framesNeeded == 0 ==> r == Failure(ZeroDivisionError)
    ensures frameCount > framesNeeded > 0 ==>
      && r.Success?
      && |r.value| == framesNeeded
      && r.value[0] == 0
      && (forall i :: 0 <= i < |r.value| ==> 0 <= r.value[i] < frameCount)
      && (forall i, j :: 0 <= i < j < |r.value| ==> r.value[i] < r.value[j])
  {
    if frameCount <= framesNeeded then Success(Range(frameCount))
    else if framesNeeded == 0 then Failure(ZeroDivisionError)
    else if framesNeeded < 0 then Success([])
    else
      var s := seq(framesNeeded, i requires 0 <= i < framesNeeded => i * frameCount / framesNeeded);
      SampleBounds(frameCount, framesNeeded);
      Success(s)
  }

  /** The sampled indices are below the frame count and strictly increasing,
      because the step `frameCount / framesNeeded` exceeds one. */
  lemma SampleBounds(frameCount: int, framesNeeded: int)
    requires frameCount > framesNeeded > 0
    ensures forall i :: 0 <= i < framesNeeded ==> 0 <= i * frameCount / framesNeeded < frameCount
    ensures forall i, j :: 0 <= i < j < framesNeeded ==> i * frameCount / framesNeeded < j * frameCount / framesNeeded
  {
    forall i | 0 <= i < framesNeeded ensures 0 <= i * frameCount / framesNeeded < frameCount {
      SampleBelow(i, frameCount, framesNeeded);
    }
    forall i, j | 0 <= i < j < framesNeeded ensures i * frameCount / framesNeeded < j * frameCount / framesNeeded {
      SampleIncreasing(i, j, frameCount, framesNeeded);
    }
  }

  lemma SampleBelow(i: int, c: int, n: int)
    requires c > n > 0 && 0 <= i < n
    ensures 0 <= i * c / n < c
  {
    var a := i * c;
    MulNonNegative(i, c);
    MulLeft(i, n - 1, c);
    Distribute(n, c);
    DivBounds(a, n);
    var q := a / n;
    if q >= c {
      MulLeft(c, q, n);
      assert false;
    }
  }

  lemma SampleIncreasing(i: int, j: int, c: int, n: int)
    requires c > n > 0 && 0 <= i < j
    ensures i * c / n < j * c / n
  {
    var a, b := i * c, j * c;
    MulNonNegative(i, c);
    MulLeft(i + 1, j, c);
    Distribute(i + 1, c);
    DivBounds(a, n);
    DivBounds(b, n);
    var p, q := a / n, b / n;
    if q <= p {
      MulLeft(q, p, n);
      assert false;
    }
  }

  /** Euclidean division by a positive divisor. */
  lemma DivBounds(a: int, n: int)
    requires a >= 0 && n > 0
    ensures (a / n) * n <= a < (a / n) * n + n
  {
  }

  lemma Distribute(m: int, c: int)
    ensures (m - 1) * c == m * c - c
  {
  }

  lemma MulNonNegative(a: int, b: int)
    requires a >= 0 && b >= 0
    ensures a * b >= 0
  {
  }

  lemma MulLeft(a: int, b: int, c: int)
    requires a <= b && c >= 0
    ensures a * c <= b * c
  {
  }

  // ---------------------------------------------------------------------------
  // Fixed length
  // ---------------------------------------------------------------------------

  /** `[0] * n`. */
  function Zeros(n: nat): (r: seq<int>)
    ensures |r| == n && forall i :: 0 <= i < n ==> r[i] == 0
  {
    seq(n, _ => 0)
  }

  /** Pad with zeros or truncate to `length`, as the end of
      `_features_to_binary_simple` does on both of its paths. */
  function FitLength(binary: seq<int>, length: nat): (r: seq<int>)
    ensures |r| == length
    ensures forall i :: 0 <= i < length && i < |binary| ==> r[i] == binary[i]
    ensures forall i :: |binary| <= i < length ==> r[i] == 0
  {
    if |binary| < length then binary + Zeros(length - |binary|) else binary[..length]
  }

  /** Fitting twice to the same length changes nothing more. */
  lemma FitLengthIdempotent(binary: seq<int>, length: nat)
    ensures FitLength(FitLength(binary, length), length) == FitLength(binary, length)
  {
  }

  // ---------------------------------------------------------------------------
  // Bits to hexadecimal, least significant bit first
  // ---------------------------------------------------------------------------

  /** The bit a list entry stands for: any non-zero entry is set. */
  function BitOf(b: int): int {
    if b != 0 then 1 else 0
  }

  /** The bits of a list, as 0 and 1. */
  function Normalize(bits: seq<int>): (r: seq<int>)
    ensures |r| == |bits| && forall i :: 0 <= i < |bits| ==> r[i] == BitOf(bits[i])
  {
    seq(|bits|, i requires 0 <= i < |bits| => BitOf(bits[i]))
  }

  /** The value of up to eight bits, the first one least significant: the OR
      of `1 << i` over the set bits, which is their sum since the powers are
      distinct. */
  function BitsValue(b: seq<int>): (v: nat)
    ensures v < Pow2(|b|)
  {
    if |b| == 0 then 0 else BitOf(b[0]) + 2 * BitsValue(b[1..])
  }

  function Pow2(n: nat): (r: nat)
    ensures r >= 1
  {
    if n == 0 then 1 else 2 * Pow2(n - 1)
  }

  /** Bit `j` of `v`. */
  function Bit(v: nat, j: nat): int {
    if j == 0 then v % 2 else Bit(v / 2, j - 1)
  }

  /** `bytearray` filled by `_binary_to_hex_simple`: byte `k` holds bits
      `8k` to `8k + 7`. */
  function Pack(bits: seq<int>): (r: seq<nat>)
    ensures |r| == (|bits| + 7) / 8
    ensures forall k :: 0 <= k < |r| ==> r[k] < 256
    decreases |bits|
  {
    if |bits| == 0 then []
    else if |bits| <= 8 then
      assert Pow2(|bits|) <= Pow2(8) by { Pow2Monotone(|bits|, 8); }
      [BitsValue(bits)]
    else
      assert Pow2(8) == 256;
      [BitsValue(bits[..8])] + Pack(bits[8..])
  }

  lemma {:induction false} Pow2Monotone(a: nat, b: nat)
    requires a <= b
    ensures Pow2(a) <= Pow2(b)
    decreases b
  {
    if a < b {
      Pow2Monotone(a, b - 1);
    }
  }

  /** The eight bits of a byte, least significant first. */
  function ByteBits(v: nat): (r: seq<int>)
    ensures |r| == 8 && forall j :: 0 <= j < 8 ==> r[j] == Bit(v, j)
  {
    seq(8, j requires 0 <= j < 8 => Bit(v, j))
  }

  /** The bits of a sequence of bytes. */
  function Unpack(bytes: seq<nat>): (r: seq<int>)
    ensures |r| == 8 * |bytes|
  {
    if |bytes| == 0 then [] else ByteBits(bytes[0]) + Unpack(bytes[1..])
  }

  /** Bit `j` of the packed value of `b` is the `j`-th entry of `b`, set or
      not, and zero past the end of `b`. */
  lemma {:induction false} BitOfValue(b: seq<int>, j: nat)
    ensures Bit(BitsValue(b), j) == if j < |b| then BitOf(b[j]) else 0
    decreases j
  {
    var v := BitsValue(b);
    if |b| == 0 {
      ZeroBits(j);
    } else if j == 0 {
      assert v == BitOf(b[0]) + 2 * BitsValue(b[1..]);
    } else {
      assert v / 2 == BitsValue(b[1..]);
      BitOfValue(b[1..], j - 1);
    }
  }

  lemma {:induction false} ZeroBits(j: nat)
    ensures Bit(0, j) == 0
  {
    if j > 0 {
      ZeroBits(j - 1);
    }
  }

  /** Unpacking one packed chunk of at most eight bits gives the chunk back,
      zero-filled to eight. */
  lemma ChunkRoundTrip(b: seq<int>)
    requires |b| <= 8
    ensures ByteBits(BitsValue(b)) == Normalize(b) + Zeros(8 - |b|)
  {
    forall j | 0 <= j < 8 ensures ByteBits(BitsValue(b))[j] == (Normalize(b) + Zeros(8 - |b|))[j] {
      BitOfValue(b, j);
    }
  }

  /** The number of zero bits the last byte is filled with. */
  function PadLength(n: nat): nat {
    8 * ((n + 7) / 8) - n
  }

  /** Unpacking the packed bytes gives back the bits, zero-padded to a whole
      number of bytes. */
  lemma {:induction false} UnpackPack(bits: seq<int>)
    ensures Unpack(Pack(bits)) == Normalize(bits) + Zeros(PadLength(|bits|))
    decreases |bits|
  {
    if |bits| == 0 {
    } else if |bits| <= 8 {
      ChunkRoundTrip(bits);
      assert Pack(bits)[1..] == [];
      assert (|bits| + 7) / 8 == 1;
    } else {
      var head, tail := bits[..8], bits[8..];
      ChunkRoundTrip(head);
      UnpackPack(tail);
      assert Pack(bits)[0] == BitsValue(head) && Pack(bits)[1..] == Pack(tail);
      assert (|bits| + 7) / 8 == 1 + (|tail| + 7) / 8;
      assert Zeros(0) == [];
      assert Normalize(bits) == Normalize(head) + Normalize(tail);
      calc {
        Unpack(Pack(bits));
        ByteBits(BitsValue(head)) + Unpack(Pack(tail));
        (Normalize(head) + Zeros(0)) + (Normalize(tail) + Zeros(PadLength(|tail|)));
        (Normalize(head) + Normalize(tail)) + Zeros(PadLength(|bits|));
      }
    }
  }

  /** The lower-case hexadecimal digit of `n`. */
  function HexDigit(n: nat): (c: char)
    requires n < 16
    ensures ('0' <= c <= '9') || ('a' <= c <= 'f')
  {
    if n < 10 then ('0' as int + n) as char else ('a' as int + n - 10) as char
  }

  /** The value of a hexadecimal digit (lower-case, as `bytes.hex` writes
      them). */
  function HexValue(c: char): nat {
    if '0' <= c <= '9' then c as int - '0' as int
    else if 'a' <= c <= 'f' then c as int - 'a' as int + 10
    else 0
  }

  /** `bytes.hex()`: two digits per byte, high nibble first. */
  function Hex(bytes: seq<nat>): (r: string)
    requires forall k :: 0 <= k < |bytes| ==> bytes[k] < 256
    ensures |r| == 2 * |bytes|
    ensures forall i :: 0 <= i < |r| ==> ('0' <= r[i] <= '9') || ('a' <= r[i] <= 'f')
  {
    if |bytes| == 0 then ""
    else [HexDigit(bytes[0] / 16), HexDigit(bytes[0] % 16)] + Hex(bytes[1..])
  }

  /** `bytes.fromhex` on a string of an even number of digits. */
  function Unhex(s: string): (r: seq<nat>)
    ensures |r| == |s| / 2
  {
    if |s| < 2 then [] else [16 * HexValue(s[0]) + HexValue(s[1])] + Unhex(s[2..])
  }

  lemma {:induction false} UnhexHex(bytes: seq<nat>)
    requires forall k :: 0 <= k < |bytes| ==> bytes[k] < 256
    ensures Unhex(Hex(bytes)) == bytes
  {
    if |bytes| > 0 {
      var b := bytes[0];
      assert HexValue(HexDigit(b / 16)) == b / 16 && HexValue(HexDigit(b % 16)) == b % 16;
      UnhexHex(bytes[1..]);
      assert Hex(bytes)[2..] == Hex(bytes[1..]);
    }
  }

  /** `_binary_to_hex_simple`. */
  function BinaryToHex(binary: seq<int>): (r: string)
    ensures |r| == 2 * ((|binary| + 7) / 8)
    ensures forall i :: 0 <= i < |r| ==> ('0' <= r[i] <= '9') || ('a' <= r[i] <= 'f')
  {
    Hex(Pack(binary))
  }

  /** Decoding the hexadecimal string recovers the bits, LSB first within
      each byte: input bit `i` is set exactly when bit `i mod 8` of byte
      `i div 8` is, and the last byte is zero-filled. */
  lemma HexRoundTrip(binary: seq<int>)
    ensures Unpack(Unhex(BinaryToHex(binary))) == Normalize(binary) + Zeros(PadLength(|binary|))
  {
    UnhexHex(Pack(binary));
    UnpackPack(binary);
  }

  /** The fingerprint as `extract_fingerprint` forms it from the raw bits:
      fitted to the length, then packed. Its hexadecimal length depends only
      on the configured length. */
  lemma FingerprintLength(raw: seq<int>, length: nat)
    ensures |BinaryToHex(FitLength(raw, length))| == 2 * ((length + 7) / 8)
  {
  }
}
