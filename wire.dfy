/**
 * Byte-level building blocks shared by the client: bytes, the 4-byte integer
 * store that the client does through `(int32_t*)` casts, opaque 4-byte floats,
 * quantization ranges, and readers that undo each encoding.
 */
module Wire {

  newtype byte = x: int | 0 <= x < 256

  type Bytes = seq<byte>

  datatype Option<T> = None | Some(value: T) {
    predicate IsFailure() {
      None?
    }

    function PropagateFailure<U>(): Option<U>
      requires None?
    {
      None
    }

    function Extract(): T
      requires Some?
    {
      value
    }
  }

  function Min(a: int, b: int): int
  {
    if a < b then a else b
  }

  const INT32_MODULUS: int := 0x1_0000_0000

  predicate IsInt32(v: int)
  {
    -0x8000_0000 <= v < 0x8000_0000
  }

  /** The value a C `int` holds after an integer `v` is converted to it (two's complement wrap-around). */
  function ToInt32(v: int): (w: int)
    ensures IsInt32(w)
    ensures (w - v) % INT32_MODULUS == 0
    ensures IsInt32(v) ==> w == v
    ensures 0x8000_0000 <= v < INT32_MODULUS ==> w == v - INT32_MODULUS
  {
    var u := v % INT32_MODULUS;
    if u < 0x8000_0000 then u else u - INT32_MODULUS
  }

  /**
   * The four bytes that a 32-bit store of `v` leaves in memory on the
   * little-endian host: the low 32 bits of `v`, least significant byte first.
   */
  function EncodeInt32(v: int): (b: Bytes)
    ensures |b| == 4
  {
    var u0 := v % INT32_MODULUS;
    var u1 := u0 / 256;
    var u2 := u1 / 256;
    [(u0 % 256) as byte, (u1 % 256) as byte, (u2 % 256) as byte, (u2 / 256) as byte]
  }

  /** The signed 32-bit value that a 4-byte load from `b` yields. */
  function DecodeInt32(b: Bytes): (v: int)
    requires |b| == 4
    ensures IsInt32(v)
  {
    var u := b[0] as int + 256 * (b[1] as int + 256 * (b[2] as int + 256 * b[3] as int));
    if u < 0x8000_0000 then u else u - INT32_MODULUS
  }

  /** Loading what a store of `v` wrote gives back `v` truncated to 32 bits. */
  lemma DecodeEncodeInt32Wraps(v: int)
    ensures DecodeInt32(EncodeInt32(v)) == ToInt32(v)
  {
    var u0 := v % INT32_MODULUS;
    var u1 := u0 / 256;
    var u2 := u1 / 256;
    assert u0 == u0 % 256 + 256 * u1;
    assert u1 == u1 % 256 + 256 * u2;
    assert u2 == u2 % 256 + 256 * (u2 / 256);
  }

  /** On 32-bit values the store and the load are inverse. */
  lemma DecodeEncodeInt32(v: int)
    requires IsInt32(v)
    ensures DecodeInt32(EncodeInt32(v)) == v
  {
    DecodeEncodeInt32Wraps(v);
  }

  /** Two different 32-bit values are never stored as the same bytes. */
  lemma EncodeInt32Injective(v: int, w: int)
    requires IsInt32(v) && IsInt32(w)
    requires EncodeInt32(v) == EncodeInt32(w)
    ensures v == w
  {
    DecodeEncodeInt32(v);
    DecodeEncodeInt32(w);
  }

  /** Reads one 32-bit integer off the front of `b`. */
  function ReadInt32(b: Bytes): (r: Option<(int, Bytes)>)
    ensures r.Some? <==> |b| >= 4
  {
    if |b| < 4 then None else Some((DecodeInt32(b[..4]), b[4..]))
  }

  lemma ReadEncodedInt32(v: int, rest: Bytes)
    requires IsInt32(v)
    ensures ReadInt32(EncodeInt32(v) + rest) == Some((v, rest))
  {
    var b := EncodeInt32(v) + rest;
    assert b[..4] == EncodeInt32(v);
    assert b[4..] == rest;
    DecodeEncodeInt32(v);
  }

  /** Reads `n` raw bytes off the front of `b`. */
  function ReadBytes(b: Bytes, n: int): (r: Option<(Bytes, Bytes)>)
    ensures r.Some? <==> 0 <= n <= |b|
  {
    if 0 <= n <= |b| then Some((b[..n], b[n..])) else None
  }

  lemma ReadWrittenBytes(x: Bytes, rest: Bytes)
    ensures ReadBytes(x + rest, |x|) == Some((x, rest))
  {
    assert (x + rest)[..|x|] == x;
    assert (x + rest)[|x|..] == rest;
  }

  /**
   * The bytes `count` items of `width` bytes take, `count * width`, written
   * as repeated addition; SpanIsProduct relates the two.
   */
  function Span(count: int, width: int): (r: int)
    ensures count >= 0 && width >= 0 ==> r >= 0
    decreases count
  {
    if count <= 0 then 0 else Span(count - 1, width) + width
  }

  lemma {:induction false} SpanIsProduct(count: int, width: int)
    requires count >= 0
    ensures Span(count, width) == count * width
    decreases count
  {
    if count > 0 {
      SpanIsProduct(count - 1, width);
    }
  }

  /** The items of two runs, laid end to end, take the bytes of both runs. */
  lemma SpanAdd(x: int, y: int, width: int)
    requires x >= 0 && y >= 0
    ensures Span(x + y, width) == Span(x, width) + Span(y, width)
  {
    SpanIsProduct(x, width);
    SpanIsProduct(y, width);
    SpanIsProduct(x + y, width);
  }

  /** Fewer items of the same width take no more bytes. */
  lemma SpanMonotone(x: int, y: int, width: int)
    requires 0 <= x <= y && width >= 0
    ensures Span(x, width) <= Span(y, width)
  {
    SpanAdd(x, y - x, width);
  }

  /** A sequence of integers stored one after another. */
  function EncodeInts(xs: seq<int>): (b: Bytes)
    ensures |b| == 4 * |xs|
  {
    if xs == [] then [] else EncodeInt32(xs[0]) + EncodeInts(xs[1..])
  }

  lemma {:induction false} EncodeIntsAppend(xs: seq<int>, x: int)
    ensures EncodeInts(xs + [x]) == EncodeInts(xs) + EncodeInt32(x)
  {
    if xs == [] {
      assert xs + [x] == [x];
    } else {
      assert (xs + [x])[1..] == xs[1..] + [x];
      EncodeIntsAppend(xs[1..], x);
    }
  }

  predicate AllInt32(xs: seq<int>)
  {
    forall i :: 0 <= i < |xs| ==> IsInt32(xs[i])
  }

  /** Reads `count` 32-bit integers off the front of `b`. */
  function ReadInts(b: Bytes, count: nat): (r: Option<(seq<int>, Bytes)>)
    ensures r.Some? ==> |r.value.0| == count
    decreases count
  {
    if count == 0 then Some(([], b))
    else match ReadInt32(b)
      case None => None
      case Some((x, rest)) =>
        match ReadInts(rest, count - 1)
        case None => None
        case Some((xs, rest')) => Some(([x] + xs, rest'))
  }

  lemma {:induction false} ReadEncodedInts(xs: seq<int>, rest: Bytes)
    requires AllInt32(xs)
    ensures ReadInts(EncodeInts(xs) + rest, |xs|) == Some((xs, rest))
  {
    if xs != [] {
      assert EncodeInts(xs) + rest == EncodeInt32(xs[0]) + (EncodeInts(xs[1..]) + rest);
      ReadEncodedInt32(xs[0], EncodeInts(xs[1..]) + rest);
      ReadEncodedInts(xs[1..], rest);
      assert [xs[0]] + xs[1..] == xs;
    } else {
      assert EncodeInts(xs) + rest == rest;
    }
  }

  /** A 32-bit float, kept as the four bytes of its bit pattern; its value is never interpreted. */
  type FloatBits = b: Bytes | |b| == 4 witness [0, 0, 0, 0]

  /** One quantization range: a (min, max) pair of floats. */
  datatype Range = Range(min: FloatBits, max: FloatBits)

  /** A range as two consecutive float stores, min first. */
  function EncodeRange(r: Range): (b: Bytes)
    ensures |b| == 8
  {
    r.min + r.max
  }

  function EncodeRanges(rs: seq<Range>): (b: Bytes)
    ensures |b| == 8 * |rs|
  {
    if rs == [] then [] else EncodeRange(rs[0]) + EncodeRanges(rs[1..])
  }

  lemma {:induction false} EncodeRangesAppend(rs: seq<Range>, r: Range)
    ensures EncodeRanges(rs + [r]) == EncodeRanges(rs) + EncodeRange(r)
  {
    if rs == [] {
      assert rs + [r] == [r];
    } else {
      assert (rs + [r])[1..] == rs[1..] + [r];
      EncodeRangesAppend(rs[1..], r);
    }
  }

  /** Reads `count` (min, max) pairs off the front of `b`. */
  function ReadRanges(b: Bytes, count: nat): (r: Option<(seq<Range>, Bytes)>)
    ensures r.Some? ==> |r.value.0| == count
    decreases count
  {
    if count == 0 then Some(([], b))
    else if |b| < 8 then None
    else
      match ReadRanges(b[8..], count - 1)
      case None => None
      case Some((rs, rest)) => Some(([Range(b[..4], b[4..8])] + rs, rest))
  }

  lemma {:induction false} ReadEncodedRanges(rs: seq<Range>, rest: Bytes)
    ensures ReadRanges(EncodeRanges(rs) + rest, |rs|) == Some((rs, rest))
  {
    if rs != [] {
      var b := EncodeRanges(rs) + rest;
      assert b == EncodeRange(rs[0]) + (EncodeRanges(rs[1..]) + rest);
      assert b[8..] == EncodeRanges(rs[1..]) + rest;
      assert b[..4] == rs[0].min && b[4..8] == rs[0].max;
      ReadEncodedRanges(rs[1..], rest);
      assert [rs[0]] + rs[1..] == rs;
    } else {
      assert EncodeRanges(rs) + rest == rest;
    }
  }

  /** The parts laid end to end, in order. */
  function Flatten(parts: seq<Bytes>): Bytes
  {
    if parts == [] then [] else parts[0] + Flatten(parts[1..])
  }

  lemma {:induction false} FlattenAppend(parts: seq<Bytes>, p: Bytes)
    ensures Flatten(parts + [p]) == Flatten(parts) + p
  {
    if parts == [] {
      assert parts + [p] == [p];
    } else {
      assert (parts + [p])[1..] == parts[1..] + [p];
      FlattenAppend(parts[1..], p);
    }
  }

  predicate IsAscii(s: string)
  {
    forall i :: 0 <= i < |s| ==> s[i] as int < 128
  }

  /** The bytes of an ASCII text, one per character. */
  function Ascii(s: string): (b: Bytes)
    requires IsAscii(s)
    ensures |b| == |s|
    ensures forall i :: 0 <= i < |s| ==> b[i] as int == s[i] as int
  {
    seq(|s|, i requires 0 <= i < |s| => s[i] as int as byte)
  }
}
