/** The bit packer of the compressor: 12-bit codes are packed most-significant
    bit first into bytes, and a trailing half byte is left-justified and
    zero-padded.

    Two descriptions are given and proved equal. `Pack` is the declarative
    one (the codes' bits, concatenated, cut into bytes); `Emit` follows the
    Java code step by step, with a 32-bit `int` buffer, a bit count, and an
    output sink that keeps the low 8 bits of every `write` argument. `Unpack`
    is the inverse of `Pack`. */
module BitPacker {
  import opened Params
  import opened Arith

  // ---------------------------------------------------------------------------
  // Bit strings

  /** The value of a bit string read most-significant bit first. */
  function Val(bs: seq<bool>): nat
  {
    if |bs| == 0 then 0 else 2 * Val(bs[..|bs| - 1]) + (if bs[|bs| - 1] then 1 else 0)
  }

  /** The low `w` bits of `v`, most-significant first. */
  function Bits(v: nat, w: nat): (bs: seq<bool>)
    ensures |bs| == w
  {
    if w == 0 then [] else Bits(v / 2, w - 1) + [v % 2 == 1]
  }

  function Zeros(n: nat): (z: seq<bool>)
    ensures |z| == n
    ensures forall i :: 0 <= i < n ==> !z[i]
  {
    seq(n, _ => false)
  }

  lemma {:induction false} ValBound(bs: seq<bool>)
    ensures Val(bs) < Pow2(|bs|)
  {
    if |bs| > 0 {
      ValBound(bs[..|bs| - 1]);
    }
  }

  lemma {:induction false} ValAppend(a: seq<bool>, b: seq<bool>)
    ensures Val(a + b) == Val(a) * Pow2(|b|) + Val(b)
    decreases |b|
  {
    if |b| == 0 {
      assert a + b == a;
    } else {
      var b' := b[..|b| - 1];
      assert (a + b)[..|a + b| - 1] == a + b';
      ValAppend(a, b');
      var pw := Pow2(|b'|);
      assert Pow2(|b|) == 2 * pw;
      MulAssoc(Val(a), 2, pw);
    }
  }

  lemma {:induction false} ValZeros(n: nat)
    ensures Val(Zeros(n)) == 0
  {
    if n > 0 {
      assert Zeros(n)[..n - 1] == Zeros(n - 1);
      ValZeros(n - 1);
    }
  }

  /** Reading back the bits of a value that fits in `w` bits gives the value. */
  lemma {:induction false} ValBits(v: nat, w: nat)
    requires v < Pow2(w)
    ensures Val(Bits(v, w)) == v
  {
    if w > 0 {
      var bs := Bits(v, w);
      assert bs[..w - 1] == Bits(v / 2, w - 1);
      ValBits(v / 2, w - 1);
    }
  }

  /** Writing out the value of a bit string gives the bit string back. */
  lemma {:induction false} BitsVal(bs: seq<bool>)
    ensures Bits(Val(bs), |bs|) == bs
  {
    if |bs| > 0 {
      var init := bs[..|bs| - 1];
      var bit := if bs[|bs| - 1] then 1 else 0;
      DivMod(Val(init), 2, bit);
      BitsVal(init);
      assert bs == init + [bs[|bs| - 1]];
    }
  }

  // ---------------------------------------------------------------------------
  // Declarative packing

  predicate InCodeSpace(code: int) {
    0 <= code < CODE_SPACE
  }

  predicate CodesInRange(codes: seq<int>) {
    forall i :: 0 <= i < |codes| ==> InCodeSpace(codes[i])
  }

  /** The bit stream of a code sequence: each code as BITS bits, in order. */
  function CodeStream(codes: seq<int>): (bits: seq<bool>)
    requires CodesInRange(codes)
    ensures |bits| == BITS * |codes|
  {
    if |codes| == 0 then [] else Bits(codes[0], BITS) + CodeStream(codes[1..])
  }

  /** Cuts a bit stream into bytes; a trailing part shorter than a byte is
      left-justified and zero-padded. */
  function ToBytes(bits: seq<bool>): seq<int>
    decreases |bits|
  {
    if |bits| == 0 then []
    else if |bits| < 8 then [Val(bits + Zeros(8 - |bits|))]
    else [Val(bits[..8])] + ToBytes(bits[8..])
  }

  /** The packed form of a code sequence. */
  function Pack(codes: seq<int>): seq<int>
    requires CodesInRange(codes)
  {
    ToBytes(CodeStream(codes))
  }

  /** The bits of a byte sequence, eight per byte, most-significant first. */
  function FromBytes(bytes: seq<int>): (bits: seq<bool>)
    requires AllBytes(bytes)
    ensures |bits| == 8 * |bytes|
  {
    if |bytes| == 0 then [] else Bits(bytes[0], 8) + FromBytes(bytes[1..])
  }

  /** Reads BITS-wide codes from a bit stream, dropping a final part shorter
      than one code (the padding). */
  function ToCodes(bits: seq<bool>): seq<int>
    decreases |bits|
  {
    if |bits| < BITS then [] else [Val(bits[..BITS])] + ToCodes(bits[BITS..])
  }

  /** The inverse of `Pack`: the codes read back from packed bytes. */
  function Unpack(bytes: seq<int>): seq<int>
    requires AllBytes(bytes)
  {
    ToCodes(FromBytes(bytes))
  }

  /** Number of zero bits needed to reach the next byte boundary. */
  function PadLength(n: nat): (k: nat)
    ensures k < 8 && (n + k) % 8 == 0
  {
    (8 - n % 8) % 8
  }

  lemma {:induction false} CodeStreamSnoc(codes: seq<int>, c: int)
    requires CodesInRange(codes) && InCodeSpace(c)
    ensures CodesInRange(codes + [c])
    ensures CodeStream(codes + [c]) == CodeStream(codes) + Bits(c, BITS)
    decreases |codes|
  {
    if |codes| > 0 {
      assert (codes + [c])[1..] == codes[1..] + [c];
      CodeStreamSnoc(codes[1..], c);
    }
  }

  /** Bytes are whole bytes, and there are ceil(|bits| / 8) of them. */
  lemma {:induction false} ToBytesShape(bits: seq<bool>)
    ensures AllBytes(ToBytes(bits))
    ensures |ToBytes(bits)| == (|bits| + 7) / 8
    decreases |bits|
  {
    if 0 < |bits| < 8 {
      ValBound(bits + Zeros(8 - |bits|));
      Pow2Byte();
    } else if |bits| >= 8 {
      ValBound(bits[..8]);
      Pow2Byte();
      ToBytesShape(bits[8..]);
    }
  }

  lemma FromBytesCons(b: int, rest: seq<int>)
    requires IsByte(b) && AllBytes(rest)
    ensures AllBytes([b] + rest)
    ensures FromBytes([b] + rest) == Bits(b, 8) + FromBytes(rest)
  {
    var x := [b] + rest;
    assert x[0] == b && x[1..] == rest;
  }

  /** Eight bits make a byte, and writing that byte out gives them back. */
  lemma ByteOfBits(b: seq<bool>)
    requires |b| == 8
    ensures IsByte(Val(b)) && Bits(Val(b), 8) == b
  {
    ValBound(b);
    Pow2Byte();
    BitsVal(b);
  }

  lemma FromOneByte(v: int)
    requires IsByte(v)
    ensures AllBytes([v]) && FromBytes([v]) == Bits(v, 8)
  {
    assert [v][1..] == [];
  }

  /** A byte read from at most 8 bits, zero-padded, gives back those bits
      and the padding. */
  lemma ShortByte(bits: seq<bool>)
    requires 0 < |bits| < 8
    ensures AllBytes(ToBytes(bits))
    ensures FromBytes(ToBytes(bits)) == bits + Zeros(PadLength(|bits|))
  {
    var b := bits + Zeros(8 - |bits|);
    assert ToBytes(bits) == [Val(b)];
    ByteOfBits(b);
    FromOneByte(Val(b));
    assert FromBytes(ToBytes(bits)) == b;
    PadSmall(|bits|);
    assert Zeros(PadLength(|bits|)) == Zeros(8 - |bits|);
  }

  lemma PadSmall(n: int)
    requires 0 < n < 8
    ensures PadLength(n) == 8 - n
  {
    DivMod(0, 8, n);
    DivMod(0, 8, 8 - n);
  }

  /** Unpacking the bytes of a bit stream gives the stream back, followed by
      zero padding up to the byte boundary. */
  lemma {:induction false} FromToBytes(bits: seq<bool>)
    ensures AllBytes(ToBytes(bits))
    ensures FromBytes(ToBytes(bits)) == bits + Zeros(PadLength(|bits|))
    decreases |bits|
  {
    if |bits| == 0 {
    } else if |bits| < 8 {
      ShortByte(bits);
    } else {
      var head, tail := bits[..8], bits[8..];
      FromToBytes(tail);
      ValBound(head);
      Pow2Byte();
      FromBytesCons(Val(head), ToBytes(tail));
      BitsVal(head);
      assert ToBytes(bits) == [Val(head)] + ToBytes(tail);
      assert PadLength(|tail|) == PadLength(|bits|) by {
        ModAddMultiple(|tail|, 1, 8);
      }
      assert bits == head + tail;
    }
  }

  /** Reading a stream that starts with a code's bits reads that code first. */
  lemma ToCodesHead(c: int, rest: seq<bool>)
    requires InCodeSpace(c)
    ensures ToCodes(Bits(c, BITS) + rest) == [c] + ToCodes(rest)
  {
    var s := Bits(c, BITS) + rest;
    assert s[..BITS] == Bits(c, BITS) && s[BITS..] == rest;
    Pow2Code();
    ValBits(c, BITS);
  }

  lemma {:induction false} ToCodesStream(codes: seq<int>, pad: seq<bool>)
    requires CodesInRange(codes)
    requires |pad| < BITS
    ensures ToCodes(CodeStream(codes) + pad) == codes
    decreases |codes|
  {
    if |codes| > 0 {
      var rest := CodeStream(codes[1..]) + pad;
      assert CodeStream(codes) + pad == Bits(codes[0], BITS) + rest;
      ToCodesStream(codes[1..], pad);
      ToCodesHead(codes[0], rest);
      assert codes == [codes[0]] + codes[1..];
    }
  }

  /** Packing round trip: unpacking the packed bytes yields the codes. */
  lemma PackRoundTrip(codes: seq<int>)
    requires CodesInRange(codes)
    ensures AllBytes(Pack(codes))
    ensures Unpack(Pack(codes)) == codes
  {
    FromToBytes(CodeStream(codes));
    ToCodesStream(codes, Zeros(PadLength(|CodeStream(codes)|)));
  }

  /** The packed form is ceil(12 n / 8) bytes, and every bit after the codes'
      bits is zero. */
  lemma PackShape(codes: seq<int>)
    requires CodesInRange(codes)
    ensures AllBytes(Pack(codes))
    ensures |Pack(codes)| == (BITS * |codes| + 7) / 8
    ensures FromBytes(Pack(codes))[..BITS * |codes|] == CodeStream(codes)
    ensures forall i :: BITS * |codes| <= i < 8 * |Pack(codes)| ==> !FromBytes(Pack(codes))[i]
  {
    ToBytesShape(CodeStream(codes));
    FromToBytes(CodeStream(codes));
  }

  // ---------------------------------------------------------------------------
  // Java integer semantics

  const WORD: int := 0x1_0000_0000

  lemma Pow2Values()
    ensures Pow2(8) == 256 && Pow2(12) == CODE_SPACE && Pow2(24) * 256 == WORD
  {
    Pow2Byte();
    Pow2Code();
    Pow2Word();
  }

  /** `x << k` before the result is narrowed to 32 bits: doubling `k` times. */
  function ShiftLeft(x: int, k: nat): (r: int)
    ensures (r < 0) == (x < 0) && (r == 0) == (x == 0)
  {
    if k == 0 then x else 2 * ShiftLeft(x, k - 1)
  }

  /** `x >> k`, the arithmetic shift: halving `k` times, rounding down. */
  function ShiftRight(x: int, k: nat): (r: int)
    ensures 0 <= x ==> 0 <= r <= x
    ensures x < 0 ==> x <= r < 0
  {
    if k == 0 then x else ShiftRight(x, k - 1) / 2
  }

  lemma {:induction false} ShiftLeftMul(x: int, k: nat)
    ensures ShiftLeft(x, k) == x * Pow2(k)
  {
    if k > 0 {
      ShiftLeftMul(x, k - 1);
      MulAssoc(x, 2, Pow2(k - 1));
    }
  }

  lemma {:induction false} ShiftRightDiv(x: int, k: nat)
    ensures ShiftRight(x, k) == x / Pow2(k)
  {
    if k > 0 {
      ShiftRightDiv(x, k - 1);
      DivHalf(x, Pow2(k - 1));
    }
  }

  /** A mathematical integer reduced to Java's 32-bit two's-complement `int`. */
  function Wrap32(x: int): (r: int)
    ensures -0x8000_0000 <= r < 0x8000_0000
    ensures (r - x) % WORD == 0
  {
    (x + 0x8000_0000) % WORD - 0x8000_0000
  }

  /** The byte `OutputStream.write(int)` writes: the argument's low 8 bits. */
  function LowByte(x: int): (b: int)
    ensures IsByte(b)
  {
    x % 256
  }

  /** `(buffer << BITS) | code` on Java `int`s. For a code in [0, 4096) the
      shifted buffer's low 12 bits are zero, so the `|` is an addition; for
      the EOF code -1 (all bits set) the result is -1 whatever the buffer. */
  function ShiftIn(buffer: int, code: int): (r: int)
    requires code == EOF || InCodeSpace(code)
    ensures -0x8000_0000 <= r < 0x8000_0000
    ensures code != EOF ==> r % CODE_SPACE == code
    ensures code != EOF ==> (r - buffer * CODE_SPACE) % WORD == code
  {
    if code == EOF then -1
    else
      var x := buffer * CODE_SPACE + code;
      LowBitsSurviveWrap(x, buffer, code);
      Wrap32(x)
  }

  /** Wrapping to 32 bits keeps the low 12 bits: the code just shifted in. */
  lemma LowBitsSurviveWrap(x: int, buffer: int, code: int)
    requires InCodeSpace(code) && x == buffer * CODE_SPACE + code
    ensures Wrap32(x) % CODE_SPACE == code
    ensures (Wrap32(x) - buffer * CODE_SPACE) % WORD == code
  {
    var m := WrapOffset(x);
    assert Wrap32(x) == buffer * CODE_SPACE + code + m * WORD;
    assert Wrap32(x) == (buffer + m * 0x10_0000) * CODE_SPACE + code;
    DivMod(buffer + m * 0x10_0000, CODE_SPACE, code);
    DivMod(m, WORD, code);
  }

  lemma WrapCongruent(x: int, y: int)
    requires (x - y) % WORD == 0
    ensures Wrap32(x) == Wrap32(y)
  {
    DivMod((x - y) / WORD, WORD, (y + 0x8000_0000) % WORD);
    assert x + 0x8000_0000 == ((x - y) / WORD + (y + 0x8000_0000) / WORD) * WORD + (y + 0x8000_0000) % WORD;
  }

  /** Bits of the 32-bit buffer below position 32 do not depend on the
      bits lost to overflow. */
  lemma WrapByte(x: int, c: nat)
    requires c <= 24
    ensures LowByte(Wrap32(x) / Pow2(c)) == LowByte(x / Pow2(c))
  {
    var m := WrapOffset(x);
    var pc, ph := Pow2(c), Pow2(24 - c);
    assert pc * ph == 0x100_0000 by {
      Pow2Add(c, 24 - c);
      Pow2Word();
    }
    ShiftOffMultiple(x, m, pc, ph);
  }

  /** Wrapping adds a multiple of 2^32. */
  lemma WrapOffset(x: int) returns (m: int)
    ensures Wrap32(x) == x + m * WORD
  {
    m := (Wrap32(x) - x) / WORD;
  }

  /** A multiple of 2^32 does not reach the low byte of a quotient by a
      divisor of 2^24. */
  lemma ShiftOffMultiple(x: int, m: int, pc: int, ph: int)
    requires pc > 0 && pc * ph == 0x100_0000
    ensures ((x + m * WORD) / pc) % 256 == (x / pc) % 256
  {
    var k := m * ph;
    assert m * WORD == (k * 256) * pc by {
      MulAssoc(k * 256, pc, 1);
    }
    DivAddMultiple(x, k * 256, pc);
    ModAddMultiple(x / pc, k, 256);
  }

  lemma WrapLowByte(x: int, f: int)
    ensures LowByte(Wrap32(x) * f) == LowByte(x * f)
  {
    var m := WrapOffset(x);
    var k := (m * f) * 0x100_0000;
    ScaleOffset(x, m, f);
    ModAddMultiple(x * f, k, 256);
  }

  /** Scaling a value shifted by a multiple of 2^32. */
  lemma ScaleOffset(x: int, m: int, f: int)
    ensures (x + m * WORD) * f == x * f + ((m * f) * 0x100_0000) * 256
  {
    var mf := m * f;
    assert (x + m * WORD) * f == x * f + (m * WORD) * f;
    MulAssoc(m, WORD, f);
    assert (m * WORD) * f == mf * WORD;
  }

  // ---------------------------------------------------------------------------
  // The Java packer

  /** The packer's fields (`outputBitBuffer`, `outputBitCount`) together with
      the bytes written to the sink so far. */
  datatype Packer = Packer(buffer: int, count: int, written: seq<int>)

  const Start: Packer := Packer(0, 0, [])

  /** The loop of `outputCode`: while a whole byte is pending, drop the count
      by 8 and write `buffer >> count` (an arithmetic shift, i.e. a floor
      division). */
  function Drain(p: Packer): (q: Packer)
    requires p.count >= 0
    ensures 0 <= q.count < 8 && q.count % 8 == p.count % 8
    ensures q.buffer == p.buffer
    ensures |q.written| == |p.written| + p.count / 8
    ensures q.written[..|p.written|] == p.written
    decreases p.count
  {
    if p.count < 8 then p
    else Drain(Packer(p.buffer, p.count - 8, p.written + [LowByte(ShiftRight(p.buffer, p.count - 8))]))
  }

  /** `outputCode`: shift the code into the buffer and write every whole byte. */
  function OutputCode(p: Packer, code: int): (q: Packer)
    requires 0 <= p.count < 8
    requires code == EOF || InCodeSpace(code)
    ensures 0 <= q.count < 8 && q.count == (p.count + BITS) % 8
    ensures |q.written| == |p.written| + (p.count + BITS) / 8
    ensures q.written[..|p.written|] == p.written
  {
    Drain(Packer(ShiftIn(p.buffer, code), p.count + BITS, p.written))
  }

  /** The end of `compress`: a pending part byte is written shifted to the
      top of the byte, `buffer << (8 - count)`. */
  function Flush(p: Packer): (out: seq<int>)
    requires 0 <= p.count < 8
    ensures |out| == |p.written| + (if p.count > 0 then 1 else 0)
    ensures out[..|p.written|] == p.written
  {
    if p.count > 0 then p.written + [LowByte(Wrap32(ShiftLeft(p.buffer, 8 - p.count)))] else p.written
  }

  predicate Emittable(codes: seq<int>) {
    forall i :: 0 <= i < |codes| ==> codes[i] == EOF || InCodeSpace(codes[i])
  }

  /** The packer after `outputCode` has been called on each code in turn. */
  function EmitAll(codes: seq<int>): (p: Packer)
    requires Emittable(codes)
    ensures 0 <= p.count < 8
  {
    if |codes| == 0 then Start else OutputCode(EmitAll(codes[..|codes| - 1]), codes[|codes| - 1])
  }

  /** Every byte the Java packer writes for `codes`, flush included. */
  function Emit(codes: seq<int>): seq<int>
    requires Emittable(codes)
  {
    Flush(EmitAll(codes))
  }

  /** Outputting one more code is one more `outputCode` call. */
  lemma EmitAllSnoc(codes: seq<int>, c: int)
    requires Emittable(codes) && (c == EOF || InCodeSpace(c))
    ensures Emittable(codes + [c])
    ensures EmitAll(codes + [c]) == OutputCode(EmitAll(codes), c)
  {
    assert (codes + [c])[..|codes|] == codes;
  }

  /** `-1 >> k` is -1: the arithmetic shift copies the sign bit. */
  lemma {:induction false} ShiftRightMinusOne(k: nat)
    ensures ShiftRight(-1, k) == -1
  {
    if k > 0 {
      ShiftRightMinusOne(k - 1);
    }
  }

  /** What `compress` writes for an empty input: it outputs EOF (-1, all
      bits set) and the sentinel 4095, 24 one bits, i.e. three 0xFF bytes,
      and nothing is pending for the flush. */
  lemma EmptyOutput()
    ensures Emittable([EOF, MAX_VALUE])
    ensures Emit([EOF, MAX_VALUE]) == [0xFF, 0xFF, 0xFF]
  {
    ShiftRightMinusOne(0);
    ShiftRightMinusOne(4);
    ShiftRightMinusOne(8);
    assert LowByte(-1) == 0xFF;
    var p1 := Packer(-1, 4, [0xFF]);
    assert EmitAll([EOF]) == p1 by {
      EmitAllSnoc([], EOF);
      DrainOnce(Packer(-1, 12, []));
    }
    assert EmitAll([EOF, MAX_VALUE]) == Packer(-1, 0, [0xFF, 0xFF, 0xFF]) by {
      assert [EOF] + [MAX_VALUE] == [EOF, MAX_VALUE];
      EmitAllSnoc([EOF], MAX_VALUE);
      assert ShiftIn(-1, MAX_VALUE) == -1;
      DrainOnce(Packer(-1, 16, [0xFF]));
      DrainOnce(Packer(-1, 8, [0xFF, 0xFF]));
    }
  }

  /** The codes of the input "AAAA" pack into 04 10 80 04 1F FF. The Java
      packer's buffer overflows on the last code (0x41080041 << 12 | 0xFFF
      keeps its low 32 bits, 0x80041FFF, a negative `int`), which leaves the
      written bytes unchanged. */
  lemma PackExample()
    ensures CodesInRange([65, 128, 65, MAX_VALUE])
    ensures Pack([65, 128, 65, MAX_VALUE]) == [0x04, 0x10, 0x80, 0x04, 0x1F, 0xFF]
  {
    var p1 := Packer(0x41, 4, [0x04]);
    var p2 := Packer(0x41080, 0, [0x04, 0x10, 0x80]);
    var p3 := Packer(0x41080041, 4, [0x04, 0x10, 0x80, 0x04]);
    var p4 := Packer(0x80041FFF - 0x1_0000_0000, 0, [0x04, 0x10, 0x80, 0x04, 0x1F, 0xFF]);
    ExampleFirst();
    ExampleSecond();
    ExampleThird();
    ExampleLast();
    EmitFour([65, 128, 65, MAX_VALUE], p1, p2, p3, p4);
    EmitIsPack([65, 128, 65, MAX_VALUE]);
  }

  /** "AAAA", first code 65: one byte 0x04 written, 0x1 pending. */
  lemma ExampleFirst()
    ensures OutputCode(Start, 65) == Packer(0x41, 4, [0x04])
  {
    Pow2Code();
    OutputOneByte(Start, 65, 0x41, 0x04);
  }

  /** Second code 128: bytes 0x10 0x80 written, nothing pending. */
  lemma ExampleSecond()
    ensures OutputCode(Packer(0x41, 4, [0x04]), 128) == Packer(0x41080, 0, [0x04, 0x10, 0x80])
  {
    Pow2Byte();
    assert Pow2(0) == 1;
    OutputTwoBytes(Packer(0x41, 4, [0x04]), 128, 0x41080, 0x10, 0x80);
  }

  /** Third code 65: byte 0x04 written, 0x1 pending. */
  lemma ExampleThird()
    ensures OutputCode(Packer(0x41080, 0, [0x04, 0x10, 0x80]), 65) == Packer(0x41080041, 4, [0x04, 0x10, 0x80, 0x04])
  {
    Pow2Code();
    OutputOneByte(Packer(0x41080, 0, [0x04, 0x10, 0x80]), 65, 0x41080041, 0x04);
  }

  /** The sentinel 4095: the buffer wraps to the negative `int` 0x80041FFF,
      and bytes 0x1F 0xFF are written. */
  lemma ExampleLast()
    ensures OutputCode(Packer(0x41080041, 4, [0x04, 0x10, 0x80, 0x04]), MAX_VALUE)
         == Packer(0x80041FFF - 0x1_0000_0000, 0, [0x04, 0x10, 0x80, 0x04, 0x1F, 0xFF])
  {
    Pow2Byte();
    assert Pow2(0) == 1;
    OutputTwoBytes(Packer(0x41080041, 4, [0x04, 0x10, 0x80, 0x04]), MAX_VALUE, 0x80041FFF - 0x1_0000_0000, 0x1F, 0xFF);
  }

  /** The packer state after four codes, from the state after each. */
  lemma EmitFour(codes: seq<int>, p1: Packer, p2: Packer, p3: Packer, p4: Packer)
    requires |codes| == 4 && CodesInRange(codes)
    requires OutputCode(Start, codes[0]) == p1 && 0 <= p1.count < 8 && OutputCode(p1, codes[1]) == p2
    requires 0 <= p2.count < 8 && OutputCode(p2, codes[2]) == p3
    requires 0 <= p3.count < 8 && OutputCode(p3, codes[3]) == p4
    ensures Emittable(codes) && EmitAll(codes) == p4
  {
    assert codes[..0] == [];
    EmitPrefix(codes, 0, Start, p1);
    EmitPrefix(codes, 1, p1, p2);
    EmitPrefix(codes, 2, p2, p3);
    EmitPrefix(codes, 3, p3, p4);
  }

  /** The packer after the first `i + 1` codes, from the packer after `i`. */
  lemma EmitPrefix(codes: seq<int>, i: nat, p: Packer, q: Packer)
    requires i < |codes| && CodesInRange(codes)
    requires EmitAll(codes[..i]) == p && OutputCode(p, codes[i]) == q
    ensures EmitAll(codes[..i + 1]) == q
    ensures i + 1 == |codes| ==> EmitAll(codes) == q
  {
    assert codes[..i + 1][..i] == codes[..i];
    assert i + 1 == |codes| ==> codes[..i + 1] == codes;
  }

  /** With fewer than 4 bits pending, `outputCode` writes one byte and
      leaves 4 more bits pending. */
  lemma OutputOneByte(p: Packer, c: int, x: int, b: int)
    requires 0 <= p.count < 4 && InCodeSpace(c) && x == ShiftIn(p.buffer, c)
    requires b == (x / Pow2(p.count + 4)) % 256
    ensures OutputCode(p, c) == Packer(x, p.count + 4, p.written + [b])
  {
    ShiftRightDiv(x, p.count + 4);
    DrainOnce(Packer(x, p.count + BITS, p.written));
  }

  /** With 4 or more bits pending, `outputCode` writes two bytes and leaves
      4 fewer bits pending. */
  lemma OutputTwoBytes(p: Packer, c: int, x: int, b1: int, b2: int)
    requires 4 <= p.count < 8 && InCodeSpace(c) && x == ShiftIn(p.buffer, c)
    requires b1 == (x / Pow2(p.count + 4)) % 256
    requires b2 == (x / Pow2(p.count - 4)) % 256
    ensures OutputCode(p, c) == Packer(x, p.count - 4, p.written + [b1, b2])
  {
    ShiftRightDiv(x, p.count + 4);
    ShiftRightDiv(x, p.count - 4);
    DrainOnce(Packer(x, p.count + BITS, p.written));
    DrainOnce(Packer(x, p.count + 4, p.written + [b1]));
    assert p.written + [b1] + [b2] == p.written + [b1, b2];
  }

  /** One pass of the `Drain` loop. */
  lemma DrainOnce(p: Packer)
    requires p.count >= 8
    ensures Drain(p) == Drain(Packer(p.buffer, p.count - 8, p.written + [LowByte(ShiftRight(p.buffer, p.count - 8))]))
  {
  }

  // ---------------------------------------------------------------------------
  // The Java packer computes the declarative packing

  /** A stream split as `a`, one byte `b`, and the last `|r|` bits. */
  lemma ValSplit(a: seq<bool>, b: seq<bool>, r: seq<bool>)
    requires |b| == 8
    ensures Val(a + b + r) == (Val(a) * 256 + Val(b)) * Pow2(|r|) + Val(r)
    ensures Val(b) < 256 && Val(r) < Pow2(|r|)
  {
    ValAppend(a + b, r);
    ValAppend(a, b);
    ValBound(r);
    ValBound(b);
    Pow2Values();
  }

  lemma ByteArith(v: int, va: int, vb: int, vr: int, c: nat)
    requires c <= 24 && 0 <= vb < 256 && 0 <= vr < Pow2(c)
    requires v == (va * 256 + vb) * Pow2(c) + vr
    ensures LowByte(Wrap32(v) / Pow2(c)) == vb
  {
    var pc := Pow2(c);
    var hi := va * 256 + vb;
    WrapByte(v, c);
    DivMod(hi, pc, vr);
    DivMod(va, 256, vb);
  }

  /** The byte that `Drain` writes when `c` bits remain pending is the
      byte of the stream just before those bits. */
  lemma ByteOfStream(s: seq<bool>, c: nat)
    requires c + 8 <= |s| && c <= 24
    ensures LowByte(Wrap32(Val(s)) / Pow2(c)) == Val(s[|s| - c - 8..|s| - c])
  {
    var n := |s|;
    var a, b, r := s[..n - c - 8], s[n - c - 8..n - c], s[n - c..];
    assert s == a + b + r;
    ValSplit(a, b, r);
    ByteArith(Val(s), Val(a), Val(b), Val(r), c);
  }

  /** The bytes of a whole-byte prefix grow one byte at a time. */
  lemma {:induction false} ToBytesPrefix(s: seq<bool>, m: nat)
    requires m % 8 == 0 && m + 8 <= |s|
    ensures ToBytes(s[..m + 8]) == ToBytes(s[..m]) + [Val(s[m..m + 8])]
    decreases m
  {
    if m == 0 {
      assert s[..8][..8] == s[..8] && s[..8][8..] == [] && s[..0] == [];
      assert s[0..8] == s[..8];
    } else {
      var t := s[8..];
      ToBytesPrefix(t, m - 8);
      assert t[..m] == s[..m + 8][8..];
      assert t[..m - 8] == s[..m][8..];
      assert t[m - 8..m] == s[m..m + 8];
      assert s[..m + 8][..8] == s[..8] && s[..m][..8] == s[..8];
    }
  }

  /** The bytes of a stream that ends `c` bits past a byte boundary: its
      whole bytes, then its last `c` bits zero-padded. */
  lemma {:induction false} ToBytesLast(s: seq<bool>, c: nat)
    requires 0 < c < 8 && c <= |s| && (|s| - c) % 8 == 0
    ensures ToBytes(s) == ToBytes(s[..|s| - c]) + [Val(s[|s| - c..] + Zeros(8 - c))]
    decreases |s|
  {
    var m := |s| - c;
    if m == 0 {
      assert s[..m] == [] && s[m..] == s;
    } else {
      assert m >= 8;
      var t := s[8..];
      ToBytesLast(t, c);
      assert t[..|t| - c] == s[..m][8..];
      assert t[|t| - c..] == s[m..];
      assert s[..m][..8] == s[..8];
      assert ToBytes(s) == [Val(s[..8])] + ToBytes(t);
      assert ToBytes(s[..m]) == [Val(s[..8])] + ToBytes(t[..|t| - c]);
    }
  }

  /** The packer state that holds the bit stream `s`: the buffer holds the
      stream modulo 2^32, the count is the number of bits past the last
      byte boundary, and the stream's whole bytes have been written. */
  function Holding(s: seq<bool>): (p: Packer)
    ensures 0 <= p.count < 8 && p.count <= |s| && (|s| - p.count) % 8 == 0
  {
    AlignDown(|s|, |s| % 8);
    Packer(Wrap32(Val(s)), |s| % 8, ToBytes(s[..|s| - |s| % 8]))
  }

  /** One pass of the `Drain` loop keeps its invariant: the byte written is
      the stream's next whole byte. */
  lemma DrainByte(p: Packer, s: seq<bool>)
    requires 8 <= p.count <= |s| && p.count <= 32
    requires (|s| - p.count) % 8 == 0
    requires p.buffer == Wrap32(Val(s))
    requires p.written == ToBytes(s[..|s| - p.count])
    ensures (|s| - (p.count - 8)) % 8 == 0
    ensures p.written + [LowByte(ShiftRight(p.buffer, p.count - 8))] == ToBytes(s[..|s| - (p.count - 8)])
  {
    var c := p.count - 8;
    var m := |s| - p.count;
    assert |s| - c == m + 8 && |s| - c - 8 == m;
    ShiftRightDiv(p.buffer, c);
    ModAddMultiple(m, 1, 8);
    ByteOfStream(s, c);
    ToBytesPrefix(s, m);
  }

  /** Loop invariant of `Drain`: the buffer holds the stream (mod 2^32), and
      the bytes written are the stream up to the pending bits; draining
      leaves the packer holding the stream. */
  lemma {:induction false} DrainStream(p: Packer, s: seq<bool>)
    requires 0 <= p.count <= |s| && p.count <= 32
    requires (|s| - p.count) % 8 == 0
    requires p.buffer == Wrap32(Val(s))
    requires p.written == ToBytes(s[..|s| - p.count])
    ensures Drain(p) == Holding(s)
    decreases p.count
  {
    if p.count >= 8 {
      DrainByte(p, s);
      DrainStream(Packer(p.buffer, p.count - 8, p.written + [LowByte(ShiftRight(p.buffer, p.count - 8))]), s);
    } else {
      assert |s| % 8 == p.count by {
        assert |s| == (|s| - p.count) / 8 * 8 + p.count;
        ModAddMultiple(p.count, (|s| - p.count) / 8, 8);
      }
    }
  }

  lemma ShiftInWrap(v: int, code: int)
    requires InCodeSpace(code)
    ensures ShiftIn(Wrap32(v), code) == Wrap32(v * CODE_SPACE + code)
  {
    var m := (Wrap32(v) - v) / WORD;
    assert Wrap32(v) == v + m * WORD;
    assert (Wrap32(v) * CODE_SPACE + code) - (v * CODE_SPACE + code) == (m * CODE_SPACE) * WORD;
    WrapCongruent(Wrap32(v) * CODE_SPACE + code, v * CODE_SPACE + code);
  }

  lemma WrapLow(y: int)
    ensures LowByte(Wrap32(y)) == LowByte(y)
  {
    var m := (Wrap32(y) - y) / WORD;
    assert Wrap32(y) == y + (m * 0x100_0000) * 256;
    ModAddMultiple(y, m * 0x100_0000, 256);
  }

  /** Shifting the pending `c` bits to the top of a byte. */
  lemma PadArith(va: int, vb: int, c: nat)
    requires 0 < c < 8 && 0 <= vb < Pow2(c)
    ensures LowByte((va * Pow2(c) + vb) * Pow2(8 - c)) == vb * Pow2(8 - c)
  {
    var k, pc := Pow2(8 - c), Pow2(c);
    assert pc * k == 256 by {
      Pow2Add(c, 8 - c);
      Pow2Byte();
    }
    ScaleSplit(va, vb, pc, k);
    DivMod(va, 256, vb * k);
  }

  /** Scaling `va * pc + vb` by `k`, where `pc * k` is a byte's range. */
  lemma ScaleSplit(va: int, vb: int, pc: int, k: int)
    requires pc * k == 256 && 0 <= vb < pc && k > 0
    ensures (va * pc + vb) * k == va * 256 + vb * k
    ensures 0 <= vb * k < 256
  {
    MulAssoc(va, pc, k);
    MulMono(k, pc - vb);
  }

  /** The flushed byte holds the `c` pending bits at its top. */
  lemma FlushArith(v: int, va: int, vb: int, c: nat)
    requires 0 < c < 8 && 0 <= vb < Pow2(c)
    requires v == va * Pow2(c) + vb
    ensures LowByte(Wrap32(Wrap32(v) * Pow2(8 - c))) == vb * Pow2(8 - c)
  {
    var k := Pow2(8 - c);
    WrapLow(Wrap32(v) * k);
    WrapLowByte(v, k);
    PadArith(va, vb, c);
  }

  /** Shifting a code into a buffer that holds a stream gives a buffer that
      holds the stream followed by the code's bits. */
  lemma ShiftInStream(s: seq<bool>, c: int)
    requires InCodeSpace(c)
    ensures ShiftIn(Wrap32(Val(s)), c) == Wrap32(Val(s + Bits(c, BITS)))
  {
    assert Val(s + Bits(c, BITS)) == Val(s) * CODE_SPACE + c by {
      Pow2Values();
      ValBits(c, BITS);
      ValAppend(s, Bits(c, BITS));
    }
    ShiftInWrap(Val(s), c);
  }

  /** One call of `outputCode` keeps the packer's invariant: it appends the
      code's 12 bits to the stream the packer holds. */
  lemma OutputStream(p: Packer, s: seq<bool>, c: int)
    requires InCodeSpace(c) && p == Holding(s)
    ensures OutputCode(p, c) == Holding(s + Bits(c, BITS))
  {
    var s' := s + Bits(c, BITS);
    var n, k := |s|, |s| % 8;
    AlignDown(n, k);
    ShiftInStream(s, c);
    assert s'[..n - k] == s[..n - k];
    assert (|s'| - (k + BITS)) % 8 == 0;
    DrainStream(Packer(ShiftIn(p.buffer, c), k + BITS, p.written), s');
  }

  /** Invariant of the Java packer: after the codes have been output one by
      one, the packer holds their bit stream. */
  lemma {:induction false} EmitAllStream(codes: seq<int>)
    requires CodesInRange(codes)
    ensures Emittable(codes)
    ensures EmitAll(codes) == Holding(CodeStream(codes))
  {
    if |codes| > 0 {
      var init, c := codes[..|codes| - 1], codes[|codes| - 1];
      assert codes == init + [c];
      EmitAllStream(init);
      CodeStreamSnoc(init, c);
      assert EmitAll(codes) == OutputCode(EmitAll(init), c);
      OutputStream(EmitAll(init), CodeStream(init), c);
    }
  }

  /** Bit count and progress of the Java packer: after n codes, `count` is
      12 n mod 8 and floor(12 n / 8) bytes have been written. */
  lemma PackerProgress(codes: seq<int>)
    requires CodesInRange(codes)
    ensures Emittable(codes)
    ensures EmitAll(codes).count == (BITS * |codes|) % 8
    ensures |EmitAll(codes).written| == (BITS * |codes|) / 8
  {
    EmitAllStream(codes);
    var s := CodeStream(codes);
    var n := |s|;
    AlignDown(n, n % 8);
    ToBytesShape(s[..n - n % 8]);
    assert n - n % 8 == (n / 8) * 8;
    DivAddMultiple(7, n / 8, 8);
  }

  /** The final flush completes the stream's bytes: the pending bits become
      the zero-padded last byte. */
  lemma FlushStream(p: Packer, s: seq<bool>)
    requires p == Holding(s)
    ensures Flush(p) == ToBytes(s)
  {
    if p.count == 0 {
      assert s[..|s|] == s;
    } else {
      var c := p.count;
      var last := Val(s[|s| - c..] + Zeros(8 - c));
      assert ToBytes(s) == p.written + [last] by {
        LastBytes(p.written, s, c);
      }
      assert LowByte(Wrap32(ShiftLeft(p.buffer, 8 - c))) == last by {
        PadByte(s, c, p.buffer);
      }
      FlushPartial(p, last);
    }
  }

  /** A flush with pending bits writes one more byte. */
  lemma FlushPartial(p: Packer, last: int)
    requires 0 < p.count < 8 && LowByte(Wrap32(ShiftLeft(p.buffer, 8 - p.count))) == last
    ensures Flush(p) == p.written + [last]
  {
  }

  /** `c` is the distance from the last byte boundary of a length `n`. */
  lemma AlignDown(n: nat, c: int)
    requires c == n % 8
    ensures 0 <= c <= n && (n - c) % 8 == 0
  {
    assert n == (n / 8) * 8 + c;
    ModAddMultiple(0, n / 8, 8);
  }

  lemma LastBytes(written: seq<int>, s: seq<bool>, c: int)
    requires 0 < c < 8 && c <= |s| && (|s| - c) % 8 == 0
    requires written == ToBytes(s[..|s| - c])
    ensures ToBytes(s) == written + [Val(s[|s| - c..] + Zeros(8 - c))]
  {
    ToBytesLast(s, c);
  }

  /** The flushed byte of a stream whose last `c` bits are pending is those
      bits followed by zeros. */
  lemma PadByte(s: seq<bool>, c: nat, buffer: int)
    requires 0 < c < 8 && c <= |s| && buffer == Wrap32(Val(s))
    ensures LowByte(Wrap32(ShiftLeft(buffer, 8 - c))) == Val(s[|s| - c..] + Zeros(8 - c))
  {
    ShiftLeftMul(buffer, 8 - c);
    var a, b := s[..|s| - c], s[|s| - c..];
    assert s == a + b;
    ValAppend(a, b);
    ValBound(b);
    FlushArith(Val(s), Val(a), Val(b), c);
    ValAppend(b, Zeros(8 - c));
    ValZeros(8 - c);
  }

  /** The bytes the Java packer writes (final flush included) are exactly the
      declarative packing of the codes. */
  lemma EmitIsPack(codes: seq<int>)
    requires CodesInRange(codes)
    ensures Emittable(codes)
    ensures Emit(codes) == Pack(codes)
  {
    EmitAllStream(codes);
    FlushStream(EmitAll(codes), CodeStream(codes));
  }
}
