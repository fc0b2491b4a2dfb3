/** The 8-bit checksum the miner and the device firmware share: the
    Dallas/Maxim 1-Wire CRC-8 (polynomial x^8 + x^5 + x^4 + 1, processed
    least significant bit first, so the reflected constant is 0x8C; initial
    value 0; no final inversion), see Maxim Application Note 27. The state is
    a `bv8`, so every intermediate and final value lies in 0..255. */
module Crc8 {
  import Utf8

  /** The reflected Maxim polynomial. */
  const Poly: bv8 := 0x8C

  /** One bit of the update, in the form the miner writes it: when the
      feedback bit `(crc ^ byte) & 1` is set, xor with 0x18, shift right,
      keep seven bits, then set bit 7. The contract is the textbook
      reflected form with constant 0x8C. */
  function BitStep(crc: bv8, byte: bv8): (r: bv8)
    ensures r == (crc >> 1) ^ (if (crc ^ byte) & 1 == 1 then Poly else 0)
  {
    var fb := (crc ^ byte) & 0x01;
    var x := if fb == 0x01 then crc ^ 0x18 else crc;
    var y := (x >> 1) & 0x7f;
    if fb == 0x01 then y | 0x80 else y
  }

  /** `n` bit steps, consuming the byte from its least significant bit. */
  function BitSteps(crc: bv8, byte: bv8, n: nat): bv8
    decreases n
  {
    if n == 0 then crc else BitSteps(BitStep(crc, byte), byte >> 1, n - 1)
  }

  /** The update for one whole byte. */
  function UpdateByte(crc: bv8, byte: bv8): bv8
  {
    BitSteps(crc, byte, 8)
  }

  /** The 256-entry table of table-driven implementations: the update of
      state `x` by a zero byte. */
  function Table(x: bv8): bv8
  {
    UpdateByte(x, 0)
  }

  /** Folds `UpdateByte` over `data`, starting from `crc`. */
  function CrcFrom(crc: bv8, data: seq<bv8>): bv8
    decreases |data|
  {
    if |data| == 0 then crc else CrcFrom(UpdateByte(crc, data[0]), data[1..])
  }

  /** The checksum of a byte sequence. */
  function Checksum(data: seq<bv8>): bv8
  {
    CrcFrom(0, data)
  }

  function ToBits(bytes: seq<Utf8.Byte>): (r: seq<bv8>)
    ensures |r| == |bytes|
    ensures forall i :: 0 <= i < |r| ==> r[i] == bytes[i] as bv8
  {
    seq(|bytes|, i requires 0 <= i < |bytes| => bytes[i] as bv8)
  }

  /** `crc8(text.encode())`, as an integer. */
  function TextCrc(text: string): (r: nat)
    ensures r < 256
    ensures text == "" ==> r == 0
  {
    Checksum(ToBits(Utf8.Encode(text))) as nat
  }

  /** The miner's nested loops, step by step. */
  method ComputeCrc8(data: seq<bv8>) returns (crc: bv8)
    ensures crc == Checksum(data)
  {
    crc := 0;
    var i := 0;
    while i < |data|
      invariant 0 <= i <= |data|
      invariant CrcFrom(crc, data[i..]) == Checksum(data)
    {
      var byte := data[i];
      var b := 0;
      ghost var start := crc;
      while b < 8
        invariant 0 <= b <= 8
        invariant BitSteps(crc, byte, 8 - b) == UpdateByte(start, data[i])
      {
        crc := BitStep(crc, byte);
        byte := byte >> 1;
        b := b + 1;
      }
      assert data[i..][1..] == data[i + 1..];
      i := i + 1;
    }
  }

  /** The checksum of a concatenation continues from the checksum of the
      first part. */
  lemma {:induction false} CrcAppend(crc: bv8, a: seq<bv8>, b: seq<bv8>)
    ensures CrcFrom(crc, a + b) == CrcFrom(CrcFrom(crc, a), b)
    decreases |a|
  {
    if |a| > 0 {
      assert (a + b)[1..] == a[1..] + b;
      CrcAppend(UpdateByte(crc, a[0]), a[1..], b);
    } else {
      assert a + b == b;
    }
  }

  /** A byte has no bits left after eight shifts. */
  predicate Fits(b: bv8, n: nat)
    decreases n
  {
    if n == 0 then b == 0 else Fits(b >> 1, n - 1)
  }

  lemma AllFit(b: bv8)
    ensures Fits(b, 8)
  {
    assert b >> 1 >> 1 >> 1 >> 1 >> 1 >> 1 >> 1 >> 1 == 0;
  }

  /** One bit step only sees the xor of the state and the byte. */
  lemma StepShift(c: bv8, b: bv8)
    ensures BitStep(c, b) ^ (b >> 1) == BitStep(c ^ b, 0)
  {
  }

  lemma {:induction false} StepsShift(c: bv8, b: bv8, n: nat)
    requires Fits(b, n)
    ensures BitSteps(c, b, n) == BitSteps(c ^ b, 0, n)
    decreases n
  {
    if n > 0 {
      StepsShift(BitStep(c, b), b >> 1, n - 1);
      StepShift(c, b);
      assert (0 as bv8) >> 1 == 0;
    }
  }

  /** The bitwise update equals one lookup in the table at `crc ^ byte`. */
  lemma TableForm(crc: bv8, byte: bv8)
    ensures UpdateByte(crc, byte) == Table(crc ^ byte)
  {
    AllFit(byte);
    StepsShift(crc, byte, 8);
  }

  lemma {:induction false} ZeroSteps(n: nat)
    ensures BitSteps(0, 0, n) == 0
    decreases n
  {
    if n > 0 {
      assert BitStep(0, 0) == 0;
      assert (0 as bv8) >> 1 == 0;
      ZeroSteps(n - 1);
    }
  }

  /** Feeding a state its own value as the next byte clears it. */
  lemma UpdateWithSelf(c: bv8)
    ensures UpdateByte(c, c) == 0
  {
    TableForm(c, c);
    ZeroSteps(8);
  }

  /** Appending the checksum byte to the data gives checksum 0, the
      property 1-Wire devices use to check a received block. */
  lemma ResidueIsZero(data: seq<bv8>)
    ensures Checksum(data + [Checksum(data)]) == 0
  {
    CrcAppend(0, data, [Checksum(data)]);
    UpdateWithSelf(Checksum(data));
  }

  lemma StepInjective(x: bv8, y: bv8)
    ensures BitStep(x, 0) == BitStep(y, 0) ==> x == y
  {
  }

  lemma {:induction false} StepsInjective(x: bv8, y: bv8, n: nat)
    ensures BitSteps(x, 0, n) == BitSteps(y, 0, n) ==> x == y
    decreases n
  {
    if n > 0 {
      assert (0 as bv8) >> 1 == 0;
      StepsInjective(BitStep(x, 0), BitStep(y, 0), n - 1);
      StepInjective(x, y);
    }
  }

  /** For a fixed byte, distinct states give distinct updated states. */
  lemma StateInjective(c1: bv8, c2: bv8, b: bv8)
    ensures UpdateByte(c1, b) == UpdateByte(c2, b) ==> c1 == c2
  {
    var x, y := c1 ^ b, c2 ^ b;
    TableForm(c1, b);
    TableForm(c2, b);
    StepsInjective(x, y, 8);
    if UpdateByte(c1, b) == UpdateByte(c2, b) {
      assert x == y;
      assert c1 == x ^ b;
    }
  }

  /** For a fixed state, distinct bytes give distinct updated states. */
  lemma ByteInjective(c: bv8, b1: bv8, b2: bv8)
    ensures UpdateByte(c, b1) == UpdateByte(c, b2) ==> b1 == b2
  {
    var x, y := c ^ b1, c ^ b2;
    TableForm(c, b1);
    TableForm(c, b2);
    StepsInjective(x, y, 8);
    if UpdateByte(c, b1) == UpdateByte(c, b2) {
      assert x == y;
      assert b1 == x ^ c;
    }
  }

  lemma {:induction false} CrcInjective(c1: bv8, c2: bv8, data: seq<bv8>)
    ensures CrcFrom(c1, data) == CrcFrom(c2, data) ==> c1 == c2
    decreases |data|
  {
    if |data| > 0 {
      CrcInjective(UpdateByte(c1, data[0]), UpdateByte(c2, data[0]), data[1..]);
      StateInjective(c1, c2, data[0]);
    }
  }

  /** Every error confined to a single byte (in particular every single-bit
      flip) changes the checksum. */
  lemma ByteErrorDetected(data: seq<bv8>, i: nat, e: bv8)
    requires i < |data| && e != 0
    ensures Checksum(data[i := data[i] ^ e]) != Checksum(data)
  {
    var flipped := data[i := data[i] ^ e];
    var head, tail := data[..i], data[i + 1..];
    assert data == head + [data[i]] + tail;
    assert flipped == head + [data[i] ^ e] + tail;
    var p := CrcFrom(0, head);
    CrcAppend(0, head + [data[i]], tail);
    CrcAppend(0, head, [data[i]]);
    CrcAppend(0, head + [data[i] ^ e], tail);
    CrcAppend(0, head, [data[i] ^ e]);
    ByteInjective(p, data[i], data[i] ^ e);
    CrcInjective(UpdateByte(p, data[i]), UpdateByte(p, data[i] ^ e), tail);
  }

  /** The standard check value of CRC-8/MAXIM: the bytes of the ASCII text
      "123456789" have checksum 0xA1. */
  lemma CheckValue()
    ensures Checksum([0x31, 0x32, 0x33, 0x34, 0x35, 0x36, 0x37, 0x38, 0x39]) == 0xA1
  {
    assert UpdateByte(0x00, 0x31) == 0xE0;
    assert UpdateByte(0xE0, 0x32) == 0xEB;
    assert UpdateByte(0xEB, 0x33) == 0x95;
    assert UpdateByte(0x95, 0x34) == 0xF1;
    assert UpdateByte(0xF1, 0x35) == 0xAB;
    assert UpdateByte(0xAB, 0x36) == 0xEC;
    assert UpdateByte(0xEC, 0x37) == 0x77;
    assert UpdateByte(0x77, 0x38) == 0x07;
    assert UpdateByte(0x07, 0x39) == 0xA1;
  }
}
