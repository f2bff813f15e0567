/** crates/ostrom-core/src/check.rs, lines 1054-1127: the digest of receipts and definitions, against
    the definitions of FIPS 180-4. Words are 32-bit, so addition wraps. */
module Sha256 {
  newtype byte = b: int | 0 <= b < 256
  newtype Word = w: int | 0 <= w < 0x1_0000_0000

  // ---- Section 5.1.1: padding ----

  const TWO_64 := 0x1_0000_0000_0000_0000

  function Zeros(n: nat): (r: seq<byte>)
    ensures |r| == n
  {
    seq(n, _ => 0)
  }

  // A number in `count` bytes, the most significant first.
  function BigEndian(n: nat, count: nat): (r: seq<byte>)
    ensures |r| == count
  {
    if count == 0 then [] else BigEndian(n / 256, count - 1) + [(n % 256) as byte]
  }

  function Pow256(count: nat): nat {
    if count == 0 then 1 else 256 * Pow256(count - 1)
  }

  lemma {:induction false} BigEndianIsInjective(m: nat, n: nat, count: nat)
    requires m < Pow256(count) && n < Pow256(count) && BigEndian(m, count) == BigEndian(n, count)
    ensures m == n
  {
    if count > 0 {
      var x, y := BigEndian(m, count), BigEndian(n, count);
      assert x[..count - 1] == BigEndian(m / 256, count - 1) && y[..count - 1] == BigEndian(n / 256, count - 1);
      assert x[count - 1] == (m % 256) as byte && y[count - 1] == (n % 256) as byte;
      BigEndianIsInjective(m / 256, n / 256, count - 1);
    }
  }

  // The number that bytes stand for, the most significant first.
  function Value(bytes: seq<byte>): nat {
    if bytes == [] then 0 else 256 * Value(bytes[..|bytes| - 1]) + bytes[|bytes| - 1] as nat
  }

  lemma {:induction false} ValueOfBigEndian(n: nat, count: nat)
    requires n < Pow256(count)
    ensures Value(BigEndian(n, count)) == n
  {
    if count > 0 {
      var b := BigEndian(n, count);
      assert b[..count - 1] == BigEndian(n / 256, count - 1);
      ValueOfBigEndian(n / 256, count - 1);
    }
  }

  lemma EightBytes()
    ensures Pow256(8) == TWO_64
  {
    assert Pow256(2) == 0x1_0000;
    assert Pow256(4) == 0x1_0000_0000;
    assert Pow256(6) == 0x1_0000_0000_0000;
  }

  // The number of zero bytes that take the message and the bit 1 to 8 bytes before a block boundary.
  function ZeroCount(length: nat): (k: nat)
    ensures k < 64 && (length + 1 + k) % 64 == 56
  {
    (119 - length % 64) % 64
  }

  lemma ZeroCountIsUnique(length: nat, k: nat)
    requires k <= ZeroCount(length) && (length + 1 + k) % 64 == 56
    ensures k == ZeroCount(length)
  {
  }

  function Padded(input: seq<byte>): seq<byte> {
    input + [0x80] + Zeros(ZeroCount(|input|)) + BigEndian(8 * |input| % TWO_64, 8)
  }

  method PadMessage(input: seq<byte>) returns (padded: seq<byte>)
    ensures padded == Padded(input)
  {
    var bitLen := 8 * |input| % TWO_64;
    padded := input + [0x80];
    ghost var zeros := 0;
    while |padded| % 64 != 56
      invariant zeros <= ZeroCount(|input|)
      invariant padded == input + [0x80] + Zeros(zeros)
      decreases ZeroCount(|input|) - zeros
    {
      assert Zeros(zeros) + [0] == Zeros(zeros + 1);
      padded := padded + [0];
      zeros := zeros + 1;
    }
    ZeroCountIsUnique(|input|, zeros);
    padded := padded + BigEndian(bitLen, 8);
  }

  lemma PaddedSize(input: seq<byte>)
    ensures |Padded(input)| == |input| + 9 + ZeroCount(|input|)
  {
  }

  lemma NextBoundary(length: nat, zeros: nat)
    requires (length + 1 + zeros) % 64 == 56
    ensures (length + 9 + zeros) % 64 == 0
  {
  }

  // The padded message is the shortest whole number of 64-byte blocks with room for the
  // message, one byte and the length.
  lemma PaddedLength(input: seq<byte>)
    ensures |Padded(input)| % 64 == 0
    ensures |input| + 9 <= |Padded(input)| < |input| + 9 + 64
  {
    PaddedSize(input);
    NextBoundary(|input|, ZeroCount(|input|));
  }

  /** The padded message is the message, the byte 0x80, zero bytes, and the number of bits in eight bytes. */
  lemma PaddedShape(input: seq<byte>)
    ensures var p := Padded(input);
      && |p| >= |input| + 9
      && p[..|input|] == input && p[|input|] == 0x80
      && (forall i :: |input| < i < |p| - 8 ==> p[i] == 0)
      && Value(p[|p| - 8..]) == 8 * |input| % TWO_64
  {
    PaddedSize(input);
    EightBytes();
    ValueOfBigEndian(8 * |input| % TWO_64, 8);
    var p := Padded(input);
    assert p[|p| - 8..] == BigEndian(8 * |input| % TWO_64, 8);
    assert p[..|input|] == input;
  }

  lemma WrappedLengthsDiffer(m: nat, n: nat)
    requires -64 < m - n < 64 && 8 * m % TWO_64 == 8 * n % TWO_64
    ensures m == n
  {
    var x, y := 8 * m / TWO_64, 8 * n / TWO_64;
    assert 8 * m - 8 * n == (x - y) * TWO_64;
  }

  /** Different messages have different paddings, of any length: equal paddings have lengths less than
      a block apart, so even a wrapped bit count tells them apart. */
  lemma PaddingIsInjective(a: seq<byte>, b: seq<byte>)
    requires Padded(a) == Padded(b)
    ensures a == b
  {
    PaddedLength(a);
    PaddedLength(b);
    var p, m, n := Padded(a), 8 * |a| % TWO_64, 8 * |b| % TWO_64;
    assert p[|p| - 8..] == BigEndian(m, 8) && p[|p| - 8..] == BigEndian(n, 8);
    EightBytes();
    BigEndianIsInjective(m, n, 8);
    WrappedLengthsDiffer(|a|, |b|);
    assert a == p[..|a|] && b == p[..|b|];
  }

  // ---- Section 4.1.2: functions, and section 4.2.2: constants ----

  function ChoiceBits(x: bv32, y: bv32, z: bv32): bv32 { (x & y) ^ (!x & z) }

  function MajorityBits(x: bv32, y: bv32, z: bv32): bv32 { (x & y) ^ (x & z) ^ (y & z) }

  function UpperBits0(x: bv32): bv32 { x.RotateRight(2) ^ x.RotateRight(13) ^ x.RotateRight(22) }

  function UpperBits1(x: bv32): bv32 { x.RotateRight(6) ^ x.RotateRight(11) ^ x.RotateRight(25) }

  function LowerBits0(x: bv32): bv32 { x.RotateRight(7) ^ x.RotateRight(18) ^ (x >> 3) }

  function LowerBits1(x: bv32): bv32 { x.RotateRight(17) ^ x.RotateRight(19) ^ (x >> 10) }

  function ToWord(b: bv32): Word { b as Word }

  function ToBits(w: Word): bv32 { w as bv32 }

  function Choice(x: Word, y: Word, z: Word): Word { ToWord(ChoiceBits(ToBits(x), ToBits(y), ToBits(z))) }

  function Majority(x: Word, y: Word, z: Word): Word { ToWord(MajorityBits(ToBits(x), ToBits(y), ToBits(z))) }

  function UpperSigma0(x: Word): Word { ToWord(UpperBits0(ToBits(x))) }

  function UpperSigma1(x: Word): Word { ToWord(UpperBits1(ToBits(x))) }

  function LowerSigma0(x: Word): Word { ToWord(LowerBits0(ToBits(x))) }

  function LowerSigma1(x: Word): Word { ToWord(LowerBits1(ToBits(x))) }

  function Add(x: Word, y: Word): Word { ((x as int + y as int) % 0x1_0000_0000) as Word }

  const K: seq<Word> := [
    0x428a2f98, 0x71374491, 0xb5c0fbcf, 0xe9b5dba5, 0x3956c25b, 0x59f111f1, 0x923f82a4, 0xab1c5ed5,
    0xd807aa98, 0x12835b01, 0x243185be, 0x550c7dc3, 0x72be5d74, 0x80deb1fe, 0x9bdc06a7, 0xc19bf174,
    0xe49b69c1, 0xefbe4786, 0x0fc19dc6, 0x240ca1cc, 0x2de92c6f, 0x4a7484aa, 0x5cb0a9dc, 0x76f988da,
    0x983e5152, 0xa831c66d, 0xb00327c8, 0xbf597fc7, 0xc6e00bf3, 0xd5a79147, 0x06ca6351, 0x14292967,
    0x27b70a85, 0x2e1b2138, 0x4d2c6dfc, 0x53380d13, 0x650a7354, 0x766a0abb, 0x81c2c92e, 0x92722c85,
    0xa2bfe8a1, 0xa81a664b, 0xc24b8b70, 0xc76c51a3, 0xd192e819, 0xd6990624, 0xf40e3585, 0x106aa070,
    0x19a4c116, 0x1e376c08, 0x2748774c, 0x34b0bcb5, 0x391c0cb3, 0x4ed8aa4a, 0x5b9cca4f, 0x682e6ff3,
    0x748f82ee, 0x78a5636f, 0x84c87814, 0x8cc70208, 0x90befffa, 0xa4506ceb, 0xbef9a3f7, 0xc67178f2]

  // The number of four bytes, the most significant first.
  function FromBytes(b0: byte, b1: byte, b2: byte, b3: byte): Word {
    (b0 as int * 0x100_0000 + b1 as int * 0x1_0000 + b2 as int * 0x100 + b3 as int) as Word
  }

  lemma FromBytesIsValue(b: seq<byte>)
    requires |b| == 4
    ensures FromBytes(b[0], b[1], b[2], b[3]) as nat == Value(b)
  {
    var b3, b2, b1 := b[..3], b[..2], b[..1];
    assert b3[..2] == b2 && b2[..1] == b1 && b1[..0] == [];
    assert Value(b1) == b[0] as nat;
    assert Value(b2) == 256 * Value(b1) + b[1] as nat;
    assert Value(b3) == 256 * Value(b2) + b[2] as nat;
    assert Value(b) == 256 * Value(b3) + b[3] as nat;
  }

  // Section 3.2: a rotation by n moves n bits from the low to the high end.
  lemma UpperRotationsAreShifts(x: bv32)
    ensures UpperBits0(x) == ((x >> 2) | (x << 30)) ^ ((x >> 13) | (x << 19)) ^ ((x >> 22) | (x << 10))
    ensures UpperBits1(x) == ((x >> 6) | (x << 26)) ^ ((x >> 11) | (x << 21)) ^ ((x >> 25) | (x << 7))
  {
  }

  lemma LowerRotationsAreShifts(x: bv32)
    ensures LowerBits0(x) == ((x >> 7) | (x << 25)) ^ ((x >> 18) | (x << 14)) ^ (x >> 3)
    ensures LowerBits1(x) == ((x >> 17) | (x << 15)) ^ ((x >> 19) | (x << 13)) ^ (x >> 10)
  {
  }

  // A choice takes each bit from one of two words, a majority the bit that two of three have.
  lemma ChoiceTakesFirst(x: bv32, y: bv32, z: bv32)
    ensures ChoiceBits(x, y, z) & x == y & x
  {
  }

  lemma ChoiceTakesSecond(x: bv32, y: bv32, z: bv32)
    ensures ChoiceBits(x, y, z) & !x == z & !x
  {
  }

  lemma MajorityTakesTwo(x: bv32, y: bv32, z: bv32)
    ensures MajorityBits(x, y, z) == (x & y) | (y & z) | (x & z)
  {
  }

  datatype Registers<W> = Registers(a: W, b: W, c: W, d: W, e: W, f: W, g: W, h: W)

  const INITIAL: Registers<Word> := Registers(
    0x6a09e667, 0xbb67ae85, 0x3c6ef372, 0xa54ff53a, 0x510e527f, 0x9b05688c, 0x1f83d9ab, 0x5be0cd19)

  // ---- Section 6.2.2: the hash computation, over any type of words ----

  // The words and their operations. The computation is reasoned about without the bits of a word.
  datatype Ops<!W> = Ops(
    add: (W, W) -> W,
    choice: (W, W, W) -> W,
    majority: (W, W, W) -> W,
    upper0: W -> W,
    upper1: W -> W,
    lower0: W -> W,
    lower1: W -> W,
    fromBytes: (byte, byte, byte, byte) -> W,
    k: seq<W>,
    initial: Registers<W>)

  const SHA_OPS: Ops<Word> :=
    Ops(Add, Choice, Majority, UpperSigma0, UpperSigma1, LowerSigma0, LowerSigma1, FromBytes, K, INITIAL)

  function Sum4<W>(add: (W, W) -> W, a: W, b: W, c: W, d: W): W {
    add(add(add(a, b), c), d)
  }

  // Addition is commutative and associative.
  ghost predicate Commutes<W(!new)>(add: (W, W) -> W) {
    forall a, b :: add(a, b) == add(b, a)
  }

  ghost predicate Associates<W(!new)>(add: (W, W) -> W) {
    forall a, b, c :: add(add(a, b), c) == add(a, add(b, c))
  }

  ghost predicate AddsInAnyOrder<W(!new)>(add: (W, W) -> W) {
    forall a, b, c, d :: Sum4(add, a, b, c, d) == Sum4(add, d, c, b, a)
  }

  ghost predicate Valid<W(!new)>(ops: Ops<W>) {
    |ops.k| == 64 && AddsInAnyOrder(ops.add)
  }

  lemma SumReversed<W(!new)>(add: (W, W) -> W, a: W, b: W, c: W, d: W)
    requires Commutes(add) && Associates(add)
    ensures Sum4(add, a, b, c, d) == Sum4(add, d, c, b, a)
  {
    calc {
      add(add(add(a, b), c), d);
      add(d, add(c, add(a, b)));
      add(d, add(c, add(b, a)));
      add(add(d, add(c, b)), a);
    }
  }

  lemma AddCommutes()
    ensures Commutes(Add)
  {
    forall a: Word, b: Word ensures Add(a, b) == Add(b, a) {}
  }

  lemma AddWrapsOnce(x: Word, y: Word)
    ensures var sum := x as int + y as int;
            Add(x, y) as int == if sum < 0x1_0000_0000 then sum else sum - 0x1_0000_0000
  {
  }

  lemma AddAssociates()
    ensures Associates(Add)
  {
    forall a: Word, b: Word, c: Word
      ensures Add(Add(a, b), c) == Add(a, Add(b, c))
    {
      AddWrapsOnce(a, b);
      AddWrapsOnce(Add(a, b), c);
      AddWrapsOnce(b, c);
      AddWrapsOnce(a, Add(b, c));
    }
  }

  lemma ReversedSums<W(!new)>(add: (W, W) -> W)
    requires Commutes(add) && Associates(add)
    ensures AddsInAnyOrder(add)
  {
    forall a, b, c, d
      ensures Sum4(add, a, b, c, d) == Sum4(add, d, c, b, a)
    {
      SumReversed(add, a, b, c, d);
    }
  }

  lemma WordsAreValid()
    ensures Valid(SHA_OPS)
  {
    AddCommutes();
    AddAssociates();
    ReversedSums(Add);
  }

  // Word `t` of block `n` of a message.
  function MessageWord<W>(ops: Ops<W>, message: seq<byte>, n: nat, t: nat): W
    requires t < 16 && 64 * n + 64 <= |message|
  {
    var at := 64 * n + 4 * t;
    ops.fromBytes(message[at], message[at + 1], message[at + 2], message[at + 3])
  }

  // Word `t` of the message schedule of block `n`.
  function MessageSchedule<W>(ops: Ops<W>, message: seq<byte>, n: nat, t: nat): W
    requires 64 * n + 64 <= |message|
  {
    if t < 16 then MessageWord(ops, message, n, t)
    else
      Sum4(ops.add,
           ops.lower1(MessageSchedule(ops, message, n, t - 2)),
           MessageSchedule(ops, message, n, t - 7),
           ops.lower0(MessageSchedule(ops, message, n, t - 15)),
           MessageSchedule(ops, message, n, t - 16))
  }

  function Round<W>(ops: Ops<W>, r: Registers<W>, k: W, w: W): Registers<W> {
    var t1 := ops.add(Sum4(ops.add, r.h, ops.upper1(r.e), ops.choice(r.e, r.f, r.g), k), w);
    var t2 := ops.add(ops.upper0(r.a), ops.majority(r.a, r.b, r.c));
    Registers(ops.add(t1, t2), r.a, r.b, r.c, ops.add(r.d, t1), r.e, r.f, r.g)
  }

  // The registers after the first `t` rounds on block `n`.
  function Rounds<W>(ops: Ops<W>, start: Registers<W>, message: seq<byte>, n: nat, t: nat): Registers<W>
    requires 64 * n + 64 <= |message| && t <= |ops.k|
  {
    if t == 0 then start
    else Round(ops, Rounds(ops, start, message, n, t - 1), ops.k[t - 1], MessageSchedule(ops, message, n, t - 1))
  }

  function AddRegisters<W>(add: (W, W) -> W, x: Registers<W>, y: Registers<W>): Registers<W> {
    Registers(add(x.a, y.a), add(x.b, y.b), add(x.c, y.c), add(x.d, y.d),
              add(x.e, y.e), add(x.f, y.f), add(x.g, y.g), add(x.h, y.h))
  }

  // The hash value after block `n`.
  function HashBlock<W>(ops: Ops<W>, before: Registers<W>, message: seq<byte>, n: nat): Registers<W>
    requires 64 * n + 64 <= |message|
  {
    AddRegisters(ops.add, before, Rounds(ops, before, message, n, |ops.k|))
  }

  // The intermediate hash value after the first `n` blocks.
  function HashValue<W>(ops: Ops<W>, message: seq<byte>, n: nat): Registers<W>
    requires 64 * n <= |message|
  {
    if n == 0 then ops.initial else HashBlock(ops, HashValue(ops, message, n - 1), message, n - 1)
  }

  // A word of the schedule as the source adds it up, in the opposite order.
  ghost predicate Follows<W>(ops: Ops<W>, w: seq<W>, t: nat)
    requires 16 <= t < |w|
  {
    w[t] == Sum4(ops.add, w[t - 16], ops.lower0(w[t - 15]), w[t - 7], ops.lower1(w[t - 2]))
  }

  ghost function ScheduleWords<W>(ops: Ops<W>, message: seq<byte>, n: nat): (w: seq<W>)
    requires 64 * n + 64 <= |message|
  {
    seq(64, t requires 0 <= t < 64 => MessageSchedule(ops, message, n, t))
  }

  lemma ScheduleFollows<W(!new)>(ops: Ops<W>, message: seq<byte>, n: nat, t: nat)
    requires 64 * n + 64 <= |message| && 16 <= t < 64 && Valid(ops)
    ensures Follows(ops, ScheduleWords(ops, message, n), t)
  {
  }

  method Schedule<W(!new)>(ops: Ops<W>, message: seq<byte>, n: nat, zero: W) returns (words: array<W>)
    requires 64 * n + 64 <= |message| && Valid(ops)
    ensures fresh(words) && words[..] == ScheduleWords(ops, message, n)
  {
    ghost var w := ScheduleWords(ops, message, n);
    words := new W[64](_ => zero);
    for index := 0 to 16
      invariant words[..index] == w[..index]
    {
      words[index] := MessageWord(ops, message, n, index);
    }
    forall t | 16 <= t < 64
      ensures Follows(ops, w, t)
    {
      ScheduleFollows(ops, message, n, t);
    }
    Extend(ops, words, w);
  }

  method Extend<W>(ops: Ops<W>, words: array<W>, ghost w: seq<W>)
    requires words.Length == |w| == 64 && words[..16] == w[..16]
    requires forall t :: 16 <= t < 64 ==> Follows(ops, w, t)
    modifies words
    ensures words[..] == w
  {
    for index := 16 to 64
      invariant words[..index] == w[..index]
    {
      var s0 := ops.lower0(words[index - 15]);
      var s1 := ops.lower1(words[index - 2]);
      assert Follows(ops, w, index);
      words[index] := Sum4(ops.add, words[index - 16], s0, words[index - 7], s1);
    }
  }

  // Eight variables shifted one place each round, each from the one before it.
  method Compress<W(!new)>(ops: Ops<W>, start: Registers<W>, message: seq<byte>, n: nat) returns (r: Registers<W>)
    requires 64 * n + 64 <= |message| && Valid(ops)
    ensures r == Rounds(ops, start, message, n, |ops.k|)
  {
    var words := Schedule(ops, message, n, start.a);
    assert forall t :: 0 <= t < 64 ==> words[t] == words[..][t] == MessageSchedule(ops, message, n, t);
    var Registers(a, b, c, d, e, f, g, h) := start;
    for index := 0 to |ops.k|
      invariant Registers(a, b, c, d, e, f, g, h) == Rounds(ops, start, message, n, index)
    {
      var sum1 := ops.upper1(e);
      var choice := ops.choice(e, f, g);
      var temp1 := ops.add(Sum4(ops.add, h, sum1, choice, ops.k[index]), words[index]);
      var sum0 := ops.upper0(a);
      var majority := ops.majority(a, b, c);
      var temp2 := ops.add(sum0, majority);
      h := g;
      g := f;
      f := e;
      e := ops.add(d, temp1);
      d := c;
      c := b;
      b := a;
      a := ops.add(temp1, temp2);
    }
    r := Registers(a, b, c, d, e, f, g, h);
  }

  // Takes the hash value from block `n` to the next.
  method AddBlock<W(!new)>(ops: Ops<W>, before: Registers<W>, message: seq<byte>, n: nat)
    returns (state: Registers<W>)
    requires 64 * n + 64 <= |message| && Valid(ops)
    ensures before == HashValue(ops, message, n) ==> state == HashValue(ops, message, n + 1)
  {
    var r := Compress(ops, before, message, n);
    state := AddRegisters(ops.add, before, r);
  }

  method HashBlocks<W(!new)>(ops: Ops<W>, padded: seq<byte>, blocks: nat) returns (state: Registers<W>)
    requires |padded| == 64 * blocks && Valid(ops)
    ensures state == HashValue(ops, padded, blocks)
  {
    state := ops.initial;
    var n := 0;
    while n < blocks
      invariant n <= blocks
      invariant state == HashValue(ops, padded, n)
    {
      state := AddBlock(ops, state, padded, n);
      n := n + 1;
    }
  }

  // ---- The digest as text ----

  function HexDigit(d: nat): (c: char)
    requires d < 16
    ensures IsHex(c)
  {
    if d < 10 then '0' + d as char else 'a' + (d - 10) as char
  }

  predicate IsHex(c: char) {
    '0' <= c <= '9' || 'a' <= c <= 'f'
  }

  function Hex(bytes: seq<byte>): (s: string)
    ensures |s| == 2 * |bytes| && forall i :: 0 <= i < |s| ==> IsHex(s[i])
  {
    if bytes == [] then ""
    else [HexDigit(bytes[0] as nat / 16), HexDigit(bytes[0] as nat % 16)] + Hex(bytes[1..])
  }

  lemma {:induction false} HexIsInjective(x: seq<byte>, y: seq<byte>)
    requires Hex(x) == Hex(y)
    ensures x == y
  {
    if x != [] {
      var s, t := Hex(x), Hex(y);
      assert s[0] == t[0] && s[1] == t[1] && s[2..] == Hex(x[1..]) && t[2..] == Hex(y[1..]);
      HexIsInjective(x[1..], y[1..]);
    }
  }

  function WordBytes(w: Word): (r: seq<byte>)
    ensures |r| == 4
  {
    BigEndian(w as nat, 4)
  }

  function RegisterBytes(r: Registers<Word>): (b: seq<byte>)
    ensures |b| == 32
  {
    WordBytes(r.a) + WordBytes(r.b) + WordBytes(r.c) + WordBytes(r.d)
    + WordBytes(r.e) + WordBytes(r.f) + WordBytes(r.g) + WordBytes(r.h)
  }

  // Eight hexadecimal digits for each word, as a digest is printed.
  function Render(r: Registers<Word>): (s: string)
    ensures |s| == 64 && forall i :: 0 <= i < |s| ==> IsHex(s[i])
  {
    Hex(RegisterBytes(r))
  }

  function FromHex(c: char): nat
    requires IsHex(c)
  {
    if c <= '9' then (c - '0') as nat else 10 + (c - 'a') as nat
  }

  // Each byte is printed as two digits, the high one first.
  lemma {:induction false} HexShowsBytes(bytes: seq<byte>, i: nat)
    requires i < |bytes|
    ensures bytes[i] as nat == 16 * FromHex(Hex(bytes)[2 * i]) + FromHex(Hex(bytes)[2 * i + 1])
  {
    if i > 0 {
      HexShowsBytes(bytes[1..], i - 1);
    }
  }

  lemma SameWord(x: Word, y: Word)
    requires WordBytes(x) == WordBytes(y)
    ensures x == y
  {
    assert Pow256(4) == 0x1_0000_0000 by {
      assert Pow256(2) == 0x1_0000;
    }
    BigEndianIsInjective(x as nat, y as nat, 4);
  }

  /** Printing a digest loses nothing: two texts are equal only for equal hash values. */
  lemma RenderIsInjective(r: Registers<Word>, s: Registers<Word>)
    requires Render(r) == Render(s)
    ensures r == s
  {
    HexIsInjective(RegisterBytes(r), RegisterBytes(s));
    Pieces(r);
    Pieces(s);
    SameWord(r.a, s.a);
    SameWord(r.b, s.b);
    SameWord(r.c, s.c);
    SameWord(r.d, s.d);
    SameWord(r.e, s.e);
    SameWord(r.f, s.f);
    SameWord(r.g, s.g);
    SameWord(r.h, s.h);
  }

  lemma Pieces(r: Registers<Word>)
    ensures var b := RegisterBytes(r);
            WordBytes(r.a) == b[..4] && WordBytes(r.b) == b[4..8] && WordBytes(r.c) == b[8..12]
            && WordBytes(r.d) == b[12..16] && WordBytes(r.e) == b[16..20] && WordBytes(r.f) == b[20..24]
            && WordBytes(r.g) == b[24..28] && WordBytes(r.h) == b[28..]
  {
  }

  /** The loop over the blocks computes the hash value of the padded message. */
  method Sha256Hex(input: seq<byte>) returns (digest: string)
    ensures digest == Render(HashValue(SHA_OPS, Padded(input), |Padded(input)| / 64))
  {
    var padded := PadMessage(input);
    PaddedLength(input);
    WordsAreValid();
    var state := HashBlocks(SHA_OPS, padded, |padded| / 64);
    digest := Render(state);
  }
}
