/** The message digest of GameLib/MD5 and section 3 of RFC 1321.

    UINT4 is a 32-bit word, as the algorithm needs and as `unsigned long int` is on the 32-bit build. */
module Md5 {
  import opened Division

  type Byte = n: nat | n < 0x100
  type Word = n: nat | n < 0x1_0000_0000

  // ----- Little-endian numbers --------------------------------------------------------------

  function Little(n: nat, len: nat): (b: seq<Byte>)
    ensures |b| == len
  {
    if len == 0 then [] else [n % 0x100] + Little(n / 0x100, len - 1)
  }

  function ValueOf(b: seq<Byte>): nat {
    if b == [] then 0 else b[0] + 0x100 * ValueOf(b[1..])
  }

  function Power(len: nat): (p: nat)
    ensures p > 0
  {
    if len == 0 then 1 else 0x100 * Power(len - 1)
  }

  lemma {:induction false} ValueOfLittle(n: nat, len: nat)
    requires n < Power(len)
    ensures ValueOf(Little(n, len)) == n
  {
    if len > 0 {
      ValueOfLittle(n / 0x100, len - 1);
    }
  }

  lemma {:induction false} LittleOfValue(b: seq<Byte>)
    ensures Little(ValueOf(b), |b|) == b
  {
    if b != [] {
      LittleOfValue(b[1..]);
      LowDigit(b[0], ValueOf(b[1..]));
      assert [b[0]] + b[1..] == b;
    }
  }

  lemma LowDigit(d: nat, v: nat)
    requires d < 0x100
    ensures (d + 0x100 * v) % 0x100 == d && (d + 0x100 * v) / 0x100 == v
  {
  }

  /** The bytes of two numbers in a row are those of the number they are the two digits of. */
  lemma {:induction false} LittleSplit(low: nat, high: nat, i: nat, j: nat)
    requires low < Power(i)
    ensures Little(low + Power(i) * high, i + j) == Little(low, i) + Little(high, j)
  {
    if i == 0 {
      assert Power(0) * high == high;
      assert Little(low, 0) + Little(high, j) == Little(high, j);
    } else {
      var k: nat := Power(i - 1) * high;
      assert Power(i) * high == 0x100 * k by { Regroup(0x100, Power(i - 1), high); }
      assert (low + 0x100 * k) % 0x100 == low % 0x100 && (low + 0x100 * k) / 0x100 == low / 0x100 + k;
      LittleSplit(low / 0x100, high, i - 1, j);
    }
  }

  lemma Regroup(a: nat, b: nat, c: nat)
    ensures a * b * c == a * (b * c)
  {
  }

  lemma LittleOfTwo(low: Word, high: Word)
    ensures Little(low + 0x1_0000_0000 * high, 8) == Little(low, 4) + Little(high, 4)
  {
    assert Power(4) == 0x1_0000_0000 by {
      assert Power(1) == 0x100;
      assert Power(2) == 0x1_0000;
      assert Power(3) == 0x100_0000;
    }
    LittleSplit(low, high, 4, 4);
  }

  lemma FourBytes(n: nat)
    ensures Little(n, 4) == [n % 0x100, n / 0x100 % 0x100, n / 0x1_0000 % 0x100, n / 0x100_0000 % 0x100]
  {
    var a, b, c := n / 0x100, n / 0x1_0000, n / 0x100_0000;
    assert a / 0x100 == b && b / 0x100 == c;
    assert Little(c, 1) == [c % 0x100];
    assert Little(b, 2) == [b % 0x100] + Little(c, 1);
    assert Little(a, 3) == [a % 0x100] + Little(b, 2);
  }

  lemma FourDigits(b: seq<Byte>)
    requires |b| == 4
    ensures ValueOf(b) == b[0] as int + b[1] as int * 0x100 + b[2] as int * 0x1_0000 + b[3] as int * 0x100_0000
    ensures ValueOf(b) < 0x1_0000_0000
  {
    assert ValueOf(b[3..]) == b[3];
    assert ValueOf(b[2..]) == b[2] + 0x100 * ValueOf(b[3..]);
    assert ValueOf(b[1..]) == b[1] + 0x100 * ValueOf(b[2..]);
  }

  // ----- One block --------------------------------------------------------------------------

  const S11: nat := 7
  const S12: nat := 12
  const S13: nat := 17
  const S14: nat := 22
  const S21: nat := 5
  const S22: nat := 9
  const S23: nat := 14
  const S24: nat := 20
  const S31: nat := 4
  const S32: nat := 11
  const S33: nat := 16
  const S34: nat := 23
  const S41: nat := 6
  const S42: nat := 10
  const S43: nat := 15
  const S44: nat := 21

  function F(x: Word, y: Word, z: Word): Word {
    (((x as bv32) & (y as bv32)) | (!(x as bv32) & (z as bv32))) as Word
  }

  function G(x: Word, y: Word, z: Word): Word {
    (((x as bv32) & (z as bv32)) | ((y as bv32) & !(z as bv32))) as Word
  }

  function H(x: Word, y: Word, z: Word): Word {
    ((x as bv32) ^ (y as bv32) ^ (z as bv32)) as Word
  }

  function I(x: Word, y: Word, z: Word): Word {
    ((y as bv32) ^ ((x as bv32) | !(z as bv32))) as Word
  }

  function RotateLeft(x: Word, n: nat): Word
    requires n <= 32
  {
    (((x as bv32) << n) | ((x as bv32) >> (32 - n))) as Word
  }

  /** What the four macros have in common once the basic function has been applied. */
  function Turn(a: Word, b: Word, mixed: Word, x: Word, s: nat, ac: Word): Word
    requires s <= 32
  {
    (RotateLeft((a + (mixed + x + ac)) % 0x1_0000_0000, s) + b) % 0x1_0000_0000
  }

  function FF(a: Word, b: Word, c: Word, d: Word, x: Word, s: nat, ac: Word): Word
    requires s <= 32
  {
    Turn(a, b, F(b, c, d), x, s, ac)
  }

  function GG(a: Word, b: Word, c: Word, d: Word, x: Word, s: nat, ac: Word): Word
    requires s <= 32
  {
    Turn(a, b, G(b, c, d), x, s, ac)
  }

  function HH(a: Word, b: Word, c: Word, d: Word, x: Word, s: nat, ac: Word): Word
    requires s <= 32
  {
    Turn(a, b, H(b, c, d), x, s, ac)
  }

  function II(a: Word, b: Word, c: Word, d: Word, x: Word, s: nat, ac: Word): Word
    requires s <= 32
  {
    Turn(a, b, I(b, c, d), x, s, ac)
  }

  datatype Registers = Registers(a: Word, b: Word, c: Word, d: Word)

  /** The table T of section 3.4, for i steps done before. */
  function Table(i: nat): Word
    requires i < 64
  {
    if i < 16 then [
      0xd76aa478, 0xe8c7b756, 0x242070db, 0xc1bdceee,
      0xf57c0faf, 0x4787c62a, 0xa8304613, 0xfd469501,
      0x698098d8, 0x8b44f7af, 0xffff5bb1, 0x895cd7be,
      0x6b901122, 0xfd987193, 0xa679438e, 0x49b40821][i]
    else if i < 32 then [
      0xf61e2562, 0xc040b340, 0x265e5a51, 0xe9b6c7aa,
      0xd62f105d, 0x2441453, 0xd8a1e681, 0xe7d3fbc8,
      0x21e1cde6, 0xc33707d6, 0xf4d50d87, 0x455a14ed,
      0xa9e3e905, 0xfcefa3f8, 0x676f02d9, 0x8d2a4c8a][i - 16]
    else if i < 48 then [
      0xfffa3942, 0x8771f681, 0x6d9d6122, 0xfde5380c,
      0xa4beea44, 0x4bdecfa9, 0xf6bb4b60, 0xbebfbc70,
      0x289b7ec6, 0xeaa127fa, 0xd4ef3085, 0x4881d05,
      0xd9d4d039, 0xe6db99e5, 0x1fa27cf8, 0xc4ac5665][i - 32]
    else [
      0xf4292244, 0x432aff97, 0xab9423a7, 0xfc93a039,
      0x655b59c3, 0x8f0ccc92, 0xffeff47d, 0x85845dd1,
      0x6fa87e4f, 0xfe2ce6e0, 0xa3014314, 0x4e0811a1,
      0xf7537e82, 0xbd3af235, 0x2ad7d2bb, 0xeb86d391][i - 48]
  }

  /** Step i in the uniform form: which word of the block, how far to rotate, which function. */
  function Index(i: nat): (k: nat)
    ensures k < 16
  {
    if i < 16 then i % 16 else if i < 32 then (5 * i + 1) % 16 else if i < 48 then (3 * i + 5) % 16 else 7 * i % 16
  }

  function Shift(i: nat): (s: nat)
    ensures s <= 32
  {
    if i < 16 then Turnwise(i, S11, S12, S13, S14)
    else if i < 32 then Turnwise(i, S21, S22, S23, S24)
    else if i < 48 then Turnwise(i, S31, S32, S33, S34)
    else Turnwise(i, S41, S42, S43, S44)
  }

  function Turnwise(i: nat, a: nat, b: nat, c: nat, d: nat): nat {
    if i % 4 == 0 then a else if i % 4 == 1 then b else if i % 4 == 2 then c else d
  }

  function Mixed(i: nat, b: Word, c: Word, d: Word): Word {
    if i < 16 then F(b, c, d) else if i < 32 then G(b, c, d) else if i < 48 then H(b, c, d) else I(b, c, d)
  }

  /** One step, after which the registers change their parts. */
  function Step(i: nat, r: Registers, x: seq<Word>): Registers
    requires i < 64 && |x| == 16
  {
    Registers(r.d, Turn(r.a, r.b, Mixed(i, r.b, r.c, r.d), x[Index(i)], Shift(i), Table(i)), r.b, r.c)
  }

  function Steps(n: nat, r: Registers, x: seq<Word>): Registers
    requires n <= 64 && |x| == 16
  {
    if n == 0 then r else Step(n - 1, Steps(n - 1, r, x), x)
  }

  function WordsOf(b: seq<Byte>): (x: seq<Word>)
    requires |b| % 4 == 0
    ensures |x| == |b| / 4
  {
    if b == [] then []
    else
      FourDigits(b[..4]);
      [ValueOf(b[..4])] + WordsOf(b[4..])
  }

  /** The compression of one block: 64 uniform steps, added to the registers. */
  function Compressed(r: Registers, block: seq<Byte>): Registers
    requires |block| == 64
  {
    var q := Steps(64, r, WordsOf(block));
    Registers((r.a + q.a) % 0x1_0000_0000, (r.b + q.b) % 0x1_0000_0000,
              (r.c + q.c) % 0x1_0000_0000, (r.d + q.d) % 0x1_0000_0000)
  }

  /** The new value of the register whose turn it is in step i. */
  function Turned(i: nat, a: Word, b: Word, c: Word, d: Word, x: seq<Word>): Word
    requires i < 64 && |x| == 16
  {
    Turn(a, b, Mixed(i, b, c, d), x[Index(i)], Shift(i), Table(i))
  }

  /** After four steps every register has its own part again. */
  lemma FourSteps(r: Registers, x: seq<Word>, n: nat, p: Registers)
    requires n <= 60 && |x| == 16 && p == Steps(n, r, x)
    ensures
      var a := Turned(n, p.a, p.b, p.c, p.d, x);
      var d := Turned(n + 1, p.d, a, p.b, p.c, x);
      var c := Turned(n + 2, p.c, d, a, p.b, x);
      var b := Turned(n + 3, p.b, c, d, a, x);
      Steps(n + 4, r, x) == Registers(a, b, c, d)
  {
    hide Turn, Mixed, Index, Shift, Table;
    assert Steps(n + 1, r, x) == Step(n, p, x);
    assert Steps(n + 2, r, x) == Step(n + 1, Steps(n + 1, r, x), x);
    assert Steps(n + 3, r, x) == Step(n + 2, Steps(n + 2, r, x), x);
  }

  method Round1(ghost r: Registers, x: seq<Word>, p: Registers) returns (q: Registers)
    requires |x| == 16 && p == Steps(0, r, x)
    ensures q == Steps(16, r, x)
  {
    hide F, G, H, I, Turn, Steps;
    var a, b, c, d := p.a, p.b, p.c, p.d;
    ghost var g := p;
    a := FF(a, b, c, d, x[0], S11, 0xd76aa478);
    d := FF(d, a, b, c, x[1], S12, 0xe8c7b756);
    c := FF(c, d, a, b, x[2], S13, 0x242070db);
    b := FF(b, c, d, a, x[3], S14, 0xc1bdceee);
    FourSteps(r, x, 0, g);
    g := Registers(a, b, c, d);
    a := FF(a, b, c, d, x[4], S11, 0xf57c0faf);
    d := FF(d, a, b, c, x[5], S12, 0x4787c62a);
    c := FF(c, d, a, b, x[6], S13, 0xa8304613);
    b := FF(b, c, d, a, x[7], S14, 0xfd469501);
    FourSteps(r, x, 4, g);
    g := Registers(a, b, c, d);
    a := FF(a, b, c, d, x[8], S11, 0x698098d8);
    d := FF(d, a, b, c, x[9], S12, 0x8b44f7af);
    c := FF(c, d, a, b, x[10], S13, 0xffff5bb1);
    b := FF(b, c, d, a, x[11], S14, 0x895cd7be);
    FourSteps(r, x, 8, g);
    g := Registers(a, b, c, d);
    a := FF(a, b, c, d, x[12], S11, 0x6b901122);
    d := FF(d, a, b, c, x[13], S12, 0xfd987193);
    c := FF(c, d, a, b, x[14], S13, 0xa679438e);
    b := FF(b, c, d, a, x[15], S14, 0x49b40821);
    FourSteps(r, x, 12, g);
    g := Registers(a, b, c, d);
    q := Registers(a, b, c, d);
  }

  method Round2(ghost r: Registers, x: seq<Word>, p: Registers) returns (q: Registers)
    requires |x| == 16 && p == Steps(16, r, x)
    ensures q == Steps(32, r, x)
  {
    hide F, G, H, I, Turn, Steps;
    var a, b, c, d := p.a, p.b, p.c, p.d;
    ghost var g := p;
    a := GG(a, b, c, d, x[1], S21, 0xf61e2562);
    d := GG(d, a, b, c, x[6], S22, 0xc040b340);
    c := GG(c, d, a, b, x[11], S23, 0x265e5a51);
    b := GG(b, c, d, a, x[0], S24, 0xe9b6c7aa);
    FourSteps(r, x, 16, g);
    g := Registers(a, b, c, d);
    a := GG(a, b, c, d, x[5], S21, 0xd62f105d);
    d := GG(d, a, b, c, x[10], S22, 0x2441453);
    c := GG(c, d, a, b, x[15], S23, 0xd8a1e681);
    b := GG(b, c, d, a, x[4], S24, 0xe7d3fbc8);
    FourSteps(r, x, 20, g);
    g := Registers(a, b, c, d);
    a := GG(a, b, c, d, x[9], S21, 0x21e1cde6);
    d := GG(d, a, b, c, x[14], S22, 0xc33707d6);
    c := GG(c, d, a, b, x[3], S23, 0xf4d50d87);
    b := GG(b, c, d, a, x[8], S24, 0x455a14ed);
    FourSteps(r, x, 24, g);
    g := Registers(a, b, c, d);
    a := GG(a, b, c, d, x[13], S21, 0xa9e3e905);
    d := GG(d, a, b, c, x[2], S22, 0xfcefa3f8);
    c := GG(c, d, a, b, x[7], S23, 0x676f02d9);
    b := GG(b, c, d, a, x[12], S24, 0x8d2a4c8a);
    FourSteps(r, x, 28, g);
    g := Registers(a, b, c, d);
    q := Registers(a, b, c, d);
  }

  method Round3(ghost r: Registers, x: seq<Word>, p: Registers) returns (q: Registers)
    requires |x| == 16 && p == Steps(32, r, x)
    ensures q == Steps(48, r, x)
  {
    hide F, G, H, I, Turn, Steps;
    var a, b, c, d := p.a, p.b, p.c, p.d;
    ghost var g := p;
    a := HH(a, b, c, d, x[5], S31, 0xfffa3942);
    d := HH(d, a, b, c, x[8], S32, 0x8771f681);
    c := HH(c, d, a, b, x[11], S33, 0x6d9d6122);
    b := HH(b, c, d, a, x[14], S34, 0xfde5380c);
    FourSteps(r, x, 32, g);
    g := Registers(a, b, c, d);
    a := HH(a, b, c, d, x[1], S31, 0xa4beea44);
    d := HH(d, a, b, c, x[4], S32, 0x4bdecfa9);
    c := HH(c, d, a, b, x[7], S33, 0xf6bb4b60);
    b := HH(b, c, d, a, x[10], S34, 0xbebfbc70);
    FourSteps(r, x, 36, g);
    g := Registers(a, b, c, d);
    a := HH(a, b, c, d, x[13], S31, 0x289b7ec6);
    d := HH(d, a, b, c, x[0], S32, 0xeaa127fa);
    c := HH(c, d, a, b, x[3], S33, 0xd4ef3085);
    b := HH(b, c, d, a, x[6], S34, 0x4881d05);
    FourSteps(r, x, 40, g);
    g := Registers(a, b, c, d);
    a := HH(a, b, c, d, x[9], S31, 0xd9d4d039);
    d := HH(d, a, b, c, x[12], S32, 0xe6db99e5);
    c := HH(c, d, a, b, x[15], S33, 0x1fa27cf8);
    b := HH(b, c, d, a, x[2], S34, 0xc4ac5665);
    FourSteps(r, x, 44, g);
    g := Registers(a, b, c, d);
    q := Registers(a, b, c, d);
  }

  method Round4(ghost r: Registers, x: seq<Word>, p: Registers) returns (q: Registers)
    requires |x| == 16 && p == Steps(48, r, x)
    ensures q == Steps(64, r, x)
  {
    hide F, G, H, I, Turn, Steps;
    var a, b, c, d := p.a, p.b, p.c, p.d;
    ghost var g := p;
    a := II(a, b, c, d, x[0], S41, 0xf4292244);
    d := II(d, a, b, c, x[7], S42, 0x432aff97);
    c := II(c, d, a, b, x[14], S43, 0xab9423a7);
    b := II(b, c, d, a, x[5], S44, 0xfc93a039);
    FourSteps(r, x, 48, g);
    g := Registers(a, b, c, d);
    a := II(a, b, c, d, x[12], S41, 0x655b59c3);
    d := II(d, a, b, c, x[3], S42, 0x8f0ccc92);
    c := II(c, d, a, b, x[10], S43, 0xffeff47d);
    b := II(b, c, d, a, x[1], S44, 0x85845dd1);
    FourSteps(r, x, 52, g);
    g := Registers(a, b, c, d);
    a := II(a, b, c, d, x[8], S41, 0x6fa87e4f);
    d := II(d, a, b, c, x[15], S42, 0xfe2ce6e0);
    c := II(c, d, a, b, x[6], S43, 0xa3014314);
    b := II(b, c, d, a, x[13], S44, 0x4e0811a1);
    FourSteps(r, x, 56, g);
    g := Registers(a, b, c, d);
    a := II(a, b, c, d, x[4], S41, 0xf7537e82);
    d := II(d, a, b, c, x[11], S42, 0xbd3af235);
    c := II(c, d, a, b, x[2], S43, 0x2ad7d2bb);
    b := II(b, c, d, a, x[9], S44, 0xeb86d391);
    FourSteps(r, x, 60, g);
    g := Registers(a, b, c, d);
    q := Registers(a, b, c, d);
  }

  // ----- Messages ---------------------------------------------------------------------------

  /** The registers after a sequence of whole blocks (section 3.4). */
  function Absorbed(r: Registers, blocks: seq<Byte>): Registers
    requires |blocks| % 64 == 0
    decreases |blocks|
  {
    hide Compressed;
    if blocks == [] then r else Absorbed(Compressed(r, blocks[..64]), blocks[64..])
  }

  lemma {:induction false} AbsorbedAppend(r: Registers, blocks: seq<Byte>, block: seq<Byte>)
    requires |blocks| % 64 == 0 && |block| == 64
    ensures Absorbed(r, blocks + block) == Compressed(Absorbed(r, blocks), block)
    decreases |blocks|
  {
    hide Compressed;
    if blocks == [] {
      assert blocks + block == block && block[..64] == block && block[64..] == [];
    } else {
      assert (blocks + block)[..64] == blocks[..64] && (blocks + block)[64..] == blocks[64..] + block;
      AbsorbedAppend(Compressed(r, blocks[..64]), blocks[64..], block);
    }
  }

  /** Section 3.3. */
  function Initial(): Registers {
    Registers(0x6745_2301, 0xefcd_ab89, 0x98ba_dcfe, 0x1032_5476)
  }

  function Whole(msg: seq<Byte>): (b: seq<Byte>)
    ensures |b| % 64 == 0
  {
    msg[..|msg| - |msg| % 64]
  }

  function Rest(msg: seq<Byte>): (b: seq<Byte>)
    ensures |b| == |msg| % 64
  {
    msg[|msg| - |msg| % 64..]
  }

  /** The head of PADDING. */
  function Padding(n: nat): (z: seq<Byte>)
    ensures |z| == n
  {
    seq(n, i => if i == 0 then 0x80 else 0)
  }

  /** How many padding bytes a message of a length mod 64 gets: one to 64, up to 56 mod 64. */
  function PadLength(index: nat): (n: nat)
    requires index < 64
    ensures 1 <= n <= 64 && (index + n == 56 || index + n == 120)
  {
    if index < 56 then 56 - index else 120 - index
  }

  lemma PadsToBlocks(length: nat)
    ensures (length + PadLength(length % 64) + 8) % 64 == 0
  {
    hide PadLength;
    assert length == length / 64 * 64 + length % 64;
  }

  /** Sections 3.1 and 3.2: a single 1 bit, zeros, and the length in bits modulo 2^64. */
  function Padded(msg: seq<Byte>): (p: seq<Byte>)
    ensures |p| % 64 == 0
  {
    hide PadLength, Little, Padding;
    var n := PadLength(|msg| % 64);
    PadsToBlocks(|msg|);
    msg + Padding(n) + Little(8 * |msg| % 0x1_0000_0000_0000_0000, 8)
  }

  /** What a digest is of. */
  function Digest(msg: seq<Byte>): (d: seq<Byte>)
    ensures |d| == 16
  {
    var r := Absorbed(Initial(), Padded(msg));
    Little(r.a, 4) + Little(r.b, 4) + Little(r.c, 4) + Little(r.d, 4)
  }

  /** Padding loses nothing: no two messages shorter than 2^61 bytes are padded to the same blocks. */
  lemma PaddingInjective(m: seq<Byte>, n: seq<Byte>)
    requires |m| < 0x2000_0000_0000_0000 && |n| < 0x2000_0000_0000_0000
    requires Padded(m) == Padded(n)
    ensures m == n
  {
    hide PadLength, Little;
    var p := Padded(m);
    LengthField(m);
    LengthField(n);
    LengthAgain(8 * |m|);
    LengthAgain(8 * |n|);
    assert m == p[..|m|] && n == p[..|n|];
  }

  lemma LengthField(m: seq<Byte>)
    requires |m| < 0x2000_0000_0000_0000
    ensures |Padded(m)| >= 8 + |m| && Padded(m)[|Padded(m)| - 8..] == Little(8 * |m|, 8) && Padded(m)[..|m|] == m
  {
    hide Little;
  }

  lemma LengthAgain(n: nat)
    requires n < 0x1_0000_0000_0000_0000
    ensures ValueOf(Little(n, 8)) == n
  {
    assert Power(4) == 0x1_0000_0000 by {
      assert Power(2) == 0x1_0000;
    }
    assert Power(6) == 0x1_0000_0000_0000;
    ValueOfLittle(n, 8);
  }

  // ----- The context ------------------------------------------------------------------------

  function RegistersOf(s: seq<Word>): Registers
    requires |s| == 4
  {
    Registers(s[0], s[1], s[2], s[3])
  }

  class Context {
    const state: array<Word>
    const count: array<Word>
    const buffer: array<Byte>

    constructor ()
      ensures Shaped() && fresh(state) && fresh(count) && fresh(buffer)
    {
      state := new Word[4];
      count := new Word[2];
      buffer := new Byte[64];
    }

    predicate Shaped() {
      state.Length == 4 && count.Length == 2 && buffer.Length == 64 && state != count
    }

    /** The context after a message: the registers after its whole blocks, what is left over at the
        head of the buffer, and its length in bits modulo 2^64. What lies behind is not determined. */
    ghost predicate Holds(msg: seq<Byte>)
      reads state, count, buffer
    {
      && Shaped()
      && RegistersOf(state[..]) == Absorbed(Initial(), Whole(msg))
      && buffer[..|msg| % 64] == Rest(msg)
      && count[0] == 8 * |msg| % 0x1_0000_0000
      && count[1] == 8 * |msg| / 0x1_0000_0000 % 0x1_0000_0000
    }
  }

  method Init(context: Context)
    requires context.Shaped()
    modifies context.state, context.count
    ensures context.Holds([])
  {
    hide Absorbed, Compressed;
    assert Absorbed(Initial(), []) == Initial() by { NoBlocks(Initial()); }
    context.count[0], context.count[1] := 0, 0;
    context.state[0] := 0x6745_2301;
    context.state[1] := 0xefcd_ab89;
    context.state[2] := 0x98ba_dcfe;
    context.state[3] := 0x1032_5476;
  }

  lemma NoBlocks(r: Registers)
    ensures Absorbed(r, []) == r
  {
  }

  method Copy(output: array<Byte>, to: nat, input: array<Byte>, from: nat, len: nat)
    requires output != input && to + len <= output.Length && from + len <= input.Length
    modifies output
    ensures output[..] == old(output[..to] + input[from..from + len] + output[to + len..])
  {
    var i := 0;
    while i < len
      invariant i <= len
      invariant output[..] == old(output[..to] + input[from..from + i] + output[to + i..])
    {
      output[to + i] := input[from + i];
      i := i + 1;
    }
  }

  method Decode(input: array<Byte>, at: nat, len: nat) returns (output: seq<Word>)
    requires len % 4 == 0 && at + len <= input.Length
    ensures output == WordsOf(input[at..at + len])
  {
    hide ValueOf;
    var i, j := 0, 0;
    output := [];
    while j < len
      invariant j <= len && j == 4 * i
      invariant output == WordsOf(input[at..at + j])
    {
      ghost var b := input[at + j..at + j + 4];
      FourDigits(b);
      WordsGrow(input[..], at, j);
      var w := input[at + j] as int + input[at + j + 1] as int * 0x100 + input[at + j + 2] as int * 0x1_0000
        + input[at + j + 3] as int * 0x100_0000;
      assert w == ValueOf(b);
      output := output + [w];
      i, j := i + 1, j + 4;
    }
  }

  lemma WordsGrow(s: seq<Byte>, at: nat, j: nat)
    requires j % 4 == 0 && at + j + 4 <= |s|
    ensures WordsOf(s[at..at + j + 4]) == WordsOf(s[at..at + j]) + [ValueOf(s[at + j..at + j + 4])]
  {
    hide WordsOf, ValueOf;
    WordsAppend(s[at..at + j], s[at + j..at + j + 4]);
    assert s[at..at + j + 4] == s[at..at + j] + s[at + j..at + j + 4];
  }

  lemma {:induction false} WordsAppend(b: seq<Byte>, c: seq<Byte>)
    requires |b| % 4 == 0 && |c| == 4
    ensures WordsOf(b + c) == WordsOf(b) + [ValueOf(c)]
    decreases |b|
  {
    if b == [] {
      assert b + c == c && c[..4] == c && c[4..] == [];
    } else {
      assert (b + c)[..4] == b[..4] && (b + c)[4..] == b[4..] + c;
      WordsAppend(b[4..], c);
    }
  }

  function Bytes(w: seq<Word>): (b: seq<Byte>)
    ensures |b| == 4 * |w|
  {
    if w == [] then [] else Bytes(w[..|w| - 1]) + Little(w[|w| - 1], 4)
  }

  lemma NoBytes(w: seq<Word>)
    requires w == []
    ensures Bytes(w) == []
  {
  }

  lemma BytesMore(w: seq<Word>)
    requires w != []
    ensures Bytes(w) == Bytes(w[..|w| - 1]) + Little(w[|w| - 1], 4)
  {
  }

  /** One round of the loop of `Encode`. */
  method PutWord(output: array<Byte>, j: nat, w: Word)
    requires j + 4 <= output.Length
    modifies output
    ensures var was := old(output[..]); output[..] == was[..j] + Little(w, 4) + was[j + 4..]
  {
    hide Little;
    FourBytes(w);
    output[j] := w % 0x100;
    output[j + 1] := w / 0x100 % 0x100;
    output[j + 2] := w / 0x1_0000 % 0x100;
    output[j + 3] := w / 0x100_0000 % 0x100;
  }

  method Encode(output: array<Byte>, input: seq<Word>, len: nat)
    requires len % 4 == 0 && len <= output.Length && len / 4 <= |input|
    modifies output
    ensures output[..] == Bytes(input[..len / 4]) + old(output[len..])
  {
    hide Little, Bytes, Encoded;
    var i, j := 0, 0;
    ghost var was, n := output[..], len / 4;
    NothingEncoded(input, 0, was, was);
    while j < len
      invariant j == 4 * i && i <= n
      invariant Encoded(input, i, was, output[..])
    {
      ghost var before := output[..];
      PutWord(output, j, input[i]);
      EncodedMore(input, i, was, before, output[..]);
      i, j := i + 1, j + 4;
    }
    EncodedIs(input, i, was, output[..]);
    assert was[len..] == old(output[len..]);
  }

  lemma EncodedIs(input: seq<Word>, i: nat, was: seq<Byte>, now: seq<Byte>)
    requires Encoded(input, i, was, now)
    ensures i <= |input| && 4 * i <= |was| && now == Bytes(input[..i]) + was[4 * i..]
  {
  }

  /** The first words have been written over the beginning of the output. */
  ghost predicate Encoded(input: seq<Word>, i: nat, was: seq<Byte>, now: seq<Byte>) {
    i <= |input| && 4 * i <= |was| && now == Bytes(input[..i]) + was[4 * i..]
  }

  lemma NothingEncoded(input: seq<Word>, i: nat, was: seq<Byte>, now: seq<Byte>)
    requires i == 0 && now == was
    ensures Encoded(input, i, was, now)
  {
  }

  lemma EncodedMore(input: seq<Word>, i: nat, was: seq<Byte>, before: seq<Byte>, after: seq<Byte>)
    requires i < |input| && 4 * i + 4 <= |was| && Encoded(input, i, was, before)
    requires after == before[..4 * i] + Little(input[i], 4) + before[4 * i + 4..]
    ensures Encoded(input, i + 1, was, after)
  {
    hide Bytes, Little;
    BytesGrow(input, i, before, was[4 * i..], after, 4 * i);
    assert was[4 * i..][4..] == was[4 * i + 4..];
  }

  lemma BytesGrow(input: seq<Word>, i: nat, before: seq<Byte>, rest: seq<Byte>, after: seq<Byte>, j: nat)
    requires i < |input| && j == 4 * i && |rest| >= 4 && before == Bytes(input[..i]) + rest
    requires after == before[..j] + Little(input[i], 4) + before[j + 4..]
    ensures after == Bytes(input[..i + 1]) + rest[4..]
  {
    hide Bytes, Little;
    BytesMore(input[..i + 1]);
    assert input[..i + 1][..i] == input[..i];
    assert before[..j] == Bytes(input[..i]) && before[j + 4..] == rest[4..];
  }

  method Transform(state: array<Word>, block: array<Byte>, at: nat)
    requires state.Length == 4 && at + 64 <= block.Length
    modifies state
    ensures RegistersOf(state[..]) == Compressed(old(RegistersOf(state[..])), block[at..at + 64])
  {
    hide Steps;
    var x := Decode(block, at, 64);
    var r := Registers(state[0], state[1], state[2], state[3]);
    assert Steps(0, r, x) == r by { NoSteps(r, x); }
    var p := Round1(r, x, r);
    p := Round2(r, x, p);
    p := Round3(r, x, p);
    p := Round4(r, x, p);
    state[0] := (state[0] + p.a) % 0x1_0000_0000;
    state[1] := (state[1] + p.b) % 0x1_0000_0000;
    state[2] := (state[2] + p.c) % 0x1_0000_0000;
    state[3] := (state[3] + p.d) % 0x1_0000_0000;
  }

  lemma NoSteps(r: Registers, x: seq<Word>)
    requires |x| == 16
    ensures Steps(0, r, x) == r
  {
  }

  // ----- Adding to a message ----------------------------------------------------------------

  /** The two words of a count of bytes in bits. */
  lemma BitsOf(n: nat, q: nat, r: nat)
    requires n == q * 0x2000_0000 + r && r < 0x2000_0000
    ensures 8 * n % 0x1_0000_0000 == 8 * r
    ensures 8 * n / 0x1_0000_0000 == q
  {
    Quotient(8 * n, 0x1_0000_0000, q, 8 * r);
  }

  lemma AddInModulus(a: nat, b: nat)
    ensures (a % 0x1_0000_0000 + b) % 0x1_0000_0000 == (a + b) % 0x1_0000_0000
  {
    var q, r := a / 0x1_0000_0000, a % 0x1_0000_0000;
    var k, z := (r + b) / 0x1_0000_0000, (r + b) % 0x1_0000_0000;
    RemainderOf(a + b, q + k, z);
  }

  lemma RemainderOf(n: nat, q: nat, z: nat)
    requires n == q * 0x1_0000_0000 + z && z < 0x1_0000_0000
    ensures n % 0x1_0000_0000 == z
  {
    Quotient(n, 0x1_0000_0000, q, z);
  }

  lemma CountAdds(n: nat, len: nat)
    ensures
      var low, shifted := 8 * n % 0x1_0000_0000, 8 * len % 0x1_0000_0000;
      var sum := (low + shifted) % 0x1_0000_0000;
      var high := 8 * n / 0x1_0000_0000 % 0x1_0000_0000;
      var carried := if sum < shifted then (high + 1) % 0x1_0000_0000 else high;
      && sum == 8 * (n + len) % 0x1_0000_0000
      && (carried + len / 0x2000_0000) % 0x1_0000_0000 == 8 * (n + len) / 0x1_0000_0000 % 0x1_0000_0000
  {
    var q, r := n / 0x2000_0000, n % 0x2000_0000;
    var t, u := len / 0x2000_0000, len % 0x2000_0000;
    BitsOf(n, q, r);
    BitsOf(len, t, u);
    if r + u < 0x2000_0000 {
      BitsOf(n + len, q + t, r + u);
      AddInModulus(q, t);
    } else {
      BitsOf(n + len, q + t + 1, r + u - 0x2000_0000);
      AddInModulus(q, 1);
      AddInModulus(q + 1, t);
    }
  }

  /** The guard of the block loop is exact unless it wraps at the last block border. */
  predicate GuardFits(index: nat, inputLen: nat) {
    index + inputLen < 64 || inputLen - (index + inputLen) % 64 + 63 < 0x1_0000_0000
  }

  /** A border the block loop may stop at: the message up to here is whole blocks. */
  predicate Border(index: nat, inputLen: nat, i: nat) {
    64 - index <= i <= inputLen && (index + i) % 64 == 0
  }

  /** The word comparison of the block loop agrees with the integers at every border exactly when
      `GuardFits`. The inputs it fails on are within 63 bytes of 2^32. */
  lemma GuardExact(index: nat, inputLen: nat)
    requires index < 64 && inputLen < 0x1_0000_0000
    ensures GuardFits(index, inputLen) <==>
      forall i: nat | Border(index, inputLen, i) :: (i + 63) % 0x1_0000_0000 < inputLen <==> i + 63 < inputLen
  {
    if GuardFits(index, inputLen) {
      forall i: nat | Border(index, inputLen, i)
        ensures (i + 63) % 0x1_0000_0000 < inputLen <==> i + 63 < inputLen
      {
        BordersBefore(index, inputLen, i);
        SumWraps(i, inputLen);
      }
    } else {
      var i := inputLen - (index + inputLen) % 64;
      LastBorder(index, inputLen);
      SumWraps(i, inputLen);
    }
  }

  /** What the word comparison does. */
  lemma SumWraps(i: nat, inputLen: nat)
    requires i <= inputLen < 0x1_0000_0000
    ensures (i + 63) % 0x1_0000_0000 == if i + 63 < 0x1_0000_0000 then i + 63 else i + 63 - 0x1_0000_0000
  {
    if i + 63 < 0x1_0000_0000 {
      RemainderOf(i + 63, 0, i + 63);
    } else {
      RemainderOf(i + 63, 1, i + 63 - 0x1_0000_0000);
    }
  }

  lemma BordersBefore(index: nat, inputLen: nat, i: nat)
    requires index < 64 && Border(index, inputLen, i)
    ensures i <= inputLen - (index + inputLen) % 64
  {
    var k, n := (index + i) / 64, index + inputLen;
    assert index + i == 64 * k;
    assert n == 64 * (n / 64) + n % 64;
  }

  /** An input on which it fails: at its last border the sum wraps. */
  lemma GuardWraps()
    ensures !GuardFits(1, 0xffff_ffff) && Border(1, 0xffff_ffff, 0xffff_ffff)
    ensures (0xffff_ffff + 63) % 0x1_0000_0000 < 0xffff_ffff
  {
  }

  lemma LastBorder(index: nat, inputLen: nat)
    requires index < 64 && index + inputLen >= 64
    ensures Border(index, inputLen, inputLen - (index + inputLen) % 64)
  {
    var n := index + inputLen;
    var k := n / 64;
    assert n == 64 * k + n % 64;
    Quotient(64 * k, 64, k, 0);
  }

  lemma ShortInput(msg: seq<Byte>, input: seq<Byte>)
    requires |msg| % 64 + |input| < 64
    ensures Whole(msg + input) == Whole(msg) && Rest(msg + input) == Rest(msg) + input
    ensures |msg + input| % 64 == |msg| % 64 + |input|
  {
    var n := |msg| - |msg| % 64;
    assert |msg + input| - |msg + input| % 64 == n;
  }

  lemma BlockDone(msg: seq<Byte>, input: seq<Byte>)
    requires |msg| % 64 + |input| == 64
    ensures |msg + input| % 64 == 0 && Whole(msg + input) == Whole(msg) + (Rest(msg) + input) == msg + input
  {
  }

  lemma TailLeft(msg: seq<Byte>, input: seq<Byte>)
    requires |msg| % 64 == 0 && |input| < 64
    ensures Whole(msg + input) == msg && Rest(msg + input) == input && |msg + input| % 64 == |input|
  {
  }

  /** The bit count of `MD5Update`, in two words with a carry. */
  method AddBits(count: array<Word>, ghost length: nat, inputLen: nat)
    requires count.Length == 2 && inputLen < 0x1_0000_0000
    requires count[0] == 8 * length % 0x1_0000_0000
    requires count[1] == 8 * length / 0x1_0000_0000 % 0x1_0000_0000
    modifies count
    ensures count[0] == 8 * (length + inputLen) % 0x1_0000_0000
    ensures count[1] == 8 * (length + inputLen) / 0x1_0000_0000 % 0x1_0000_0000
  {
    CountAdds(length, inputLen);
    var shifted := inputLen * 8 % 0x1_0000_0000;
    count[0] := (count[0] + shifted) % 0x1_0000_0000;
    if count[0] < shifted {
      count[1] := (count[1] as int + 1) % 0x1_0000_0000;
    }
    count[1] := (count[1] + inputLen / 0x2000_0000) % 0x1_0000_0000;
  }

  /** The block loop of `MD5Update`: from border `from`, all whole blocks of the input. */
  method TransformBlocks(state: array<Word>, ghost msg: seq<Byte>, input: array<Byte>, inputLen: nat, from: nat)
      returns (i: nat)
    requires state.Length == 4 && inputLen <= input.Length && inputLen < 0x1_0000_0000
    requires GuardFits(|msg| % 64, inputLen) && Border(|msg| % 64, inputLen, from)
    requires |msg + input[..from]| % 64 == 0
    requires RegistersOf(state[..]) == Absorbed(Initial(), msg + input[..from])
    modifies state
    ensures i <= inputLen < i + 64 && |msg + input[..i]| % 64 == 0
    ensures RegistersOf(state[..]) == Absorbed(Initial(), msg + input[..i])
  {
    hide Absorbed, Compressed, GuardFits;
    GuardExact(|msg| % 64, inputLen);
    i := from;
    ghost var whole := input[..];
    while (i + 63) % 0x1_0000_0000 < inputLen
      invariant Border(|msg| % 64, inputLen, i) && |msg + whole[..i]| % 64 == 0 && input[..] == whole
      invariant RegistersOf(state[..]) == Absorbed(Initial(), msg + whole[..i])
      decreases inputLen - i
    {
      Transform(state, input, i);
      BlockAbsorbed(msg, whole, i);
      NextBorder(|msg| % 64, inputLen, i);
      i := i + 64;
    }
  }

  lemma BlockAbsorbed(msg: seq<Byte>, whole: seq<Byte>, i: nat)
    requires i + 64 <= |whole| && |msg + whole[..i]| % 64 == 0
    ensures Absorbed(Initial(), msg + whole[..i + 64]) ==
      Compressed(Absorbed(Initial(), msg + whole[..i]), whole[i..i + 64])
    ensures |msg + whole[..i + 64]| % 64 == 0
  {
    hide Absorbed, Compressed;
    var before, block := msg + whole[..i], whole[i..i + 64];
    AbsorbedAppend(Initial(), before, block);
    assert before + block == msg + whole[..i + 64];
  }

  lemma NextBorder(index: nat, inputLen: nat, i: nat)
    requires Border(index, inputLen, i) && i + 63 < inputLen
    ensures Border(index, inputLen, i + 64)
  {
  }

  /** The part of `MD5Update` that fills the buffer up and transforms it and all whole blocks after. */
  method FillAndTransform(context: Context, ghost msg: seq<Byte>, input: array<Byte>, inputLen: nat, index: nat)
      returns (i: nat)
    requires context.Shaped() && input != context.buffer && index == |msg| % 64
    requires RegistersOf(context.state[..]) == Absorbed(Initial(), Whole(msg))
    requires context.buffer[..index] == Rest(msg)
    requires 64 - index <= inputLen <= input.Length && inputLen < 0x1_0000_0000 && GuardFits(index, inputLen)
    modifies context.state, context.buffer
    ensures i <= inputLen < i + 64 && |msg + input[..i]| % 64 == 0
    ensures RegistersOf(context.state[..]) == Absorbed(Initial(), msg + input[..i])
  {
    hide Absorbed, Compressed, GuardFits, Whole, Rest, Little;
    var partLen := 64 - index;
    Copy(context.buffer, index, input, 0, partLen);
    assert context.buffer[0..64] == Rest(msg) + input[..partLen];
    Transform(context.state, context.buffer, 0);
    BlockDone(msg, input[..partLen]);
    AbsorbedAppend(Initial(), Whole(msg), Rest(msg) + input[..partLen]);
    i := TransformBlocks(context.state, msg, input, inputLen, partLen);
  }

  /** `MD5Update`. What the context stands for afterwards depends only on the message so far and the
      input, however the message was cut before. */
  method Update(context: Context, ghost msg: seq<Byte>, input: array<Byte>, inputLen: nat)
    requires context.Holds(msg) && input != context.buffer
    requires inputLen <= input.Length && inputLen < 0x1_0000_0000 && GuardFits(|msg| % 64, inputLen)
    modifies context.state, context.count, context.buffer
    ensures context.Holds(msg + input[..inputLen])
  {
    hide Absorbed, Compressed, GuardFits, Whole, Rest, Little;
    var index := context.count[0] / 8 % 64;
    IndexIs(|msg|);
    AddBits(context.count, |msg|, inputLen);
    var i := 0;
    ghost var whole := input[..inputLen];
    if inputLen >= 64 - index {
      i := FillAndTransform(context, msg, input, inputLen, index);
      index := 0;
      TailLeft(msg + input[..i], input[i..inputLen]);
      assert msg + input[..i] + input[i..inputLen] == msg + whole;
    } else {
      ShortInput(msg, whole);
    }
    Copy(context.buffer, index, input, i, inputLen - i);
  }

  lemma IndexIs(n: nat)
    ensures 8 * n % 0x1_0000_0000 / 8 % 64 == n % 64
  {
    var q, r := n / 0x2000_0000, n % 0x2000_0000;
    BitsOf(n, q, r);
    assert n == 64 * (q * 0x80_0000) + r;
    assert 8 * r / 8 == r;
  }

  // ----- Finishing --------------------------------------------------------------------------

  /** `PADDING`. */
  method NewPadding() returns (p: array<Byte>)
    ensures fresh(p) && p.Length == 64 && forall n: nat | n <= 64 :: p[..n] == Padding(n)
  {
    p := new Byte[64](i => if i == 0 then 0x80 else 0);
  }

  lemma PaddedIs(msg: seq<Byte>, bits: seq<Byte>)
    requires bits == Bytes([8 * |msg| % 0x1_0000_0000, 8 * |msg| / 0x1_0000_0000 % 0x1_0000_0000])
    ensures msg + Padding(PadLength(|msg| % 64)) + bits == Padded(msg)
  {
    hide Little, Padding, PadLength;
    var low, high: nat := 8 * |msg| % 0x1_0000_0000, 8 * |msg| / 0x1_0000_0000 % 0x1_0000_0000;
    TwoWords(low, high);
    LittleOfTwo(low, high);
    assert low + 0x1_0000_0000 * high == 8 * |msg| % 0x1_0000_0000_0000_0000 by {
      BothWords(8 * |msg|);
    }
  }

  lemma BothWords(n: nat)
    ensures n % 0x1_0000_0000 + 0x1_0000_0000 * (n / 0x1_0000_0000 % 0x1_0000_0000) == n % 0x1_0000_0000_0000_0000
  {
    var q := n / 0x1_0000_0000;
    LongRemainderOf(n, q / 0x1_0000_0000, q % 0x1_0000_0000, n % 0x1_0000_0000);
  }

  lemma LongRemainderOf(n: nat, t: nat, high: nat, low: nat)
    requires n == t * 0x1_0000_0000_0000_0000 + high * 0x1_0000_0000 + low
    requires low < 0x1_0000_0000 && high < 0x1_0000_0000
    ensures n % 0x1_0000_0000_0000_0000 == high * 0x1_0000_0000 + low
  {
    Quotient(n, 0x1_0000_0000_0000_0000, t, high * 0x1_0000_0000 + low);
  }

  lemma TwoWords(low: Word, high: Word)
    ensures Bytes([low, high]) == Little(low, 4) + Little(high, 4)
  {
    hide Little;
    assert [low, high][..1] == [low] && [low][..0] == [];
    BytesMore([low, high]);
    BytesMore([low]);
    NoBytes([]);
  }

  /** What both forms of `MD5Final` do once the bit count has been saved: pad, and append it. */
  method Finish(context: Context, ghost msg: seq<Byte>, bits: array<Byte>)
    requires context.Holds(msg) && bits.Length == 8 && bits != context.buffer
    requires bits[..] == Bytes(context.count[..])
    modifies context.state, context.count, context.buffer
    ensures context.Holds(Padded(msg))
  {
    hide Absorbed, Whole, Rest, Padding, Bytes, Padded, PadLength;
    var index := context.count[0] / 8 % 64;
    IndexIs(|msg|);
    var padLen := PadLength(index);
    var padding := NewPadding();
    assert padding[..padLen] == Padding(padLen);
    ghost var saved := bits[..];
    assert context.count[..] == [8 * |msg| % 0x1_0000_0000, 8 * |msg| / 0x1_0000_0000 % 0x1_0000_0000];
    PaddedIs(msg, saved);
    Update(context, msg, padding, padLen);
    Update(context, msg + Padding(padLen), bits, 8);
    assert bits[..8] == saved;
  }

  /** The form that leaves the digest in the registers. The host stores words low byte first. */
  method FinalState(context: Context, ghost msg: seq<Byte>)
    requires context.Holds(msg)
    modifies context.state, context.count, context.buffer
    ensures context.Shaped() && Bytes(context.state[..]) == Digest(msg)
  {
    hide Absorbed, Padded;
    var bits := new Byte[8];
    Encode(bits, context.count[..], 8);
    Finish(context, msg, bits);
    DigestIs(msg, context.state[..]);
  }

  lemma DigestIs(msg: seq<Byte>, state: seq<Word>)
    requires |state| == 4 && RegistersOf(state) == Absorbed(Initial(), Whole(Padded(msg)))
    ensures Bytes(state) == Digest(msg)
  {
    hide Absorbed, Padded, Little;
    assert Whole(Padded(msg)) == Padded(msg);
    var r := RegistersOf(state);
    TwoWords(r.a, r.b);
    assert state[..2] == [r.a, r.b];
    BytesMore(state[..3]);
    assert state[..3][..2] == state[..2];
    BytesMore(state[..4]);
    assert state[..4][..3] == state[..3] && state[..4] == state;
  }

  /** The form that returns the digest and wipes the context. */
  method Final(digest: array<Byte>, context: Context, ghost msg: seq<Byte>)
    requires context.Holds(msg) && digest.Length == 16 && digest != context.buffer
    modifies digest, context.state, context.count, context.buffer
    ensures digest[..] == Digest(msg)
    ensures forall k | 0 <= k < 4 :: context.state[k] == 0
    ensures forall k | 0 <= k < 2 :: context.count[k] == 0
    ensures forall k | 0 <= k < 64 :: context.buffer[k] == 0
  {
    hide Absorbed, Padded, Bytes;
    FinalState(context, msg);
    Encode(digest, context.state[..], 16);
    assert context.state[..][..4] == context.state[..];
    Wipe(context);
  }

  method Wipe(context: Context)
    requires context.Shaped()
    modifies context.state, context.count, context.buffer
    ensures forall k | 0 <= k < 4 :: context.state[k] == 0
    ensures forall k | 0 <= k < 2 :: context.count[k] == 0
    ensures forall k | 0 <= k < 64 :: context.buffer[k] == 0
  {
    context.state[0], context.state[1], context.state[2], context.state[3] := 0, 0, 0, 0;
    context.count[0], context.count[1] := 0, 0;
    var i := 0;
    while i < 64
      invariant i <= 64 && forall k | 0 <= k < i :: context.buffer[k] == 0
      invariant forall k | 0 <= k < 4 :: context.state[k] == 0
      invariant forall k | 0 <= k < 2 :: context.count[k] == 0
    {
      context.buffer[i] := 0;
      i := i + 1;
    }
  }

  function HexDigit(n: nat): char
    requires n < 16
  {
    "0123456789abcdef"[n]
  }

  function Hex(b: seq<Byte>): (s: string)
    ensures |s| == 2 * |b|
  {
    if b == [] then [] else Hex(b[..|b| - 1]) + [HexDigit(b[|b| - 1] / 16), HexDigit(b[|b| - 1] % 16)]
  }

  /** `%02x` for each byte of the digest. */
  method ToHex(szDigest: array<Byte>) returns (hex: string)
    requires szDigest.Length == 16
    ensures hex == Hex(szDigest[..])
  {
    hide HexDigit;
    var i := 0;
    hex := "";
    while i < 16
      invariant i <= 16 && hex == Hex(szDigest[..i])
    {
      assert szDigest[..i + 1][..i] == szDigest[..i];
      hex := hex + [HexDigit(szDigest[i] / 16), HexDigit(szDigest[i] % 16)];
      i := i + 1;
    }
    assert szDigest[..16] == szDigest[..];
  }

  /** `MD5`: the digest in hexadecimal. */
  method Hexadecimal(src: array<Byte>, inlen: nat) returns (hex: string)
    requires inlen <= src.Length && inlen < 0x1_0000_0000 && GuardFits(0, inlen)
    ensures hex == Hex(Digest(src[..inlen]))
  {
    hide Absorbed, Padded, Digest, Bytes, GuardFits, Hex, Whole, Rest, Context.Holds, RegistersOf;
    var context := new Context();
    Init(context);
    Update(context, [], src, inlen);
    assert [] + src[..inlen] == src[..inlen];
    FinalState(context, src[..inlen]);
    var szDigest := new Byte[16];
    assert context.state[..][..4] == context.state[..];
    Encode(szDigest, context.state[..], 16);
    assert szDigest[..] == Digest(src[..inlen]);
    hex := ToHex(szDigest);
  }

  function Joined(pieces: seq<seq<Byte>>): seq<Byte> {
    if pieces == [] then [] else Joined(pieces[..|pieces| - 1]) + pieces[|pieces| - 1]
  }

  /** The guard of the block loop is exact for every piece. */
  predicate PiecesFit(pieces: seq<seq<Byte>>) {
    forall i | 0 <= i < |pieces| ::
      |pieces[i]| < 0x1_0000_0000 && GuardFits(|Joined(pieces[..i])| % 64, |pieces[i]|)
  }

  /** Pieces below 0xffffffc0 bytes fit wherever they come. */
  lemma ShortPiecesFit(pieces: seq<seq<Byte>>)
    requires forall p | p in pieces :: |p| < 0xffff_ffc0
    ensures PiecesFit(pieces)
  {
    hide Joined;
    forall i | 0 <= i < |pieces| ensures GuardFits(|Joined(pieces[..i])| % 64, |pieces[i]|) {
      assert pieces[i] in pieces;
    }
  }

  /** A message sent in pieces leaves the context of the whole message. */
  method UpdateInPieces(context: Context, pieces: seq<seq<Byte>>)
    requires context.Holds([]) && PiecesFit(pieces)
    modifies context.state, context.count, context.buffer
    ensures context.Holds(Joined(pieces))
  {
    hide Absorbed, Whole, Rest;
    var i := 0;
    while i < |pieces|
      invariant i <= |pieces| && context.Holds(Joined(pieces[..i]))
    {
      var p := pieces[i];
      var input := new Byte[|p|](k requires 0 <= k < |p| => p[k]);
      assert input[..|p|] == p;
      Update(context, Joined(pieces[..i]), input, |p|);
      assert pieces[..i + 1][..i] == pieces[..i];
      i := i + 1;
    }
    assert pieces[..|pieces|] == pieces;
  }
}
