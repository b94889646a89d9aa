/**
 * The table-driven CRC-32 engine: bit reflection, the 256-entry lookup table
 * built from the IEEE 802.3 polynomial, the byte fold with pre- and
 * post-inversion, and the eight-digit upper-case result.
 *
 * Many of the lemmas below are deliberately tiny: the bit-vector solver is
 * fast on a fact about one explicit expression and slow once several
 * unfolded definitions meet, so each bit-level step is a lemma of its own.
 */
module Crc32 {
  import opened Strings
  import opened Hex
  import opened Files

  // The IEEE 802.3 polynomial 0x04C11DB7 (most significant bit first) and its
  // mirror image 0xEDB88320 appear as literals in Round and ReflectedRound.

  /** Initial register value and final complement mask. */
  const InitMask: bv32 := 0xFFFF_FFFF

  /** Bit k of a register (false for positions past the top). */
  predicate Bit(x: bv32, k: bv32) {
    k < 32 && (x >> k) & 1 == 1
  }

  // ---- reflect (crc32algorithm.cpp, `reflect`) ----

  /**
   * The loop of `reflect(ref, ch)`, counted by the steps still to run: the
   * source's step i (1 <= i <= ch) is the step with `left` = ch + 1 - i, and
   * copies the lowest bit of the shifted input to bit ch - i = left - 1.
   */
  function ReflectLoop(ref: bv32, left: bv32, value: bv32): bv32
    requires left <= 32
    decreases left
  {
    if left == 0 then value
    else ReflectLoop(ref >> 1, left - 1, NextValue(ref, left - 1, value))
  }

  /** The body of the loop: `if (ref & 1) value |= 1 << pos`. */
  function NextValue(ref: bv32, pos: bv32, value: bv32): bv32
    requires pos < 32
  {
    if ref & 1 == 1 then value | (1 << pos) else value
  }

  /** `reflect(x, n)`: the low n bits of x in mirrored order, every other bit clear. */
  function Reflect(x: bv32, n: bv32): (r: bv32)
    requires n <= 32
    ensures forall k: bv32 :: k < 32 ==> (Bit(r, k) <==> k < n && Bit(x, n - 1 - k))
  {
    ReflectMirrors(x, n);
    ReflectLoop(x, n, 0)
  }

  lemma SetBit(value: bv32, pos: bv32, k: bv32)
    requires pos < 32
    ensures Bit(value | (1 << pos), k) == (Bit(value, k) || k == pos)
  {}

  /** One step sets bit `pos` exactly when the input's lowest bit is set. */
  lemma NextBit(ref: bv32, pos: bv32, value: bv32, k: bv32)
    requires pos < 32
    ensures Bit(NextValue(ref, pos, value), k) == (Bit(value, k) || (Bit(ref, 0) && k == pos))
  {
    if ref & 1 == 1 {
      SetBit(value, pos, k);
    }
  }

  lemma LowBit(ref: bv32)
    ensures Bit(ref, 0) == (ref & 1 == 1)
  {}

  lemma ShrBit(ref: bv32, pos: bv32, k: bv32)
    requires k < pos < 32
    ensures Bit(ref >> 1, pos - 1 - k) == Bit(ref, pos - k)
  {}

  /**
   * The loop invariant of `reflect`: the remaining `left` steps add to
   * `value` the low `left` bits of `ref` in mirrored order, and nothing else.
   */
  lemma {:induction false} LoopBits(ref: bv32, left: bv32, value: bv32, k: bv32)
    requires left <= 32
    ensures Bit(ReflectLoop(ref, left, value), k) == (Bit(value, k) || (k < left && Bit(ref, left - 1 - k)))
    decreases left
  {
    if left > 0 {
      var pos := left - 1;
      NextBit(ref, pos, value, k);
      LowBit(ref);
      LoopBits(ref >> 1, pos, NextValue(ref, pos, value), k);
      if k < pos {
        ShrBit(ref, pos, k);
      }
    }
  }

  lemma ReflectMirrors(x: bv32, n: bv32)
    requires n <= 32
    ensures forall k: bv32 :: k < 32 ==> (Bit(ReflectLoop(x, n, 0), k) <==> k < n && Bit(x, n - 1 - k))
  {
    forall k: bv32 | k < 32
      ensures Bit(ReflectLoop(x, n, 0), k) <==> k < n && Bit(x, n - 1 - k)
    {
      LoopBits(x, n, 0, k);
    }
  }

  // ---- the two widths initCRC32 uses, as closed-form bit reversals ----

  lemma ShiftSplit(a: bv32, j: bv32)
    requires j < 32
    ensures a >> j == ((a >> (j + 1)) << 1) | (if Bit(a, j) then 1 else 0)
  {}

  lemma {:induction false} SameBitsFrom(a: bv32, b: bv32, j: bv32)
    requires j <= 32
    requires forall k: bv32 :: j <= k < 32 ==> Bit(a, k) == Bit(b, k)
    ensures a >> j == b >> j
    decreases 32 - j
  {
    if j < 32 {
      SameBitsFrom(a, b, j + 1);
      ShiftSplit(a, j);
      ShiftSplit(b, j);
    }
  }

  /** Two registers that agree on every bit are equal. */
  lemma SameBits(a: bv32, b: bv32)
    requires forall k: bv32 :: k < 32 ==> Bit(a, k) == Bit(b, k)
    ensures a == b
  {
    SameBitsFrom(a, b, 0);
  }

  /** The low byte of x reversed: bit j goes to bit 7-j. */
  function Mirror8(x: bv32): bv32 {
    ((x & 0x01) << 7) | ((x & 0x02) << 5) | ((x & 0x04) << 3) | ((x & 0x08) << 1)
    | ((x & 0x10) >> 1) | ((x & 0x20) >> 3) | ((x & 0x40) >> 5) | ((x & 0x80) >> 7)
  }

  /** The whole register reversed: bit j goes to bit 31-j. */
  function Mirror32(x: bv32): bv32 {
    ((x & 0x00000001) << 31)
    | ((x & 0x00000002) << 29)
    | ((x & 0x00000004) << 27)
    | ((x & 0x00000008) << 25)
    | ((x & 0x00000010) << 23)
    | ((x & 0x00000020) << 21)
    | ((x & 0x00000040) << 19)
    | ((x & 0x00000080) << 17)
    | ((x & 0x00000100) << 15)
    | ((x & 0x00000200) << 13)
    | ((x & 0x00000400) << 11)
    | ((x & 0x00000800) << 9)
    | ((x & 0x00001000) << 7)
    | ((x & 0x00002000) << 5)
    | ((x & 0x00004000) << 3)
    | ((x & 0x00008000) << 1)
    | ((x & 0x00010000) >> 1)
    | ((x & 0x00020000) >> 3)
    | ((x & 0x00040000) >> 5)
    | ((x & 0x00080000) >> 7)
    | ((x & 0x00100000) >> 9)
    | ((x & 0x00200000) >> 11)
    | ((x & 0x00400000) >> 13)
    | ((x & 0x00800000) >> 15)
    | ((x & 0x01000000) >> 17)
    | ((x & 0x02000000) >> 19)
    | ((x & 0x04000000) >> 21)
    | ((x & 0x08000000) >> 23)
    | ((x & 0x10000000) >> 25)
    | ((x & 0x20000000) >> 27)
    | ((x & 0x40000000) >> 29)
    | ((x & 0x80000000) >> 31)
  }

  lemma Mirror8Bit(x: bv32, k: bv32)
    requires k < 32
    ensures Bit(Mirror8(x), k) <==> k < 8 && Bit(x, 7 - k)
  {}

  lemma Mirror32Bit(x: bv32, k: bv32)
    requires k < 32
    ensures Bit(Mirror32(x), k) == Bit(x, 31 - k)
  {}

  /** `reflect(x, 8)` is the byte reversal. */
  lemma Reflect8(x: bv32)
    ensures Reflect(x, 8) == Mirror8(x)
  {
    forall k: bv32 | k < 32 ensures Bit(Reflect(x, 8), k) == Bit(Mirror8(x), k) {
      Mirror8Bit(x, k);
    }
    SameBits(Reflect(x, 8), Mirror8(x));
  }

  /** `reflect(x, 32)` is the register reversal. */
  lemma Reflect32(x: bv32)
    ensures Reflect(x, 32) == Mirror32(x)
  {
    forall k: bv32 | k < 32 ensures Bit(Reflect(x, 32), k) == Bit(Mirror32(x), k) {
      Mirror32Bit(x, k);
    }
    SameBits(Reflect(x, 32), Mirror32(x));
  }

  /** Reflecting the low n bits twice restores them and clears every bit above them. */
  lemma ReflectTwiceBits(x: bv32, n: bv32)
    requires n <= 32
    ensures forall k: bv32 :: k < 32 ==> (Bit(Reflect(Reflect(x, n), n), k) <==> k < n && Bit(x, k))
  {
    var once := Reflect(x, n);
    forall k: bv32 | k < 32
      ensures Bit(Reflect(once, n), k) <==> k < n && Bit(x, k)
    {
      if k < n {
        assert n - 1 - (n - 1 - k) == k;
        assert Bit(once, n - 1 - k) <==> Bit(x, k);
      }
    }
  }

  /** Reflection is its own inverse on the bits it covers; in particular at both widths the engine uses. */
  lemma ReflectTwice(x: bv32)
    ensures Reflect(Reflect(x, 32), 32) == x
    ensures Reflect(Reflect(x, 8), 8) == x & 0xFF
  {
    ReflectTwiceBits(x, 32);
    SameBits(Reflect(Reflect(x, 32), 32), x);
    ReflectTwiceBits(x, 8);
    forall k: bv32 | k < 32
      ensures Bit(x & 0xFF, k) <==> k < 8 && Bit(x, k)
    {
      LowByteBit(x, k);
    }
    SameBits(Reflect(Reflect(x, 8), 8), x & 0xFF);
  }

  lemma LowByteBit(x: bv32, k: bv32)
    requires k < 32
    ensures Bit(x & 0xFF, k) <==> k < 8 && Bit(x, k)
  {}

  // ---- the lookup table (initCRC32) ----

  /** One round of the table loop: shift left, XOR the polynomial when the top bit was set. */
  function Round(c: bv32): bv32 {
    (c << 1) ^ (if c & 0x8000_0000 != 0 then 0x04C1_1DB7 else 0)
  }

  function Rounds(c: bv32, j: nat): bv32
    decreases j
  {
    if j == 0 then c else Rounds(Round(c), j - 1)
  }

  /** One round of the bit-reversed CRC: shift right, XOR 0xEDB88320 when the low bit was set. */
  function ReflectedRound(c: bv32): bv32 {
    (c >> 1) ^ (if c & 1 == 1 then 0xEDB8_8320 else 0)
  }

  function ReflectedRounds(c: bv32, j: nat): bv32
    decreases j
  {
    if j == 0 then c else ReflectedRounds(ReflectedRound(c), j - 1)
  }

  lemma MirrorXor(a: bv32, b: bv32)
    ensures Mirror32(a ^ b) == Mirror32(a) ^ Mirror32(b)
  {}

  lemma MirrorShl(c: bv32)
    ensures Mirror32(c << 1) == Mirror32(c) >> 1
  {}

  lemma MirrorTop(c: bv32)
    ensures (c & 0x8000_0000 != 0) == (Mirror32(c) & 1 == 1)
  {}

  lemma PolynomialMirror()
    ensures Mirror32(0x04C1_1DB7) == 0xEDB8_8320 && Mirror32(0) == 0
  {}

  /** Mirroring turns a left round with 0x04C11DB7 into a right round with 0xEDB88320. */
  lemma MirrorRound(c: bv32)
    ensures Mirror32(Round(c)) == ReflectedRound(Mirror32(c))
  {
    var p: bv32 := if c & 0x8000_0000 != 0 then 0x04C1_1DB7 else 0;
    MirrorXor(c << 1, p);
    MirrorShl(c);
    MirrorTop(c);
    PolynomialMirror();
  }

  lemma {:induction false} MirrorRounds(c: bv32, j: nat)
    ensures Mirror32(Rounds(c, j)) == ReflectedRounds(Mirror32(c), j)
    decreases j
  {
    if j > 0 {
      MirrorRound(c);
      MirrorRounds(Round(c), j - 1);
    }
  }

  /** Placing the reversed byte in the top byte and reversing the register gives the byte back. */
  lemma TopByteMirror(i: bv32)
    requires i < 256
    ensures Mirror32(Mirror8(i) << 24) == i
  {}

  /** Eight reflected rounds: the per-byte work of the table-free algorithm. */
  function ByteRounds(c: bv32): bv32 {
    ReflectedRounds(c, 8)
  }

  /** `crc32table[i]`: reflect(8 rounds on reflect(i, 8) << 24, 32). */
  function TableEntry(i: bv32): (t: bv32)
    requires i < 256
    ensures t == ByteRounds(i)
  {
    Reflect8(i);
    Reflect32(Rounds(Mirror8(i) << 24, 8));
    MirrorRounds(Mirror8(i) << 24, 8);
    TopByteMirror(i);
    Reflect(Rounds(Reflect(i, 8) << 24, 8), 32)
  }

  /** The 256-entry table `initCRC32` fills. */
  function Table(): (t: seq<bv32>)
    ensures |t| == 256
    ensures forall i: bv32 :: i < 256 ==> t[i as int] == ByteRounds(i)
  {
    var t := seq(256, i requires 0 <= i < 256 => TableEntry(i as bv32));
    EntriesByIndex(t);
    t
  }

  /** A table filled by integer position, read back by register value. */
  lemma EntriesByIndex(t: seq<bv32>)
    requires |t| == 256 && forall i :: 0 <= i < 256 ==> t[i] == TableEntry(i as bv32)
    ensures forall i: bv32 :: i < 256 ==> t[i as int] == ByteRounds(i)
  {
    forall i: bv32 | i < 256 ensures t[i as int] == ByteRounds(i) {
      assert (i as int) as bv32 == i;
    }
  }

  // ---- the byte fold (hashFile) ----

  /** `crc = (crc >> 8) ^ table[(crc & 0xFF) ^ b]`. */
  function Step(table: seq<bv32>, crc: bv32, b: byte): bv32
    requires |table| == 256
  {
    (crc >> 8) ^ table[((crc & 0xFF) ^ (b as bv32)) as int]
  }

  function Fold(table: seq<bv32>, crc: bv32, data: seq<byte>): bv32
    requires |table| == 256
    decreases |data|
  {
    if |data| == 0 then crc else Fold(table, Step(table, crc, data[0]), data[1..])
  }

  /** Folding a++b is folding b from the register left after a: the engine can stream. */
  lemma {:induction false} FoldAppend(table: seq<bv32>, crc: bv32, a: seq<byte>, b: seq<byte>)
    requires |table| == 256
    ensures Fold(table, crc, a + b) == Fold(table, Fold(table, crc, a), b)
    decreases |a|
  {
    if |a| == 0 {
      assert a + b == b;
    } else {
      assert (a + b)[0] == a[0];
      assert (a + b)[1..] == a[1..] + b;
      FoldAppend(table, Step(table, crc, a[0]), a[1..], b);
    }
  }

  /** The CRC-32 value: pre-inverted register, table fold, post-inversion. */
  function Checksum(data: seq<byte>): bv32 {
    Fold(Table(), InitMask, data) ^ InitMask
  }

  /** The published check value: CRC-32 of "123456789" is CBF43926; empty input gives 00000000. */
  lemma CheckValues()
    ensures Checksum([0x31, 0x32, 0x33, 0x34, 0x35, 0x36, 0x37, 0x38, 0x39]) == 0xCBF4_3926
    ensures Checksum([]) == 0
  {
    CheckStep(0x651F_2550, [0x39], 0x340B_C6D9);
    CheckStep(0xAFFC_9660, [0x38, 0x39], 0x651F_2550);
    CheckStep(0xF68D_2C9E, [0x37, 0x38, 0x39], 0xAFFC_9660);
    CheckStep(0x340A_C5E3, [0x36, 0x37, 0x38, 0x39], 0xF68D_2C9E);
    CheckStep(0x641C_1F5C, [0x35, 0x36, 0x37, 0x38, 0x39], 0x340A_C5E3);
    CheckStep(0x77B7_9C2D, [0x34, 0x35, 0x36, 0x37, 0x38, 0x39], 0x641C_1F5C);
    CheckStep(0xB0AC_BB32, [0x33, 0x34, 0x35, 0x36, 0x37, 0x38, 0x39], 0x77B7_9C2D);
    CheckStep(0x7C23_1048, [0x32, 0x33, 0x34, 0x35, 0x36, 0x37, 0x38, 0x39], 0xB0AC_BB32);
    CheckStep(0xFFFF_FFFF, [0x31, 0x32, 0x33, 0x34, 0x35, 0x36, 0x37, 0x38, 0x39], 0x7C23_1048);
  }

  /** One byte of the check-value computation: the table fold from `crc` over `data`. */
  lemma CheckStep(crc: bv32, data: seq<byte>, next: bv32)
    requires |data| > 0 && (crc >> 8) ^ ByteRounds((crc & 0xFF) ^ (data[0] as bv32)) == next
    requires Fold(Table(), next, data[1..]) == 0x340B_C6D9
    ensures Fold(Table(), crc, data) == 0x340B_C6D9
  {
    TableStep(crc, data[0]);
  }

  /** A table step is the shifted register XOR eight reflected rounds of the index byte. */
  lemma TableStep(crc: bv32, b: byte)
    ensures Step(Table(), crc, b) == (crc >> 8) ^ ByteRounds((crc & 0xFF) ^ (b as bv32))
  {}

  // ---- the engine object (Crc32algorithm::hashFile) ----

  /** The engine's only state: the lookup table, absent until first needed. */
  datatype Engine = Engine(table: Option<seq<bv32>>)

  ghost predicate Valid(e: Engine) {
    e.table.None? || e.table == Some(Table())
  }

  datatype Outcome = Outcome(engine: Engine, text: string)

  /**
   * `hashFile`: the error text for a missing or unopenable file, otherwise
   * the eight-digit checksum; the table is built on the first successfully
   * opened file and reused afterwards.
   */
  function HashFile(e: Engine, file: FileState): (o: Outcome)
    requires Valid(e)
    ensures Valid(o.engine)
    ensures file.Missing? ==> o == Outcome(e, "ERROR: File not found.")
    ensures file.Unopenable? ==> o == Outcome(e, "ERROR: " + file.message)
    ensures file.Readable? ==>
      o.engine.table == Some(Table()) && o.text == Upper8(Checksum(file.content))
  {
    match file
    case Missing => Outcome(e, "ERROR: File not found.")
    case Unopenable(message) => Outcome(e, "ERROR: " + message)
    case Readable(content) =>
      var table := if e.table.Some? then e.table.value else Table();
      Outcome(Engine(Some(table)), Upper8(Fold(table, InitMask, content) ^ InitMask))
  }

  /** The result never depends on whether the table had been built already. */
  lemma LazyTableInvisible(e1: Engine, e2: Engine, file: FileState)
    requires Valid(e1) && Valid(e2)
    ensures HashFile(e1, file).text == HashFile(e2, file).text
  {}
}
