/** The 32-bit words, bytes and register numbers that every hardware block and the
    assembler exchange. A word is the integer its bits denote; wrap-around is explicit. */
module Words {
  type Word = x: int | 0 <= x < 0x1_0000_0000
  type Byte = x: int | 0 <= x < 0x100
  type RegNo = x: int | 0 <= x < 32

  /** What the four bytes of a memory access give in one cycle where they lie outside the memory. */
  datatype Unread = Unread(b0: Byte, b1: Byte, b2: Byte, b3: Byte)

  /** The low 32 bits of an integer, as a word. */
  function Wrap(x: int): Word {
    x % 0x1_0000_0000
  }

  function Pow2(n: nat): (p: nat)
    ensures p >= 1
  {
    if n == 0 then 1 else 2 * Pow2(n - 1)
  }

  // ----- instruction fields -----

  function Opcode(w: Word): int { w % 128 }                  // bits 6-0
  function Rd(w: Word): RegNo { w / 128 % 32 }               // bits 11-7
  function Funct3(w: Word): int { w / 4096 % 8 }             // bits 14-12
  function Rs1(w: Word): RegNo { w / 32768 % 32 }            // bits 19-15
  function Rs2(w: Word): RegNo { w / 1048576 % 32 }          // bits 24-20
  function Funct7(w: Word): int { w / 33554432 }             // bits 31-25

  // ----- bitwise operations -----

  datatype BitOp = BitAnd | BitOr | BitXor {
    predicate On(a: bool, b: bool) {
      match this
      case BitAnd => a && b
      case BitOr => a || b
      case BitXor => a != b
    }
  }

  /** Bit `i` of a natural number. */
  predicate BitAt(a: nat, i: nat) {
    if i == 0 then a % 2 == 1 else BitAt(a / 2, i - 1)
  }

  /** The bitwise operation on the low `width` bits. */
  function Bitwise(op: BitOp, a: nat, b: nat, width: nat): (r: nat)
    ensures r < Pow2(width)
  {
    if width == 0 then 0
    else (if op.On(a % 2 == 1, b % 2 == 1) then 1 else 0) + 2 * Bitwise(op, a / 2, b / 2, width - 1)
  }

  lemma {:induction false} BitwiseAt(op: BitOp, a: nat, b: nat, width: nat, i: nat)
    requires i < width
    ensures BitAt(Bitwise(op, a, b, width), i) == op.On(BitAt(a, i), BitAt(b, i))
  {
    if i > 0 {
      BitwiseAt(op, a / 2, b / 2, width - 1, i - 1);
      assert Bitwise(op, a, b, width) / 2 == Bitwise(op, a / 2, b / 2, width - 1);
    }
  }

  lemma Pow2Of32()
    ensures Pow2(32) == 0x1_0000_0000
  {
    assert Pow2(8) == 256;
    assert Pow2(16) == 65536 by { assert Pow2(12) == 4096; }
    assert Pow2(24) == 16777216 by { assert Pow2(20) == 1048576; }
    assert Pow2(28) == 268435456;
  }

  function And(a: Word, b: Word): Word { Pow2Of32(); Bitwise(BitAnd, a, b, 32) }
  function Or(a: Word, b: Word): Word { Pow2Of32(); Bitwise(BitOr, a, b, 32) }
  function Xor(a: Word, b: Word): Word { Pow2Of32(); Bitwise(BitXor, a, b, 32) }

  // ----- shifts: the amount is the low five bits of the second word -----

  function ShiftLeft(a: Word, b: Word): Word { Wrap(a * Pow2(b % 32)) }

  function ShiftRight(a: Word, b: Word): Word
  {
    DivShrinks(a, Pow2(b % 32));
    a / Pow2(b % 32)
  }

  lemma DivShrinks(a: nat, d: nat)
    requires d >= 1
    ensures 0 <= a / d <= a
  {
    assert a == d * (a / d) + a % d;
    MulGrows(d, a / d);
  }

  lemma MulGrows(d: nat, q: nat)
    requires d >= 1
    ensures d * q >= q
  {
    assert (d - 1) * q >= 0;
  }

  // ----- quotients and remainders -----

  lemma ModUnique(v: int, d: nat, q: int, r: nat)
    requires v == d * q + r && r < d
    ensures v % d == r && v / d == q
  {
    var k := v / d - q;
    assert v == d * (v / d) + v % d;
    assert d * (v / d) == d * q + d * k;
    MulAtLeast(d, k);
  }

  lemma MulAtLeast(d: int, k: int)
    requires d >= 0
    ensures k >= 1 ==> d * k >= d
    ensures k <= -1 ==> d * k <= -d
  {
    assert k >= 1 ==> d * (k - 1) >= 0;
    assert k <= -1 ==> d * (-1 - k) >= 0;
  }

  lemma MulMonotone(x: int, y: int, k: nat)
    requires x <= y
    ensures x * k <= y * k
  {
    assert (y - x) * k >= 0;
  }
}
