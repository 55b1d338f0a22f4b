/** The byte-addressed data memory (rtl/mem.sv). Reading outside the array gives an unknown
    value in the source; it is the parameter `unknown` here, any four bytes. Writing outside the
    array does nothing. The third arm of the source's read cascade repeats the condition of the
    first and is never taken. */
module Mem {
  import opened Words
  import opened ControlLogic
  import Isa

  function ByteAt(mem: seq<Byte>, a: Word, unknown: Byte): Byte {
    if a < |mem| then mem[a] else unknown
  }

  function Put(mem: seq<Byte>, a: Word, b: Byte): (m: seq<Byte>)
    ensures |m| == |mem|
  {
    if a < |mem| then mem[a := b] else mem
  }

  function Join(b0: Byte, b1: Byte, b2: Byte, b3: Byte): Word {
    b0 + 0x100 * b1 + 0x1_0000 * b2 + 0x100_0000 * b3
  }

  function Mask(size: MemSize, w: Word): Word {
    match size
    case BYTE => w % 0x100
    case HALF => w % 0x1_0000
    case WORD => w
  }

  /** The asynchronous read `data_r`; the index of the last byte is |mem| - 1. */
  function Read(mem: seq<Byte>, memRW: bool, size: MemSize, a: Word, unknown: Unread): Word {
    if memRW then 0xffff_ffff
    else
      var b0, b1 := ByteAt(mem, a, unknown.b0), ByteAt(mem, Wrap(a + 1), unknown.b1);
      var b2, b3 := ByteAt(mem, Wrap(a + 2), unknown.b2), ByteAt(mem, Wrap(a + 3), unknown.b3);
      Mask(size, if Wrap(a + 1) > |mem| - 1 then Join(b0, 0, 0, 0)
                 else if Wrap(a + 2) > |mem| - 1 then Join(b0, b1, 0, 0)
                 else Join(b0, b1, b2, b3))
  }

  /** The bytes after a clock edge with `memRW` high. */
  function Write(mem: seq<Byte>, size: MemSize, a: Word, data: Word): (m: seq<Byte>)
    ensures |m| == |mem|
  {
    var last := |mem| - 1;
    match size
    case BYTE => Put(mem, a, data % 256)
    case HALF =>
      var m1 := Put(mem, Wrap(a + 1), data / 0x100 % 256);
      if Wrap(a + 1) <= last then Put(m1, a, data % 256) else m1
    case WORD =>
      var m3 := Put(mem, Wrap(a + 3), data / 0x100_0000);
      var m2 := if Wrap(a + 1) <= last then Put(m3, Wrap(a + 2), data / 0x1_0000 % 256) else m3;
      var m1 := if Wrap(a + 2) <= last then Put(m2, Wrap(a + 1), data / 0x100 % 256) else m2;
      if Wrap(a + 3) <= last then Put(m1, a, data % 256) else m1
  }

  datatype Memory = Memory(bytes: seq<Byte>, dataOut: Word, aluOut: Word) {
    function Next(memRW: bool, size: MemSize, data: Word, a: Word, unknown: Unread): (m: Memory)
      ensures |m.bytes| == |bytes|
    {
      Memory(if memRW then Write(bytes, size, a, data) else bytes,
             Read(bytes, memRW, size, a, unknown),
             a)
    }

    function Reset(): (m: Memory)
      ensures |m.bytes| == |bytes|
    {
      Memory(seq(|bytes|, _ => 0xff), 0xffff_ffff, 0)
    }
  }

  class DataMemory {
    const mem: array<Byte>
    var dataOut: Word
    var aluOut: Word

    constructor (n: nat)
      ensures fresh(this) && fresh(mem) && mem.Length == n + 1
    {
      mem := new Byte[n + 1](_ => 0);
      dataOut, aluOut := 0, 0;
    }

    function Value(): Memory
      reads this, mem
    {
      Memory(mem[..], dataOut, aluOut)
    }

    method PutByte(a: Word, b: Byte)
      modifies mem
      ensures mem[..] == Put(old(mem[..]), a, b)
    {
      if a < mem.Length {
        mem[a] := b;
      }
    }

    method WriteSized(size: MemSize, data: Word, a: Word)
      modifies mem
      ensures mem[..] == Write(old(mem[..]), size, a, data)
    {
      var n := mem.Length - 1;
      match size {
        case BYTE =>
          PutByte(a, data % 256);
        case HALF =>
          PutByte(Wrap(a + 1), data / 0x100 % 256);
          if Wrap(a + 1) <= n { PutByte(a, data % 256); }
        case WORD =>
          PutByte(Wrap(a + 3), data / 0x100_0000);
          if Wrap(a + 1) <= n { PutByte(Wrap(a + 2), data / 0x1_0000 % 256); }
          if Wrap(a + 2) <= n { PutByte(Wrap(a + 1), data / 0x100 % 256); }
          if Wrap(a + 3) <= n { PutByte(a, data % 256); }
      }
    }

    /** One rising edge. */
    method Clock(rst: bool, memRW: bool, size: MemSize, data: Word, a: Word, unknown: Unread)
      modifies this, mem
      ensures Value() == if rst then old(Value()).Reset()
                         else old(Value()).Next(memRW, size, data, a, unknown)
    {
      if rst {
        dataOut := 0xffff_ffff;
        aluOut := 0;
        for i := 0 to mem.Length
          invariant forall j :: 0 <= j < i ==> mem[j] == 0xff
          invariant dataOut == 0xffff_ffff && aluOut == 0
        {
          mem[i] := 0xff;
        }
        assert mem[..] == seq(mem.Length, _ => 0xff);
      } else {
        dataOut := Read(mem[..], memRW, size, a, unknown);
        aluOut := a;
        if memRW {
          WriteSized(size, data, a);
        }
      }
    }
  }

  // ----- agreement with the little-endian reference, for accesses inside the array -----

  function Bytes(size: MemSize): nat {
    match size
    case BYTE => 1
    case HALF => 2
    case WORD => 4
  }

  lemma MaskJoin(b0: Byte, b1: Byte, b2: Byte, b3: Byte)
    ensures Mask(BYTE, Join(b0, b1, b2, b3)) == b0
    ensures Mask(HALF, Join(b0, b1, b2, b3)) == b0 + 256 * b1
  {
    var high: int := b1 + 256 * b2 + 0x1_0000 * b3;
    assert Join(b0, b1, b2, b3) == b0 + 256 * high;
    var upper: int := b2 + 256 * b3;
    assert Join(b0, b1, b2, b3) == (b0 + 256 * b1) + 0x1_0000 * upper;
  }

  lemma ReadIsLoad(mem: seq<Byte>, size: MemSize, a: Word, unknown: Unread)
    requires |mem| < 0x1_0000_0000 && a + Bytes(size) <= |mem|
    ensures Read(mem, false, size, a, unknown) == Isa.LoadLE(mem, a, Bytes(size))
  {
    match size {
      case BYTE => ReadIsLoad1(mem, a, unknown);
      case HALF => ReadIsLoad2(mem, a, unknown);
      case WORD => ReadIsLoad4(mem, a, unknown);
    }
  }

  lemma ReadIsLoad1(mem: seq<Byte>, a: Word, unknown: Unread)
    requires |mem| < 0x1_0000_0000 && a + 1 <= |mem|
    ensures Read(mem, false, BYTE, a, unknown) == Isa.LoadLE(mem, a, 1)
  {
    LoadUnrolled(mem, a, 1);
    var b1 := ByteAt(mem, Wrap(a + 1), unknown.b1);
    var b2, b3 := ByteAt(mem, Wrap(a + 2), unknown.b2), ByteAt(mem, Wrap(a + 3), unknown.b3);
    MaskJoin(mem[a], 0, 0, 0);
    MaskJoin(mem[a], b1, 0, 0);
    MaskJoin(mem[a], b1, b2, b3);
  }

  lemma ReadIsLoad2(mem: seq<Byte>, a: Word, unknown: Unread)
    requires |mem| < 0x1_0000_0000 && a + 2 <= |mem|
    ensures Read(mem, false, HALF, a, unknown) == Isa.LoadLE(mem, a, 2)
  {
    LoadUnrolled(mem, a, 2);
    var b2, b3 := ByteAt(mem, Wrap(a + 2), unknown.b2), ByteAt(mem, Wrap(a + 3), unknown.b3);
    assert Wrap(a + 1) == a + 1;
    MaskJoin(mem[a], mem[a + 1], 0, 0);
    MaskJoin(mem[a], mem[a + 1], b2, b3);
  }

  lemma ReadIsLoad4(mem: seq<Byte>, a: Word, unknown: Unread)
    requires |mem| < 0x1_0000_0000 && a + 4 <= |mem|
    ensures Read(mem, false, WORD, a, unknown) == Isa.LoadLE(mem, a, 4)
  {
    LoadUnrolled(mem, a, 4);
    assert Wrap(a + 1) == a + 1 && Wrap(a + 2) == a + 2 && Wrap(a + 3) == a + 3;
  }

  lemma LoadUnrolled(mem: seq<Byte>, a: nat, n: nat)
    requires n in {1, 2, 4} && a + n <= |mem|
    ensures Isa.LoadLE(mem, a, n) ==
            if n == 1 then mem[a] as int
            else if n == 2 then mem[a] as int + 256 * (mem[a + 1] as int)
            else Join(mem[a], mem[a + 1], mem[a + 2], mem[a + 3]) as int
  {
    assert Isa.LoadLE(mem, a + n, 0) == 0;
    assert Isa.LoadLE(mem, a + n - 1, 1) == mem[a + n - 1];
    if n >= 2 {
      assert Isa.LoadLE(mem, a + n - 2, 2) == mem[a + n - 2] as int + 256 * (mem[a + n - 1] as int);
    }
    if n == 4 {
      assert Isa.LoadLE(mem, a + 1, 3) == mem[a + 1] as int + 256 * Isa.LoadLE(mem, a + 2, 2);
    }
  }

  lemma WriteIsStore(mem: seq<Byte>, size: MemSize, a: Word, data: Word)
    requires |mem| < 0x1_0000_0000 && a + Bytes(size) <= |mem|
    ensures Write(mem, size, a, data) == Isa.StoreLE(mem, a, Bytes(size), data)
  {
    var stored := Isa.StoreLE(mem, a, Bytes(size), data);
    StoreBytes(mem, a, Bytes(size), data);
    BytesOfWord(data);
    WriteBytes(mem, size, a, data);
    assert Write(mem, size, a, data) == stored;
  }

  lemma WriteBytes(mem: seq<Byte>, size: MemSize, a: Word, data: Word)
    requires |mem| < 0x1_0000_0000 && a + Bytes(size) <= |mem|
    ensures var b := (data % 256, data / 0x100 % 256, data / 0x1_0000 % 256, data / 0x100_0000);
      Write(mem, size, a, data) ==
      match size
      case BYTE => mem[a := b.0]
      case HALF => mem[a := b.0][a + 1 := b.1]
      case WORD => mem[a := b.0][a + 1 := b.1][a + 2 := b.2][a + 3 := b.3]
  {
    if !size.BYTE? { assert Wrap(a + 1) == a + 1; }
    if size.WORD? { assert Wrap(a + 2) == a + 2 && Wrap(a + 3) == a + 3; }
  }

  lemma BytesOfWord(data: Word)
    ensures ByteOf(data, 0) == data % 256
    ensures ByteOf(data, 1) == data / 0x100 % 256
    ensures ByteOf(data, 2) == data / 0x1_0000 % 256
    ensures ByteOf(data, 3) == data / 0x100_0000
  {
    DivTwice(data, 256);
    DivTwice(data, 0x1_0000);
    assert ByteOf(data, 2) == ByteOf(data / 256, 1) == ByteOf(data / 256 / 256, 0);
    assert ByteOf(data, 3) == ByteOf(data / 256, 2) == ByteOf(data / 256 / 256, 1);
  }

  lemma DivTwice(x: nat, d: nat)
    requires d in {256, 0x1_0000}
    ensures x / d / 256 == x / (d * 256)
  {
  }

  function ByteOf(v: nat, k: nat): Byte {
    if k == 0 then v % 256 else ByteOf(v / 256, k - 1)
  }

  /** A store puts byte k of the value at a + k and leaves the rest alone. */
  lemma {:induction false} StoreBytes(mem: seq<Byte>, a: nat, n: nat, v: nat)
    requires a + n <= |mem|
    ensures forall j :: 0 <= j < |mem| ==>
      Isa.StoreLE(mem, a, n, v)[j] == if a <= j < a + n then ByteOf(v, j - a) else mem[j]
    decreases n
  {
    if n > 0 {
      StoreBytes(mem[a := v % 256], a + 1, n - 1, v / 256);
    }
  }

  lemma {:induction false} LoadSame(m1: seq<Byte>, m2: seq<Byte>, a: nat, n: nat)
    requires a + n <= |m1| == |m2|
    requires forall j :: a <= j < a + n ==> m1[j] == m2[j]
    ensures Isa.LoadLE(m1, a, n) == Isa.LoadLE(m2, a, n)
    decreases n
  {
    if n > 0 {
      LoadSame(m1, m2, a + 1, n - 1);
    }
  }

  lemma {:induction false} LoadStored(mem: seq<Byte>, a: nat, n: nat, v: nat)
    requires a + n <= |mem|
    ensures Isa.LoadLE(Isa.StoreLE(mem, a, n, v), a, n) == v % Pow2(8 * n)
    decreases n
  {
    if n > 0 {
      var mem' := mem[a := v % 256];
      LoadStored(mem', a + 1, n - 1, v / 256);
      StoreBytes(mem, a, n, v);
      ModSplit(v, n);
    } else {
      assert v % 1 == 0;
    }
  }

  lemma ModSplit(v: nat, n: nat)
    requires n > 0
    ensures v % 256 + 256 * (v / 256 % Pow2(8 * (n - 1))) == v % Pow2(8 * n)
  {
    var q := Pow2(8 * (n - 1));
    assert Pow2(8 * n) == 256 * q by {
      assert Pow2(8 * n) == 2 * Pow2(8 * n - 1) == 4 * Pow2(8 * n - 2) == 8 * Pow2(8 * n - 3);
      assert Pow2(8 * n - 3) == 2 * Pow2(8 * n - 4) == 4 * Pow2(8 * n - 5) == 8 * Pow2(8 * n - 6);
      assert Pow2(8 * n - 6) == 2 * Pow2(8 * n - 7) == 4 * Pow2(8 * n - 8);
    }
    var h, r := v / 256 / q, v / 256 % q;
    assert v / 256 == q * h + r;
    assert v == (256 * q) * h + (v % 256 + 256 * r) by {
      assert v == 256 * (v / 256) + v % 256;
      assert 256 * (q * h) == (256 * q) * h;
    }
    ModUnique(v, 256 * q, h, v % 256 + 256 * r);
  }

  /** A sized store and what it may be followed by. */
  datatype StoreOp = StoreOp(size: MemSize, a: Word, data: Word)

  function WriteAll(mem: seq<Byte>, ops: seq<StoreOp>): (m: seq<Byte>)
    ensures |m| == |mem|
  {
    if ops == [] then mem
    else Write(WriteAll(mem, ops[..|ops| - 1]), ops[|ops| - 1].size, ops[|ops| - 1].a, ops[|ops| - 1].data)
  }

  predicate Inside(mem: seq<Byte>, op: StoreOp) {
    op.a + Bytes(op.size) <= |mem|
  }

  predicate Apart(op: StoreOp, a: Word, n: nat) {
    op.a + Bytes(op.size) <= a || a + n <= op.a
  }

  /** Stores keep every byte outside their own ranges. */
  lemma {:induction false} WriteAllKeeps(mem: seq<Byte>, ops: seq<StoreOp>, a: Word, n: nat)
    requires |mem| < 0x1_0000_0000 && a + n <= |mem|
    requires forall k :: 0 <= k < |ops| ==> Inside(mem, ops[k]) && Apart(ops[k], a, n)
    ensures forall j :: a <= j < a + n ==> WriteAll(mem, ops)[j] == mem[j]
  {
    if ops != [] {
      var before := ops[..|ops| - 1];
      WriteAllKeeps(mem, before, a, n);
      var m, op := WriteAll(mem, before), ops[|ops| - 1];
      assert Inside(mem, op) && Apart(op, a, n);
      WriteIsStore(m, op.size, op.a, op.data);
      StoreBytes(m, op.a, Bytes(op.size), op.data);
    }
  }

  /** A load returns what the last overlapping store of that size and address left, whatever
      non-overlapping stores came in between. */
  lemma StoreThenLoad(mem: seq<Byte>, first: StoreOp, ops: seq<StoreOp>, unknown: Unread)
    requires |mem| < 0x1_0000_0000 && Inside(mem, first)
    requires forall k :: 0 <= k < |ops| ==> Inside(mem, ops[k]) && Apart(ops[k], first.a, Bytes(first.size))
    ensures var stored := Write(mem, first.size, first.a, first.data);
      && Read(WriteAll(stored, ops), false, first.size, first.a, unknown) == first.data % Pow2(8 * Bytes(first.size))
      && (forall j :: 0 <= j < |mem| && !(first.a <= j < first.a + Bytes(first.size)) ==> stored[j] == mem[j])
  {
    var n := Bytes(first.size);
    var stored := Write(mem, first.size, first.a, first.data);
    WriteIsStore(mem, first.size, first.a, first.data);
    StoreBytes(mem, first.a, n, first.data);
    WriteAllKeeps(stored, ops, first.a, n);
    LoadSame(WriteAll(stored, ops), stored, first.a, n);
    LoadStored(mem, first.a, n, first.data);
    ReadIsLoad(WriteAll(stored, ops), first.size, first.a, unknown);
  }

  // ----- the edge of the memory -----

  lemma WrapAround(a: Word, k: nat)
    requires 0 < k < 4
    ensures Wrap(a + k) == if a + k < 0x1_0000_0000 then a + k else a + k - 0x1_0000_0000
  {
  }

  /** A store that reaches beyond the end does nothing, but for a word at the third byte from the end:
      its two middle bytes are written. */
  lemma StoreOutside(mem: seq<Byte>, size: MemSize, a: Word, data: Word)
    requires |mem| < 0x1_0000_0000 && |mem| < a + Bytes(size) <= 0x1_0000_0000
    ensures Write(mem, size, a, data) ==
      if size == WORD && a + 3 == |mem| then mem[a + 1 := ByteOf(data, 1)][a + 2 := ByteOf(data, 2)] else mem
  {
    hide Wrap, ByteOf;
    BytesOfWord(data);
    WrapAround(a, 1);
    WrapAround(a, 2);
    WrapAround(a, 3);
  }

  /** A store that reaches beyond the last address goes on at address 0: a half-word and a word at the
      last address lose their first byte, a word at the two before keeps only its last. */
  lemma StoreAround(mem: seq<Byte>, size: MemSize, a: Word, data: Word)
    requires 3 <= |mem| < 0xffff_fffd && a + Bytes(size) > 0x1_0000_0000
    ensures Write(mem, size, a, data) ==
      if size == HALF then mem[0 := ByteOf(data, 1)]
      else if a == 0xffff_ffff then mem[0 := ByteOf(data, 1)][1 := ByteOf(data, 2)][2 := ByteOf(data, 3)]
      else mem[a + 3 - 0x1_0000_0000 := ByteOf(data, 3)]
  {
    hide Wrap, ByteOf;
    BytesOfWord(data);
    WrapAround(a, 1);
    WrapAround(a, 2);
    WrapAround(a, 3);
  }

  /** A load that reaches beyond the end: the bytes that are there, then zeros, but the missing byte of
      a word at the third byte from the end is unknown. */
  lemma LoadOutside(mem: seq<Byte>, size: MemSize, a: Word, unknown: Unread)
    requires |mem| < 0x1_0000_0000 && a < |mem| < a + Bytes(size)
    ensures Read(mem, false, size, a, unknown) ==
      Isa.LoadLE(mem, a, |mem| - a) + (if |mem| - a == 3 then 0x100_0000 * unknown.b3 else 0)
  {
    hide Wrap, Mask, Join, Isa.LoadLE;
    WrapAround(a, 1);
    WrapAround(a, 2);
    WrapAround(a, 3);
    LastBytes(mem, a);
    ShortJoins(mem[a], ByteAt(mem, Wrap(a + 1), unknown.b1), ByteAt(mem, Wrap(a + 2), unknown.b2), unknown.b3);
  }

  lemma LastBytes(mem: seq<Byte>, a: nat)
    requires a < |mem| <= a + 3
    ensures Isa.LoadLE(mem, a, |mem| - a) == (mem[a] as int) + (if a + 1 < |mem| then 256 * (mem[a + 1] as int) else 0)
      + (if a + 2 < |mem| then 0x1_0000 * (mem[a + 2] as int) else 0)
  {
    assert Isa.LoadLE(mem, |mem|, 0) == 0;
    assert Isa.LoadLE(mem, |mem| - 1, 1) == mem[|mem| - 1];
    if a + 1 < |mem| {
      assert Isa.LoadLE(mem, |mem| - 2, 2) == mem[|mem| - 2] as int + 256 * (mem[|mem| - 1] as int);
    }
  }

  lemma ShortJoins(b0: Byte, b1: Byte, b2: Byte, b3: Byte)
    ensures Mask(BYTE, Join(b0, 0, 0, 0)) == b0 && Mask(HALF, Join(b0, 0, 0, 0)) == b0
    ensures Mask(WORD, Join(b0, 0, 0, 0)) == b0 && Mask(WORD, Join(b0, b1, 0, 0)) == b0 + 256 * b1
    ensures Mask(WORD, Join(b0, b1, b2, b3)) == b0 + 256 * b1 + 0x1_0000 * b2 + 0x100_0000 * b3
  {
    MaskJoin(b0, 0, 0, 0);
  }
}
