/** The register file (rtl/regfile.sv) and the three-cycle delay of its write address
    (rtl/3dff.sv). Read addresses are registered, so a read returns the register named by the
    instruction of the previous cycle; writes use the address delayed by three cycles. */
module RegFile {
  import opened Words

  datatype Delay = Delay(intermediate1: RegNo, intermediate2: RegNo, out: RegNo) {
    function Next(d: RegNo): Delay {
      Delay(d, intermediate1, intermediate2)
    }
  }

  datatype File = File(registers: seq<Word>, oldAddrA: RegNo, oldAddrB: RegNo, delay: Delay) {
    predicate Valid() {
      |registers| == 32
    }

    function DataA(): Word requires Valid() { registers[oldAddrA] }
    function DataB(): Word requires Valid() { registers[oldAddrB] }

    function Next(addrD: RegNo, dataD: Word, addrA: RegNo, addrB: RegNo, regWEn: bool): (f: File)
      requires Valid()
      ensures f.Valid()
    {
      File(if regWEn then registers[delay.out := dataD] else registers, addrA, addrB, delay.Next(addrD))
    }

    /** Reset clears the registers and the delay, but not the read addresses. */
    function Reset(addrA: RegNo, addrB: RegNo): (f: File)
      ensures f.Valid()
    {
      File(seq(32, _ => 0), addrA, addrB, Delay(0, 0, 0))
    }
  }

  class ThreeDff {
    var intermediate1: RegNo
    var intermediate2: RegNo
    var out: RegNo

    constructor ()
      ensures Value() == Delay(0, 0, 0)
    {
      intermediate1, intermediate2, out := 0, 0, 0;
    }

    function Value(): Delay
      reads this
    {
      Delay(intermediate1, intermediate2, out)
    }

    method Clock(reset: bool, d: RegNo)
      modifies this
      ensures Value() == if reset then Delay(0, 0, 0) else old(Value()).Next(d)
    {
      if reset {
        out := 0;
        intermediate1 := 0;
        intermediate2 := 0;
      } else {
        // Non-blocking assignments: each register takes its neighbour's old value.
        out := intermediate2;
        intermediate2 := intermediate1;
        intermediate1 := d;
      }
    }
  }

  class RegisterFile {
    const registers: array<Word>
    const delay: ThreeDff
    var oldAddrA: RegNo
    var oldAddrB: RegNo

    ghost predicate Valid()
      reads this
    {
      registers.Length == 32
    }

    constructor (addrA: RegNo, addrB: RegNo)
      ensures Valid() && fresh(this) && fresh(registers) && fresh(delay)
    {
      registers := new Word[32](_ => 0);
      delay := new ThreeDff();
      oldAddrA, oldAddrB := addrA, addrB;
    }

    function Value(): (f: File)
      requires Valid()
      reads this, registers, delay
      ensures f.Valid()
    {
      File(registers[..], oldAddrA, oldAddrB, delay.Value())
    }

    /** One rising edge. */
    method Clock(reset: bool, addrD: RegNo, dataD: Word, addrA: RegNo, addrB: RegNo, regWEn: bool)
      requires Valid()
      modifies this, registers, delay
      ensures Valid()
      ensures Value() == if reset then old(Value()).Reset(addrA, addrB)
                         else old(Value()).Next(addrD, dataD, addrA, addrB, regWEn)
    {
      if reset {
        for k := 0 to 32
          invariant forall j :: 0 <= j < k ==> registers[j] == 0
          invariant delay.Value() == old(delay.Value())
        {
          registers[k] := 0;
        }
        assert registers[..] == seq(32, _ => 0);
      } else if regWEn {
        registers[delay.out] := dataD;
      }
      oldAddrA := addrA;
      oldAddrB := addrB;
      delay.Clock(reset, addrD);
    }
  }
}
