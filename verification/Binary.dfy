/** Binary numerals as the assembler prints them and `$readmemb` reads them back. */
module Binary {
  import opened Words

  function Digit(b: int): char {
    if b % 2 == 1 then '1' else '0'
  }

  /** The low `size` bits of `n` in two's complement, most significant first. */
  function Bits(n: int, size: nat): (s: string)
    ensures |s| == size
    decreases size
  {
    if size == 0 then "" else Bits(n / 2, size - 1) + [Digit(n)]
  }

  predicate IsBinary(s: string) {
    forall k :: 0 <= k < |s| ==> s[k] == '0' || s[k] == '1'
  }

  function Value(s: string): nat {
    if s == "" then 0 else 2 * Value(s[..|s| - 1]) + (if s[|s| - 1] == '1' then 1 else 0)
  }

  lemma HalfMod(n: int, m: nat)
    requires m >= 1
    ensures n % (2 * m) == 2 * (n / 2 % m) + n % 2
  {
    var q, r := n / 2 / m, n / 2 % m;
    assert n == 2 * (m * q + r) + n % 2;
    assert n == (2 * m) * q + (2 * r + n % 2) by { assert 2 * (m * q) == (2 * m) * q; }
    ModUnique(n, 2 * m, q, 2 * r + n % 2);
  }

  lemma {:induction false} ValueOfBits(n: int, size: nat)
    ensures Value(Bits(n, size)) == n % Pow2(size) && IsBinary(Bits(n, size))
    decreases size
  {
    if size > 0 {
      ValueOfBits(n / 2, size - 1);
      HalfMod(n, Pow2(size - 1));
      var s := Bits(n / 2, size - 1);
      assert (s + [Digit(n)])[..size - 1] == s;
    }
  }

  lemma {:induction false} ValueOfConcat(a: string, b: string)
    ensures Value(a + b) == Value(a) * Pow2(|b|) + Value(b)
  {
    if b == "" {
      assert a + b == a;
    } else {
      var c := b[..|b| - 1];
      ValueOfConcat(a, c);
      assert (a + b)[..|a + b| - 1] == a + c;
      assert Value(a) * Pow2(|b|) == 2 * (Value(a) * Pow2(|c|));
    }
  }

  lemma DivPow2(n: int, i: nat)
    ensures n / Pow2(i) / 2 == n / Pow2(i + 1)
  {
    var p := Pow2(i);
    var q := n / p;
    assert n == p * q + n % p;
    var h, l := q / 2, q % 2;
    assert p * q == (2 * p) * h + p * l by {
      assert q == 2 * h + l;
      Distribute(p, h, l);
    }
    assert p * l == 0 || p * l == p;
    ModUnique(n, 2 * p, h, p * l + n % p);
  }

  lemma Distribute(p: int, h: int, l: int)
    ensures p * (2 * h + l) == (2 * p) * h + p * l
  {
  }

  /** print_binary: the digits from the highest down, each the low bit of `n >> i`. */
  method PrintBinary(n: int, size: nat) returns (out: string)
    ensures out == Bits(n, size)
  {
    out := "";
    var i := size - 1;
    while i >= 0
      invariant -1 <= i < size
      invariant out == Bits(n / Pow2(i + 1), size - 1 - i)
    {
      var k := n / Pow2(i);
      DivPow2(n, i);
      out := out + (if k % 2 == 1 then "1" else "0");
      i := i - 1;
    }
  }

  // ----- words built from fields -----

  datatype Field = Field(value: int, width: nat)

  function Width(fs: seq<Field>): nat {
    if fs == [] then 0 else Width(fs[..|fs| - 1]) + fs[|fs| - 1].width
  }

  function Print(f: Field): string {
    Bits(f.value, f.width)
  }

  function Digits(fs: seq<Field>): (s: string)
    ensures |s| == Width(fs)
  {
    if fs == [] then "" else Digits(fs[..|fs| - 1]) + Print(fs[|fs| - 1])
  }

  /** Append a field, truncated to its width, below a number. */
  function Append(n: nat, f: Field): nat {
    n * Pow2(f.width) + f.value % Pow2(f.width)
  }

  /** The number whose binary digits are the fields. */
  function Pack(fs: seq<Field>): (n: nat)
  {
    if fs == [] then 0 else Append(Pack(fs[..|fs| - 1]), fs[|fs| - 1])
  }

  lemma {:induction false} ValueOfDigits(fs: seq<Field>)
    ensures Value(Digits(fs)) == Pack(fs) && IsBinary(Digits(fs))
  {
    if fs != [] {
      var before, f := fs[..|fs| - 1], fs[|fs| - 1];
      ValueOfBits(f.value, f.width);
      ValueOfDigits(before);
      ValueOfConcat(Digits(before), Print(f));
    }
  }

  lemma Pow2Add(a: nat, b: nat)
    ensures Pow2(a + b) == Pow2(a) * Pow2(b)
  {
    if b > 0 {
      Pow2Add(a, b - 1);
      assert Pow2(a) * Pow2(b) == 2 * (Pow2(a) * Pow2(b - 1));
    }
  }

  lemma {:induction false} PackBound(fs: seq<Field>)
    ensures Pack(fs) < Pow2(Width(fs))
  {
    hide Words.Pow2;
    if fs != [] {
      var before, f := fs[..|fs| - 1], fs[|fs| - 1];
      PackBound(before);
      Pow2Add(Width(before), f.width);
      BelowProduct(Pack(before), Pow2(Width(before)), f.value % Pow2(f.width), Pow2(f.width));
    }
  }

  lemma BelowProduct(n: nat, p: nat, r: nat, w: nat)
    requires n < p && r < w
    ensures n * w + r < p * w
  {
    MulMonotone(n + 1, p, w);
    assert (n + 1) * w == n * w + w;
  }

  // ----- memory files -----

  /** One 32-digit line per word. */
  function MemFile(words: seq<Word>): string {
    if words == [] then "" else MemFile(words[..|words| - 1]) + Bits(words[|words| - 1], 32) + "\n"
  }

  /** The words of such a file. */
  function ReadMemB(text: string): seq<Word>
  {
    if |text| < 33 then []
    else
      var n := |text| - 33;
      ReadMemB(text[..n]) + [Value(text[n..n + 32]) % 0x1_0000_0000]
  }

  lemma {:induction false} ReadBack(words: seq<Word>)
    ensures ReadMemB(MemFile(words)) == words
  {
    hide Bits, Value;
    if words != [] {
      var before, w := words[..|words| - 1], words[|words| - 1];
      ReadBack(before);
      ReadLine(MemFile(before), Bits(w, 32));
      WordDigits(w);
    }
  }

  lemma ReadLine(t: string, digits: string)
    requires |digits| == 32
    ensures ReadMemB(t + digits + "\n") == ReadMemB(t) + [Value(digits) % 0x1_0000_0000]
  {
    Slices(t, digits);
  }

  lemma WordDigits(w: Word)
    ensures Value(Bits(w, 32)) % 0x1_0000_0000 == w
  {
    hide Bits, Value;
    ValueOfBits(w, 32);
    Pow2Of32();
  }

  lemma Slices(a: string, b: string)
    ensures (a + b + "\n")[..|a|] == a && (a + b + "\n")[|a|..|a| + |b|] == b
  {
  }

  /** The file has one line for each word, its 32 binary digits and a newline. */
  lemma {:induction false} FileLayout(words: seq<Word>, k: nat)
    requires k < |words|
    ensures |MemFile(words)| == 33 * |words|
    ensures MemFile(words)[33 * k..33 * k + 33] == Bits(words[k], 32) + "\n"
    decreases |words|
  {
    hide Bits;
    var before, w := words[..|words| - 1], words[|words| - 1];
    if before == [] {
      assert MemFile(before) == "" && words == [w];
    } else if k < |before| {
      FileLayout(before, k);
    } else {
      FileLayout(before, 0);
    }
    assert |Bits(w, 32)| == 32;
  }
}
