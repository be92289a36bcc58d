/** Searching memory for a byte: the word-at-a-time kmemchr and the backward kmemrchr of src/main.c. */
module MemorySearch {
  import opened Numbers
  import opened Memory

  datatype Pointer = Null | At(address: nat)

  const ONES: bv32 := 0x0101_0101   // (size_t)-1 / UCHAR_MAX
  const HIGHS: bv32 := 0x8080_8080  // ONES * (UCHAR_MAX / 2 + 1)

  /** The macro HASZERO of src/include/system.h. */
  function HasZero(x: bv32): bv32 {
    (x - ONES) & !x & HIGHS
  }

  /** The test of the word loop, with the byte repeated in every lane of k. */
  predicate Passes(w: bv32, c: bv8) {
    HasZero(w ^ (ONES * (c as bv32))) == 0
  }

  /** The 32-bit little-endian word made of four bytes. */
  function Word(b0: bv8, b1: bv8, b2: bv8, b3: bv8): bv32 {
    (b0 as bv32) | ((b1 as bv32) << 8) | ((b2 as bv32) << 16) | ((b3 as bv32) << 24)
  }

  function Load(mem: array<bv8>, a: nat): bv32
    requires a + WORD_SIZE <= mem.Length
    reads mem
  {
    Word(mem[a], mem[a + 1], mem[a + 2], mem[a + 3])
  }

  /** Subtracting ONES borrows into a byte only from a zero byte below it, so the test is exact. */
  lemma HasZeroExact(b0: bv8, b1: bv8, b2: bv8, b3: bv8)
    ensures HasZero(Word(b0, b1, b2, b3)) == 0 <==> b0 != 0 && b1 != 0 && b2 != 0 && b3 != 0
  {
  }

  lemma RepeatedByte(b0: bv8, b1: bv8, b2: bv8, b3: bv8, c: bv8)
    ensures Word(b0, b1, b2, b3) ^ (ONES * (c as bv32)) == Word(b0 ^ c, b1 ^ c, b2 ^ c, b3 ^ c)
  {
    assert ONES * (c as bv32) == Word(c, c, c, c);
  }

  /** The test that kmemchr makes on every aligned word: it passes over exactly the words without c. */
  lemma WordTestExact(b0: bv8, b1: bv8, b2: bv8, b3: bv8, c: bv8)
    ensures Passes(Word(b0, b1, b2, b3), c) <==> b0 != c && b1 != c && b2 != c && b3 != c
  {
    hide Word, HasZero;
    RepeatedByte(b0, b1, b2, b3, c);
    HasZeroExact(b0 ^ c, b1 ^ c, b2 ^ c, b3 ^ c);
    XorZero(b0, c);
    XorZero(b1, c);
    XorZero(b2, c);
    XorZero(b3, c);
  }

  lemma XorZero(b: bv8, c: bv8)
    ensures b ^ c == 0 <==> b == c
  {
  }

  lemma WordWithout(mem: array<bv8>, s: nat, c: bv8)
    requires s + WORD_SIZE <= mem.Length
    ensures Passes(Load(mem, s), c) <==> Absent(mem, c, s, s + WORD_SIZE)
  {
    hide Word, Passes;
    WordTestExact(mem[s], mem[s + 1], mem[s + 2], mem[s + 3], c);
    if mem[s] != c && mem[s + 1] != c && mem[s + 2] != c && mem[s + 3] != c {
      forall a | s <= a < s + WORD_SIZE
        ensures mem[a] != c
      {
        var i := a - s;
        assert i == 0 || i == 1 || i == 2 || i == 3;
      }
    }
  }

  /** The conversion (unsigned char)c. */
  function UnsignedChar(c: bv32): bv8 {
    (c & 0xff) as bv8
  }

  /** The byte searched for is c modulo 256: any upper 24 bits give the same search. */
  lemma ConversionIsLowByte(c: bv32, b: bv8, upper: bv32)
    ensures UnsignedChar(c) as bv32 == c % 0x100
    ensures UnsignedChar((upper << 8) | (b as bv32)) == b
    ensures UnsignedChar(b as bv32) == b
  {
  }

  ghost predicate Absent(mem: array<bv8>, c: bv8, lo: nat, hi: nat)
    requires hi <= mem.Length
    reads mem
  {
    forall a :: lo <= a < hi ==> mem[a] != c
  }

  method KMemchr(mem: array<bv8>, src: u32, c: bv32, size: u32) returns (r: Pointer)
    requires InMemory(mem, src, size)
    ensures r.At? ==> src <= r.address < src + size
    ensures r.At? ==> mem[r.address] as bv32 == c % 0x100
    ensures r.At? ==> forall a :: src <= a < r.address ==> mem[a] as bv32 != c % 0x100
    ensures r.Null? <==> forall a :: src <= a < src + size ==> mem[a] as bv32 != c % 0x100
  {
    ConversionIsLowByte(c, 0, 0);
    hide UnsignedChar;
    var b := UnsignedChar(c);
    var s: u32, n: u32 := src, size;
    while s % WORD_SIZE != 0 && n != 0 && mem[s] != b
      invariant n <= size && s == src + (size - n) && Absent(mem, b, src, s)
      decreases n
    {
      s, n := s + 1, n - 1;
    }
    if n != 0 && mem[s] != b {
      s, n := PassWords(mem, s, n, b, src);
      while n != 0 && mem[s] != b
        invariant n <= size && s == src + (size - n) && Absent(mem, b, src, s)
      {
        s, n := s + 1, n - 1;
      }
    }
    return if n != 0 then At(s) else Null;
  }

  /** The word loop: passes over aligned words for as long as none of their bytes is b. */
  method PassWords(mem: array<bv8>, s0: u32, n0: u32, b: bv8, ghost src: nat) returns (s: u32, n: u32)
    requires InMemory(mem, s0, n0) && s0 % WORD_SIZE == 0
    requires src <= s0 && Absent(mem, b, src, s0)
    ensures n <= n0 && s + n == s0 + n0 && s % WORD_SIZE == 0
    ensures Absent(mem, b, src, s)
    ensures n < WORD_SIZE || !Absent(mem, b, s, s + WORD_SIZE)
  {
    hide Load, Passes;
    s, n := s0, n0;
    while n >= WORD_SIZE && Passes(Load(mem, s), b)
      invariant n <= n0 && s + n == s0 + n0 && s % WORD_SIZE == 0
      invariant src <= s && Absent(mem, b, src, s)
    {
      WordWithout(mem, s, b);
      NextWord(s);
      s, n := s + WORD_SIZE, n - WORD_SIZE;
    }
    if n >= WORD_SIZE {
      WordWithout(mem, s, b);
    }
  }

  method KMemrchr(mem: array<bv8>, src: u32, c: bv32, size: u32) returns (r: Pointer)
    requires InMemory(mem, src, size)
    ensures r.At? ==> src <= r.address < src + size
    ensures r.At? ==> mem[r.address] as bv32 == c % 0x100
    ensures r.At? ==> forall a :: r.address < a < src + size ==> mem[a] as bv32 != c % 0x100
    ensures r.Null? <==> forall a :: src <= a < src + size ==> mem[a] as bv32 != c % 0x100
  {
    ConversionIsLowByte(c, 0, 0);
    hide UnsignedChar;
    var b := UnsignedChar(c);
    var n: u32 := size;
    while n != 0
      invariant n <= size && Absent(mem, b, src + n, src + size)
    {
      n := n - 1;
      if mem[src + n] == b {
        return At(src + n);
      }
    }
    return Null;
  }
}
