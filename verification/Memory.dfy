/** The memory primitives of src/main.c. Memory is an array of bytes indexed by
    address; it ends below 2^32, so that pointers one past an object never wrap. */
module Memory {
  import opened Numbers

  const WORD_SIZE := 4

  /** Addresses [a, a + n) exist. */
  ghost predicate InMemory(mem: array<bv8>, a: nat, n: nat) {
    a + n <= mem.Length < U32_SIZE
  }

  /** The memory in which the n bytes at dest are those that were at src, and nothing else changed. */
  ghost function Moved(m: seq<bv8>, dest: nat, src: nat, n: nat): seq<bv8>
    requires dest + n <= |m| && src + n <= |m|
  {
    m[..dest] + m[src..src + n] + m[dest + n..]
  }

  /** Byte by byte: offset i of the destination is offset i of the old source, and the rest stays. */
  lemma MovedBytes(m: seq<bv8>, dest: nat, src: nat, n: nat)
    requires dest + n <= |m| && src + n <= |m|
    ensures |Moved(m, dest, src, n)| == |m|
    ensures forall a :: dest <= a < dest + n ==> Moved(m, dest, src, n)[a] == m[src + (a - dest)]
    ensures forall a :: 0 <= a < |m| && !(dest <= a < dest + n) ==> Moved(m, dest, src, n)[a] == m[a]
  {
  }

  /** Bytes [dest + lo, dest + hi) hold the bytes that `m` has at the same offsets from src;
      everything else is as in `m`. */
  ghost predicate Copied(mem: array<bv8>, m: seq<bv8>, dest: nat, src: nat, lo: nat, hi: nat)
    requires lo <= hi && dest + hi <= |m| && src + hi <= |m| && mem.Length == |m|
    reads mem
  {
    && (forall a :: dest + lo <= a < dest + hi ==> mem[a] == m[src + (a - dest)])
    && (forall a :: 0 <= a < |m| && !(dest + lo <= a < dest + hi) ==> mem[a] == m[a])
  }

  lemma CopiedIsMoved(mem: array<bv8>, m: seq<bv8>, dest: nat, src: nat, n: nat)
    requires dest + n <= |m| && src + n <= |m| && mem.Length == |m|
    requires Copied(mem, m, dest, src, 0, n)
    ensures mem[..] == Moved(m, dest, src, n)
  {
    var r := Moved(m, dest, src, n);
    assert |r| == |m|;
    forall a | 0 <= a < |m|
      ensures mem[a] == r[a]
    {
    }
  }

  /** An ascending byte copy reads what it has already written when src < dest < src + count:
      the first dest - src bytes are then repeated. */
  ghost function ForwardSource(dest: nat, src: nat, i: nat): nat {
    if src < dest then src + i % (dest - src) else src + i
  }

  method KMemcpyb(mem: array<bv8>, dest: u32, src: u32, count: u32) returns (r: u32)
    requires InMemory(mem, dest, count) && InMemory(mem, src, count)
    modifies mem
    ensures r == dest
    ensures forall a :: 0 <= a < mem.Length && !(dest <= a < dest + count) ==> mem[a] == old(mem[a])
    ensures forall i :: 0 <= i < count ==>
      ForwardSource(dest, src, i) < mem.Length && mem[dest + i] == old(mem[ForwardSource(dest, src, i)])
    ensures (dest <= src || src + count <= dest) ==> mem[..] == Moved(old(mem[..]), dest, src, count)
  {
    hide ForwardSource, Moved, Copied;
    ghost var m := mem[..];
    var sp: u32, dp: u32, left: u32 := src, dest, count;
    while left != 0
      invariant left <= count && dp == dest + (count - left) && sp == src + (count - left)
      invariant forall a :: 0 <= a < mem.Length && !(dest <= a < dp) ==> mem[a] == m[a]
      invariant forall i :: 0 <= i < count - left ==>
        ForwardSource(dest, src, i) < mem.Length && mem[dest + i] == m[ForwardSource(dest, src, i)]
    {
      ForwardStep(dest, src, count - left);
      mem[dp] := mem[sp];
      dp, sp, left := dp + 1, sp + 1, left - 1;
    }
    r := dest;
    if dest <= src || src + count <= dest {
      ForwardIsMoved(mem, m, dest, src, count);
    }
  }

  lemma ForwardIsMoved(mem: array<bv8>, m: seq<bv8>, dest: nat, src: nat, count: nat)
    requires dest <= src || src + count <= dest
    requires dest + count <= |m| && src + count <= |m| && mem.Length == |m|
    requires forall a :: 0 <= a < mem.Length && !(dest <= a < dest + count) ==> mem[a] == m[a]
    requires forall i :: 0 <= i < count ==>
      ForwardSource(dest, src, i) < mem.Length && mem[dest + i] == m[ForwardSource(dest, src, i)]
    ensures mem[..] == Moved(m, dest, src, count)
  {
    hide ForwardSource;
    forall a | dest <= a < dest + count
      ensures mem[a] == m[src + (a - dest)]
    {
      ForwardDisjoint(dest, src, count, a - dest);
      assert mem[dest + (a - dest)] == m[ForwardSource(dest, src, a - dest)];
    }
    CopiedIsMoved(mem, m, dest, src, count);
  }

  /** The byte read at offset i comes, through the bytes copied before it, from ForwardSource(i). */
  lemma ForwardStep(dest: nat, src: nat, i: nat)
    ensures src < dest ==> ForwardSource(dest, src, i) < dest
    ensures dest <= src ==> ForwardSource(dest, src, i) == src + i
    ensures src < dest && dest <= src + i ==>
      ForwardSource(dest, src, src + i - dest) == ForwardSource(dest, src, i)
    ensures src + i < dest ==> ForwardSource(dest, src, i) == src + i
  {
    if src < dest {
      ModPlusMultiple(i, dest - src, -1);
      if i < dest - src {
        DivModUnique(i, dest - src, 0, i);
      }
    }
  }

  lemma ForwardDisjoint(dest: nat, src: nat, count: nat, i: nat)
    requires dest <= src || src + count <= dest
    requires i < count
    ensures ForwardSource(dest, src, i) == src + i
  {
    if src < dest {
      DivModUnique(i, dest - src, 0, i);
    }
  }

  /** What ForwardSource means: the source bytes in order when none is overwritten before it is read,
      and otherwise the first dest - src of them over and over. */
  lemma ForwardRepeats(dest: nat, src: nat, i: nat)
    ensures dest <= src || src + i < dest ==> ForwardSource(dest, src, i) == src + i
    ensures src < dest ==> ForwardSource(dest, src, i + (dest - src)) == ForwardSource(dest, src, i)
  {
    if src < dest {
      ModPlusMultiple(i, dest - src, 1);
      if src + i < dest {
        DivModUnique(i, dest - src, 0, i);
      }
    }
  }

  method KMemmove(mem: array<bv8>, dest: u32, src: u32, size: u32) returns (r: u32)
    requires InMemory(mem, dest, size) && InMemory(mem, src, size)
    modifies mem
    ensures r == dest
    ensures mem[..] == Moved(old(mem[..]), dest, src, size)
  {
    r := dest;
    if dest == src {
      return;
    }
    if src + size <= dest || dest + size <= src {
      var _ := KMemcpy(mem, dest, src, size);
      return;
    }
    ghost var m := mem[..];
    if dest < src {
      MoveUp(mem, dest, src, size);
    } else {
      MoveDown(mem, dest, src, size);
    }
    CopiedIsMoved(mem, m, dest, src, size);
  }

  /** `rep movsb`: an ascending byte copy of blocks that do not overlap. */
  method KMemcpy(mem: array<bv8>, dest: u32, src: u32, size: u32) returns (r: u32)
    requires InMemory(mem, dest, size) && InMemory(mem, src, size)
    requires src + size <= dest || dest + size <= src
    modifies mem
    ensures r == dest
    ensures mem[..] == Moved(old(mem[..]), dest, src, size)
  {
    r := KMemcpyb(mem, dest, src, size);
  }

  /** A move from dest to src of which bytes [lo, hi) are done. */
  ghost predicate Moving(mem: array<bv8>, m: seq<bv8>, dest: nat, src: nat, lo: int, hi: int, size: nat)
    reads mem
  {
    && 0 <= lo <= hi <= size
    && dest + size <= |m| && src + size <= |m| && mem.Length == |m| < U32_SIZE
    && Copied(mem, m, dest, src, lo, hi)
  }

  lemma MoveDone(mem: array<bv8>, m: seq<bv8>, dest: nat, src: nat, size: nat)
    requires Moving(mem, m, dest, src, 0, size, size)
    ensures dest + size <= |m| && src + size <= |m| && mem.Length == |m|
    ensures Copied(mem, m, dest, src, 0, size)
  {
  }

  /** The branch d < s: ascending, by words when both pointers are equally aligned. */
  method MoveUp(mem: array<bv8>, dest: u32, src: u32, size: u32)
    requires InMemory(mem, dest, size) && InMemory(mem, src, size)
    requires dest < src
    modifies mem
    ensures Copied(mem, old(mem[..]), dest, src, 0, size)
  {
    ghost var m := mem[..];
    var d: u32, s: u32, n: u32 := dest, src, size;
    assert Moving(mem, m, dest, src, 0, 0, size);
    hide Copied, Moving;
    if s % WORD_SIZE == d % WORD_SIZE {
      while d % WORD_SIZE != 0
        invariant n <= size && d == dest + (size - n) && s == src + (size - n)
        invariant Moving(mem, m, dest, src, 0, size - n, size)
        decreases n
      {
        if n == 0 {
          MoveDone(mem, m, dest, src, size);
          return;
        }
        n := n - 1;
        CopyByte(mem, d, s, m, dest, src, 0, d - dest, size);
        d, s := d + 1, s + 1;
      }
      d, s, n := WordsUp(mem, d, s, n, m, dest, src, size);
    }
    BytesUp(mem, d, s, n, m, dest, src, size);
    MoveDone(mem, m, dest, src, size);
  }

  method BytesUp(mem: array<bv8>, d0: u32, s0: u32, n0: u32,
                 ghost m: seq<bv8>, ghost dest: u32, ghost src: u32, ghost size: u32)
    requires n0 <= size && d0 == dest + (size - n0) && s0 == src + (size - n0) && d0 < s0
    requires Moving(mem, m, dest, src, 0, size - n0, size)
    modifies mem
    ensures Moving(mem, m, dest, src, 0, size, size)
  {
    hide Copied;
    var d: u32, s: u32, n: u32 := d0, s0, n0;
    while n != 0
      invariant n <= size && d == dest + (size - n) && s == src + (size - n)
      invariant Moving(mem, m, dest, src, 0, size - n, size)
    {
      CopyByte(mem, d, s, m, dest, src, 0, d - dest, size);
      d, s, n := d + 1, s + 1, n - 1;
    }
  }

  method WordsUp(mem: array<bv8>, d0: u32, s0: u32, n0: u32,
                 ghost m: seq<bv8>, ghost dest: u32, ghost src: u32, ghost size: u32)
    returns (d: u32, s: u32, n: u32)
    requires n0 <= size && d0 == dest + (size - n0) && s0 == src + (size - n0) && d0 < s0
    requires d0 % WORD_SIZE == 0 && src % WORD_SIZE == dest % WORD_SIZE
    requires Moving(mem, m, dest, src, 0, size - n0, size)
    modifies mem
    ensures n < WORD_SIZE && n <= size && d == dest + (size - n) && s == src + (size - n)
    ensures Moving(mem, m, dest, src, 0, size - n, size)
  {
    SameAlignment(src, dest, d0 - dest);
    hide Copied, Moving;
    d, s, n := d0, s0, n0;
    while n >= WORD_SIZE
      invariant n <= size && d == dest + (size - n) && s == src + (size - n)
      invariant s % WORD_SIZE == 0 && d % WORD_SIZE == 0
      invariant Moving(mem, m, dest, src, 0, size - n, size)
    {
      CopyWord(mem, d, s, m, dest, src, 0, d - dest, size);
      NextWord(d);
      NextWord(s);
      n, d, s := n - WORD_SIZE, d + WORD_SIZE, s + WORD_SIZE;
    }
  }

  /** The branch d > s: descending, by words when both pointers are equally aligned. */
  method MoveDown(mem: array<bv8>, dest: u32, src: u32, size: u32)
    requires InMemory(mem, dest, size) && InMemory(mem, src, size)
    requires src < dest
    modifies mem
    ensures Copied(mem, old(mem[..]), dest, src, 0, size)
  {
    ghost var m := mem[..];
    var d: u32, s: u32, n: u32 := dest, src, size;
    assert Moving(mem, m, dest, src, size, size, size);
    hide Copied, Moving;
    if s % WORD_SIZE == d % WORD_SIZE {
      while (d + n) % WORD_SIZE != 0
        invariant n <= size
        invariant Moving(mem, m, dest, src, n, size, size)
        decreases n
      {
        if n == 0 {
          MoveDone(mem, m, dest, src, size);
          return;
        }
        n := n - 1;
        CopyByte(mem, d + n, s + n, m, dest, src, n + 1, size, size);
      }
      n := WordsDown(mem, d, s, n, m, size);
    }
    BytesDown(mem, d, s, n, m, size);
    MoveDone(mem, m, dest, src, size);
  }

  method BytesDown(mem: array<bv8>, d: u32, s: u32, n0: u32, ghost m: seq<bv8>, ghost size: u32)
    requires n0 <= size && s < d
    requires Moving(mem, m, d, s, n0, size, size)
    modifies mem
    ensures Moving(mem, m, d, s, 0, size, size)
  {
    hide Copied;
    var n: u32 := n0;
    while n != 0
      invariant n <= size
      invariant Moving(mem, m, d, s, n, size, size)
    {
      n := n - 1;
      CopyByte(mem, d + n, s + n, m, d, s, n + 1, size, size);
    }
  }

  method WordsDown(mem: array<bv8>, d: u32, s: u32, n0: u32, ghost m: seq<bv8>, ghost size: u32) returns (n: u32)
    requires n0 <= size && s < d
    requires (d + n0) % WORD_SIZE == 0 && s % WORD_SIZE == d % WORD_SIZE
    requires Moving(mem, m, d, s, n0, size, size)
    modifies mem
    ensures n < WORD_SIZE && n <= size
    ensures Moving(mem, m, d, s, n, size, size)
  {
    SameAlignment(s, d, n0);
    hide Copied, Moving;
    n := n0;
    while n >= WORD_SIZE
      invariant n <= size
      invariant (d + n) % WORD_SIZE == 0 && (s + n) % WORD_SIZE == 0
      invariant Moving(mem, m, d, s, n, size, size)
    {
      NextWord(d + n - WORD_SIZE);
      NextWord(s + n - WORD_SIZE);
      n := n - WORD_SIZE;
      CopyWord(mem, d + n, s + n, m, d, s, n + WORD_SIZE, size, size);
    }
  }

  lemma NextWord(a: int)
    ensures (a + WORD_SIZE) % WORD_SIZE == a % WORD_SIZE
  {
  }

  lemma SameAlignment(s: nat, d: nat, k: nat)
    requires s % WORD_SIZE == d % WORD_SIZE
    ensures (s + k) % WORD_SIZE == (d + k) % WORD_SIZE
  {
    SameRemainder(s, d, WORD_SIZE);
    SameRemainder(s + k, d + k, WORD_SIZE);
  }

  /** Copies the byte just above a run that started at the bottom (dest < src), or just below a
      run that started at the top (src < dest). */
  method CopyByte(mem: array<bv8>, d: nat, s: nat, ghost m: seq<bv8>,
                  ghost dest: nat, ghost src: nat, ghost lo: int, ghost hi: int, ghost size: nat)
    requires Moving(mem, m, dest, src, lo, hi, size) && d - dest == s - src
    requires dest < src ==> d == dest + hi && hi < size
    requires src < dest ==> d + 1 == dest + lo && 0 < lo
    requires dest != src
    modifies mem
    ensures dest < src ==> Moving(mem, m, dest, src, lo, hi + 1, size)
    ensures src < dest ==> Moving(mem, m, dest, src, lo - 1, hi, size)
  {
    mem[d] := mem[s];
  }

  /** The same for an aligned 32-bit word, which is loaded whole before it is stored. */
  method CopyWord(mem: array<bv8>, d: nat, s: nat, ghost m: seq<bv8>,
                  ghost dest: nat, ghost src: nat, ghost lo: int, ghost hi: int, ghost size: nat)
    requires d % WORD_SIZE == 0 && s % WORD_SIZE == 0
    requires Moving(mem, m, dest, src, lo, hi, size) && d - dest == s - src
    requires dest < src ==> d == dest + hi && hi + WORD_SIZE <= size
    requires src < dest ==> d + WORD_SIZE == dest + lo && WORD_SIZE <= lo
    requires dest != src
    modifies mem
    ensures dest < src ==> Moving(mem, m, dest, src, lo, hi + WORD_SIZE, size)
    ensures src < dest ==> Moving(mem, m, dest, src, lo - WORD_SIZE, hi, size)
  {
    MoveWord(mem, d, s);
  }

  method MoveWord(mem: array<bv8>, d: nat, s: nat)
    requires d % WORD_SIZE == 0 && s % WORD_SIZE == 0
    requires d + WORD_SIZE <= mem.Length && s + WORD_SIZE <= mem.Length
    modifies mem
    ensures forall a :: d <= a < d + WORD_SIZE ==> mem[a] == old(mem[..])[s + (a - d)]
    ensures forall a :: 0 <= a < mem.Length && !(d <= a < d + WORD_SIZE) ==> mem[a] == old(mem[a])
  {
    mem[d], mem[d + 1], mem[d + 2], mem[d + 3] := mem[s], mem[s + 1], mem[s + 2], mem[s + 3];
  }

  method KMemsetw(mem: array<bv8>, dest: u32, val: bv16, count: u32) returns (r: u32)
    requires InMemory(mem, dest, 2 * count)
    modifies mem
    ensures r == dest
    ensures forall i :: 0 <= i < count ==> LowByte(val) == mem[dest + 2 * i] && HighByte(val) == mem[dest + 2 * i + 1]
    ensures forall a :: 0 <= a < mem.Length && !(dest <= a < dest + 2 * count) ==> mem[a] == old(mem[a])
  {
    var temp: u32, left: u32 := dest, count;
    while left != 0
      invariant left <= count && temp == dest + 2 * (count - left)
      invariant forall i :: 0 <= i < count - left ==> LowByte(val) == mem[dest + 2 * i] && HighByte(val) == mem[dest + 2 * i + 1]
      invariant forall a :: 0 <= a < mem.Length && !(dest <= a < temp) ==> mem[a] == old(mem[a])
    {
      mem[temp], mem[temp + 1] := LowByte(val), HighByte(val);
      temp, left := temp + 2, left - 1;
    }
    r := dest;
  }

  /** Words are little-endian. */
  lemma BytesOfWord(v: bv16)
    ensures v == (LowByte(v) as bv16) | ((HighByte(v) as bv16) << 8)
  {
  }

  function LowByte(v: bv16): bv8 {
    (v & 0xff) as bv8
  }

  function HighByte(v: bv16): bv8 {
    (v >> 8) as bv8
  }
}
