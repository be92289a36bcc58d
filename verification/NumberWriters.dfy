/** The number writers of src/scrn.c. Every writer sends characters to an output_writer, which is
    modelled as the text received so far. */
module NumberWriters {
  import opened Numbers
  import opened Numerals
  import opened Division

  const MAX_INT_DIGITS := 24

  class Writer {
    var text: string

    constructor ()
      ensures text == ""
    {
      text := "";
    }

    method Put(c: char)
      modifies this
      ensures text == old(text) + [c]
    {
      text := text + [c];
    }

    method PutAll(buf: array<char>, from: nat, end: nat)
      requires from <= end <= buf.Length
      modifies this
      ensures text == old(text) + buf[from..end]
    {
      var cur := from;
      while cur < end
        invariant from <= cur <= end
        invariant text == old(text) + buf[from..cur]
      {
        Put(buf[cur]);
        cur := cur + 1;
      }
    }
  }

  /** `buf[cur] = c`, in front of the digits stored so far. */
  method StoreDigit(buf: array<char>, cur: nat, end: nat, c: char)
    requires cur < end <= buf.Length
    modifies buf
    ensures buf[cur..end] == [c] + old(buf[cur + 1..end])
  {
    buf[cur] := c;
  }

  // ----- 32-bit decimal

  method WriteUInt(writer: Writer, num: u32)
    modifies writer
    ensures writer.text == old(writer.text) + Decimal(num)
  {
    var buf := new char[MAX_INT_DIGITS];
    var end := MAX_INT_DIGITS - 1;
    var cur := end;
    if num == 0 {
      writer.Put('0');
      return;
    }
    buf[cur] := '\0';
    cur := StoreDigits(buf, cur, num);
    writer.PutAll(buf, cur, end);
  }

  /** The division loop: at most ten digits, stored from `end` down. */
  method StoreDigits(buf: array<char>, end: nat, num: u32) returns (cur: nat)
    requires 10 <= end <= buf.Length
    modifies buf
    ensures end - 10 <= cur <= end
    ensures Digits(num) == buf[cur..end]
  {
    IntegersFit(num);
    hide *;
    cur := end;
    var n: u32 := num;
    ghost var room: nat := 10;
    NoDigits(Digits(num), buf[cur..end]);
    while n != 0
      invariant cur == end - 10 + room && room <= 10 && Fits(n, room)
      invariant Digits(num) == Digits(n) + buf[cur..end]
    {
      FewerDigits(n, room);
      ghost var tail := buf[cur..end];
      cur := cur - 1;
      n := StoreOneDigit(buf, cur, end, n, tail);
      room := room - 1;
    }
    ZeroDigits(buf[cur..end]);
  }

  /** Stores the last digit of n and returns the others. */
  method StoreOneDigit(buf: array<char>, cur: nat, end: nat, n: u32, ghost tail: string) returns (rest: u32)
    requires 0 < n && cur < end <= buf.Length && tail == buf[cur + 1..end]
    modifies buf
    ensures rest == n / 10
    ensures Digits(n) + tail == Digits(rest) + buf[cur..end]
  {
    LastOfDigits(n, tail);
    hide Digits, DigitChar;
    var temp := n % 10;
    StoreDigit(buf, cur, end, DigitChar(temp));
    rest := n / 10;
  }

  lemma NoDigits(s: string, tail: string)
    requires tail == []
    ensures s == s + tail
  {
  }

  lemma ZeroDigits(tail: string)
    ensures Digits(0) + tail == tail
  {
  }

  /** The conversion (u32)-num; the negation of the least i32 wraps to itself. */
  function Negated32(num: i32): (r: u32)
    ensures num < 0 ==> r == -(num as int)
  {
    (0 - num as int) % U32_SIZE
  }

  method WriteInt(writer: Writer, num: i32)
    modifies writer
    ensures writer.text == old(writer.text) + SignedDecimal(num)
  {
    hide Decimal;
    if num < 0 {
      writer.Put('-');
      WriteUInt(writer, Negated32(num));
      assert writer.text == old(writer.text) + ("-" + Decimal(-(num as int)));
    } else {
      WriteUInt(writer, num);
    }
  }

  // ----- Hexadecimal and binary

  method WriteHexBytes(writer: Writer, num: u64, nibbles: u8)
    requires nibbles <= 16
    modifies writer
    ensures writer.text == old(writer.text) + "0x" + Fixed(num, nibbles, 16)
  {
    hide Fixed, Power, Pow2, DigitChar;
    writer.Put('0');
    writer.Put('x');
    ghost var before := writer.text;
    var i := 4 * nibbles - 4;
    ghost var m: nat := nibbles;
    AllDigits(num, nibbles, 16);
    while i >= 0
      invariant i == 4 * m - 4 && m <= nibbles
      invariant writer.text == before + Fixed(Quot(num, Power(16, m)), nibbles - m, 16)
    {
      SixteenPower(m - 1);
      NextDigit(num, m, nibbles, 16);
      writer.Put(DigitChar(Quot(num, Pow2(i)) % 16));
      m := m - 1;
      i := i - 4;
    }
  }

  lemma {:induction false} SixteenPower(m: nat)
    ensures Power(16, m) == Pow2(4 * m)
  {
    if m > 0 {
      SixteenPower(m - 1);
      assert Pow2(4 * m) == 2 * Pow2(4 * m - 1) == 4 * Pow2(4 * m - 2) == 8 * Pow2(4 * m - 3) == 16 * Pow2(4 * m - 4);
    }
  }

  method WriteBinary(writer: Writer, num: u32)
    modifies writer
    ensures writer.text == old(writer.text) + "0b" + Fixed(num, 32, 2)
  {
    hide Fixed, Power, Pow2, DigitChar;
    writer.Put('0');
    writer.Put('b');
    ghost var before := writer.text;
    var i: nat := 32;
    AllDigits(num, 32, 2);
    while i != 0
      invariant i <= 32
      invariant writer.text == before + Fixed(Quot(num, Power(2, i)), 32 - i, 2)
    {
      NextDigit(num, i, 32, 2);
      i := i - 1;
      TwoPower(i);
      var bit := Quot(num, Pow2(i)) % 2;
      BitChar(bit);
      writer.Put(if bit != 0 then '1' else '0');
    }
  }

  lemma BitChar(bit: int)
    requires 0 <= bit < 2
    ensures DigitChar(bit) == if bit != 0 then '1' else '0'
  {
  }

  lemma {:induction false} TwoPower(i: nat)
    ensures Power(2, i) == Pow2(i)
  {
    if i > 0 {
      TwoPower(i - 1);
    }
  }

  // ----- 64-bit decimal, with the division of the source

  lemma DivisionByTen(n: nat)
    ensures Closed(n, 10).Result?
    ensures 0 <= Closed(n, 10).quotient <= n / 10 && 0 <= Closed(n, 10).remainder < 10
    ensures n > 0 && Closed(n, 10).quotient == 0 ==> Closed(n, 10).remainder > 0
  {
    hide Exceptional;
    if Exceptional(n, 10) {
      ExceptionalRemainder(n, 10);
      ExceptionalIsLarge(n);
    }
  }

  lemma ExceptionalIsLarge(n: nat)
    requires Exceptional(n, 10)
    ensures n >= 20
  {
    var j: nat :| IsDoubling(n, 10, j);
    Pow2Ordered(1, j);
    assert Pow2(1) == 2;
  }

  ghost function Quotient(n: nat): (q: nat)
    ensures q <= n / 10
  {
    DivisionByTen(n);
    Closed(n, 10).quotient
  }

  ghost function Remainder(n: nat): (r: nat)
    ensures r < 10
  {
    DivisionByTen(n);
    Closed(n, 10).remainder
  }

  /** The numeral that writeUInt64 produces for n > 0. */
  ghost function SlowDecimal(n: nat): string {
    if n == 0 then [] else SlowDecimal(Quotient(n)) + [DigitChar(Remainder(n))]
  }

  method WriteUInt64(writer: Writer, num: u64)
    modifies writer
    ensures writer.text == old(writer.text) + (if num == 0 then "0" else SlowDecimal(num))
  {
    if num == 0 {
      writer.Put('0');
      return;
    }
    var buf := new char[MAX_INT_DIGITS + 1];
    buf[MAX_INT_DIGITS] := '\0';
    var cur := StoreSlowDigits(buf, MAX_INT_DIGITS, num);
    writer.PutAll(buf, cur, MAX_INT_DIGITS);
  }

  /** The division loop: at most 20 digits, stored from the end of the buffer. */
  method StoreSlowDigits(buf: array<char>, end: nat, num: u64) returns (cur: nat)
    requires 20 <= end < buf.Length
    modifies buf
    ensures end - 20 <= cur <= end
    ensures SlowDecimal(num) == buf[cur..end]
  {
    IntegersFit(num);
    hide *;
    cur := end;
    var n: u64 := num;
    ghost var room: nat := 20;
    PendingStarts(buf, end, num);
    while n != 0
      invariant cur == end - 20 + room && room <= 20 && Fits(n, room)
      invariant Pending(buf, cur, end, num, n)
    {
      FewerDigits(n, room);
      cur := cur - 1;
      ghost var before := n;
      n := StoreSlowDigit(buf, cur, end, n, num);
      FitsBelow(n, before / 10, room - 1);
      room := room - 1;
    }
    PendingEnds(buf, cur, end, num);
  }

  /** The digits of n are still to be stored in front of those from cur to end. */
  ghost predicate Pending(buf: array<char>, cur: nat, end: nat, num: nat, n: nat)
    reads buf
  {
    cur <= end <= buf.Length && SlowDecimal(num) == SlowDecimal(n) + buf[cur..end]
  }

  lemma PendingStarts(buf: array<char>, end: nat, num: nat)
    requires end <= buf.Length
    ensures Pending(buf, end, end, num, num)
  {
    NoDigits(SlowDecimal(num), buf[end..end]);
  }

  lemma PendingEnds(buf: array<char>, cur: nat, end: nat, num: nat)
    requires Pending(buf, cur, end, num, 0)
    ensures cur <= end <= buf.Length && SlowDecimal(num) == buf[cur..end]
  {
    assert SlowDecimal(0) + buf[cur..end] == buf[cur..end];
  }

  lemma FitsBelow(n: nat, m: nat, k: nat)
    requires n <= m && Fits(m, k)
    ensures Fits(n, k)
  {
  }

  /** Divides n by ten, stores the digit and returns the quotient. */
  method StoreSlowDigit(buf: array<char>, cur: nat, end: nat, n: u64, ghost num: nat) returns (quotient: u64)
    requires 0 < n && cur < end < buf.Length && Pending(buf, cur + 1, end, num, n)
    modifies buf
    ensures quotient <= n / 10
    ensures Pending(buf, cur, end, num, quotient)
  {
    hide SlowDecimal, DigitChar, Closed, Computes;
    SlowDigit(n, buf[cur + 1..end]);
    var qr := Div64Slow(n, 10);
    StoreDigit(buf, cur, end, DigitChar(qr.remainder));
    quotient := qr.quotient;
  }

  lemma SlowDigit(n: nat, tail: string)
    requires n > 0
    ensures Closed(n, 10).Result? && 0 <= Closed(n, 10).quotient <= n / 10 && 0 <= Closed(n, 10).remainder < 10
    ensures SlowDecimal(n) + tail == SlowDecimal(Closed(n, 10).quotient) + ([DigitChar(Closed(n, 10).remainder)] + tail)
  {
    hide Closed, DigitChar;
    DivisionByTen(n);
    Appended(SlowDecimal(Closed(n, 10).quotient), DigitChar(Closed(n, 10).remainder), tail);
  }

  /** The conversion (u64)-num; the negation of the least i64 wraps to itself. */
  function Negated64(num: i64): (r: u64)
    ensures num < 0 ==> r == -(num as int)
  {
    (0 - num as int) % U64_SIZE
  }

  method WriteInt64(writer: Writer, num: i64)
    modifies writer
    ensures num == 0 ==> writer.text == old(writer.text) + "0"
    ensures num > 0 ==> writer.text == old(writer.text) + SlowDecimal(num)
    ensures num < 0 ==> writer.text == old(writer.text) + "-" + SlowDecimal(-(num as int))
  {
    hide SlowDecimal;
    if num < 0 {
      writer.Put('-');
      WriteUInt64(writer, Negated64(num));
    } else {
      WriteUInt64(writer, num);
    }
  }

  // ----- When the 64-bit numeral is right

  /** n / 10^i, by i divisions. */
  ghost function Shifted(n: nat, i: nat): nat {
    if i == 0 then n else Shifted(n / 10, i - 1)
  }

  /** No quotient met on the way down is one that the division gets wrong. */
  ghost predicate AllExact(n: nat) {
    forall i: nat :: !Exceptional(Shifted(n, i), 10)
  }

  lemma AllExactStep(n: nat)
    ensures AllExact(n) <==> !Exceptional(n, 10) && AllExact(n / 10)
  {
    hide Exceptional;
    if AllExact(n) {
      assert !Exceptional(Shifted(n, 0), 10);
      forall i: nat
        ensures !Exceptional(Shifted(n / 10, i), 10)
      {
        assert Shifted(n, i + 1) == Shifted(n / 10, i);
      }
    }
    if !Exceptional(n, 10) && AllExact(n / 10) {
      forall i: nat
        ensures !Exceptional(Shifted(n, i), 10)
      {
        if i > 0 {
          assert Shifted(n, i) == Shifted(n / 10, i - 1);
        }
      }
    }
  }

  lemma NothingLeft()
    ensures AllExact(0)
  {
    forall i: nat
      ensures !Exceptional(Shifted(0, i), 10)
    {
      ShiftedZero(i);
      if Exceptional(0, 10) {
        ExceptionalIsLarge(0);
      }
    }
  }

  lemma {:induction false} ShiftedZero(i: nat)
    ensures Shifted(0, i) == 0
  {
    if i > 0 {
      ShiftedZero(i - 1);
    }
  }

  /** Read back, the numeral of writeUInt64 never exceeds the number written, and equals it exactly
      when no n / 10^i is an exceptional dividend of ten. It has no leading zero either way. */
  lemma {:induction false} SlowReadsBack(n: nat)
    ensures IsNumeral(SlowDecimal(n), 10)
    ensures n > 0 ==> SlowDecimal(n) != [] && SlowDecimal(n)[0] != '0'
    ensures Read(SlowDecimal(n), 10) <= n
    ensures Read(SlowDecimal(n), 10) == n <==> AllExact(n)
  {
    hide Exceptional, DigitChar, DigitValue, IsDigit, Read, AllExact, Closed;
    if n == 0 {
      ReadEmpty(10);
      NothingLeft();
    } else {
      var q, r := Quotient(n), Remainder(n);
      SlowReadsBack(q);
      ReadAppend(SlowDecimal(q), DigitChar(r), 10);
      AllExactStep(n);
      StepIsExact(n);
    }
  }

  /** The digits one step at a time: an exceptional step loses one from the quotient and writes 5 or 6. */
  lemma SlowStep(n: nat)
    requires n > 0
    ensures !Exceptional(n, 10) ==> SlowDecimal(n) == SlowDecimal(n / 10) + [DigitChar(n % 10)]
    ensures Exceptional(n, 10) ==>
      n >= 20 && n % 10 <= 1 && SlowDecimal(n) == SlowDecimal(n / 10 - 1) + [DigitChar(5 + n % 10)]
  {
    hide Exceptional, DigitChar, SlowDecimal;
    SlowUnfolds(n);
    if Exceptional(n, 10) {
      ExceptionalRemainder(n, 10);
      ExceptionalIsLarge(n);
    }
  }

  lemma SlowUnfolds(n: nat)
    requires n > 0
    ensures SlowDecimal(n) == SlowDecimal(Quotient(n)) + [DigitChar(Remainder(n))]
  {
    hide Quotient, Remainder, DigitChar;
  }

  lemma StepIsExact(n: nat)
    requires n > 0
    ensures Quotient(n) == 0 ==> Remainder(n) > 0
    ensures !Exceptional(n, 10) ==> Quotient(n) == n / 10 && Remainder(n) == n % 10
    ensures Exceptional(n, 10) ==> 10 * Quotient(n) + Remainder(n) < n
  {
    hide Exceptional;
    DivisionByTen(n);
    if Exceptional(n, 10) {
      ExceptionalRemainder(n, 10);
    }
  }

  /** The decimal numeral of a 64-bit number is the right one exactly when no step is exceptional. */
  lemma SlowIsDecimal(n: nat)
    requires n > 0
    ensures SlowDecimal(n) == Decimal(n) <==> AllExact(n)
  {
    hide Exceptional, DigitChar, AllExact, SlowDecimal, Read;
    SlowReadsBack(n);
    DecimalReadsBack(n);
    if AllExact(n) {
      SameDigits(n);
    }
  }

  lemma {:induction false} SameDigits(n: nat)
    requires n > 0 && AllExact(n)
    ensures SlowDecimal(n) == Decimal(n)
  {
    hide Exceptional, DigitChar, AllExact;
    AllExactStep(n);
    StepIsExact(n);
    if n >= 10 {
      SameDigits(n / 10);
    } else {
      assert SlowDecimal(0) + [DigitChar(n)] == [DigitChar(n)];
    }
  }

  /** Twenty is the first number that writeUInt64 gets wrong: it is written 15. */
  lemma TwentyIsWrittenFifteen()
    ensures SlowDecimal(20) == "15"
    ensures forall n: nat :: 0 < n < 20 ==> SlowDecimal(n) == Decimal(n)
  {
    assert 20 == 10 * Pow2(1);
    assert IsDoubling(20, 10, 1);
    assert Quotient(20) == 1 && Remainder(20) == 5;
    forall n: nat | 0 < n < 20
      ensures SlowDecimal(n) == Decimal(n)
    {
      BelowTwenty(n);
      SlowIsDecimal(n);
    }
    BelowTwenty(1);
    SlowIsDecimal(1);
    assert DigitChar(1) == '1' && DigitChar(5) == '5';
  }

  lemma {:induction false} BelowTwenty(n: nat)
    requires n < 20
    ensures AllExact(n)
  {
    hide Exceptional;
    if n == 0 {
      NothingLeft();
    } else {
      BelowTwenty(n / 10);
      AllExactStep(n);
      if Exceptional(n, 10) {
        ExceptionalIsLarge(n);
      }
    }
  }
}
