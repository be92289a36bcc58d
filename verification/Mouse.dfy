/** The PS/2 mouse driver of src/kb.c: a byte stream is framed into packets of three or four bytes. */
module Mouse {
  import opened Numbers

  const MAGIC := 0x57343
  const MOUSE_SCROLLWHEEL := 1
  const MOUSE_BUTTONS := 2

  const LEFT_CLICK := 1
  const RIGHT_CLICK := 2
  const MIDDLE_CLICK := 4
  const SCROLL_DOWN := 8

  datatype Packet = Packet(magic: u32, x: i16, y: i16, buttons: u16)

  /** The driver's variables without the packet array. */
  datatype State = State(cycle: u8, b0: u8, b1: u8, b2: u8, b3: u8, x: i32, y: i32, buttons: u16)

  /** The bit of a byte that has the given weight. */
  predicate Has(b: u8, weight: nat)
    requires weight > 0
  {
    b / weight % 2 == 1
  }

  function Clamp(x: int, low: int, high: int): int {
    var m := if x < low then low else x;
    if m < high then m else high
  }

  predicate FourBytes(mode: u8) {
    mode == MOUSE_SCROLLWHEEL || mode == MOUSE_BUTTONS
  }

  /** The packet that the stored bytes stand for. The fourth byte is unsigned, so any wheel movement
      counts as downward. */
  function Decoded(mode: u8, s: State): Packet {
    Packet(MAGIC,
           s.b1 as int - (if Has(s.b0, 0x10) then 0x100 else 0),
           -(s.b2 as int - (if Has(s.b0, 0x20) then 0x100 else 0)),
           (if Has(s.b0, 0x01) then LEFT_CLICK else 0)
           + (if Has(s.b0, 0x02) then RIGHT_CLICK else 0)
           + (if Has(s.b0, 0x04) then MIDDLE_CLICK else 0)
           + (if mode == MOUSE_SCROLLWHEEL && s.b3 != 0 then SCROLL_DOWN else 0))
  }

  /** An overflow bit makes the packet a bad one. */
  predicate Accepted(s: State) {
    !Has(s.b0, 0x80) && !Has(s.b0, 0x40)
  }

  function Moved(s: State, p: Packet): State {
    s.(x := Clamp(s.x + p.x, 0, 600), y := Clamp(s.y + p.y, 0, 400), buttons := p.buttons)
  }

  /** State and emitted packets after a completed frame. */
  function Finished(mode: u8, s: State): (State, seq<Packet>) {
    var t := s.(cycle := 0);
    if Accepted(t) then (Moved(t, Decoded(mode, t)), [Decoded(mode, t)]) else (t, [])
  }

  function Handled(mode: u8, s: State, b: u8): (State, seq<Packet>) {
    if s.cycle == 0 then (s.(b0 := b, cycle := if Has(b, 0x08) then 1 else 0), [])
    else if s.cycle == 1 then (s.(b1 := b, cycle := 2), [])
    else if s.cycle == 2 then
      if FourBytes(mode) then (s.(b2 := b, cycle := 3), []) else Finished(mode, s.(b2 := b))
    else if s.cycle == 3 then Finished(mode, s.(b3 := b))
    else (s, [])
  }

  class Driver {
    const packets: array<Packet>
    const bytes: array<u8>
    var last: u8
    var mode: u8
    var cycle: u8
    var x: i32
    var y: i32
    var buttons: u16

    constructor (packets: array<Packet>, bytes: array<u8>)
      requires packets.Length == 256 && bytes.Length == 5
      ensures this.packets == packets && this.bytes == bytes
      ensures last == 0 && mode == 0 && cycle == 0 && x == 0 && y == 0 && buttons == 0
    {
      this.packets, this.bytes := packets, bytes;
      last, mode, cycle, x, y, buttons := 0, 0, 0, 0, 0, 0;
    }

    ghost predicate Valid() {
      packets.Length == 256 && bytes.Length == 5
    }

    ghost function Now(): State
      requires Valid()
      reads this, bytes
    {
      State(cycle, bytes[0], bytes[1], bytes[2], bytes[3], x, y, buttons)
    }

    method AddPacket(p: Packet)
      requires Valid()
      modifies this`last, packets
      ensures packets[..] == old(packets[..])[old(last) := p] && last == (old(last) + 1) % 256
    {
      packets[last] := p;
      last := (last + 1) % 256;
    }

    method MouseHandler(mouseIn: u8)
      requires Valid()
      modifies this`cycle, this`x, this`y, this`buttons, this`last, bytes, packets
      ensures Now() == Handled(mode, old(Now()), mouseIn).0
      ensures var out := Handled(mode, old(Now()), mouseIn).1;
        if out == [] then packets[..] == old(packets[..]) && last == old(last)
        else packets[..] == old(packets[..])[old(last) := out[0]] && last == (old(last) + 1) % 256
    {
      match cycle
      case 0 =>
        bytes[0] := mouseIn;
        if !Has(mouseIn, 0x08) {
          return;
        }
        cycle := cycle + 1;
        return;
      case 1 =>
        bytes[1] := mouseIn;
        cycle := cycle + 1;
        return;
      case 2 =>
        bytes[2] := mouseIn;
        if mode == MOUSE_SCROLLWHEEL || mode == MOUSE_BUTTONS {
          cycle := cycle + 1;
          return;
        }
        FinishPacket();
      case 3 =>
        bytes[3] := mouseIn;
        FinishPacket();
      case _ =>
    }

    method FinishPacket()
      requires Valid()
      modifies this`cycle, this`x, this`y, this`buttons, this`last, packets
      ensures Now() == Finished(mode, old(Now())).0
      ensures var out := Finished(mode, old(Now())).1;
        if out == [] then packets[..] == old(packets[..]) && last == old(last)
        else packets[..] == old(packets[..])[old(last) := out[0]] && last == (old(last) + 1) % 256
    {
      hide Has, Clamp;
      ghost var finished := Finished(mode, Now());
      cycle := 0;
      var state := bytes[0];
      if Has(state, 0x80) || Has(state, 0x40) {
        return;
      }
      ghost var t := Now();
var dx: i16 := bytes[1] as int - (if Has(state, 0x10) then 0x100 else 0);
      var dy: i16 := -(bytes[2] as int - (if Has(state, 0x20) then 0x100 else 0));
      var pressed: u16 := 0;
      if Has(state, 0x01) {
        pressed := pressed + LEFT_CLICK;
      }
      if Has(state, 0x02) {
        pressed := pressed + RIGHT_CLICK;
      }
      if Has(state, 0x04) {
        pressed := pressed + MIDDLE_CLICK;
      }
      if mode == MOUSE_SCROLLWHEEL && bytes[3] != 0 {
        pressed := pressed + SCROLL_DOWN;
      }
      var packet := Packet(MAGIC, dx, dy, pressed);
      assert packet == Decoded(mode, t);
      assert finished == (Moved(t, packet), [packet]);
      hide Decoded, Finished, Accepted;
      x := Clamp(x + dx, 0, 600);
      y := Clamp(y + dy, 0, 400);
      buttons := pressed;
      AddPacket(packet);
    }
  }

  // ----- One byte

  /** c is the coordinate of [0, high] nearest to x. */
  ghost predicate NearestIn(c: int, x: int, high: int) {
    0 <= c <= high && (0 <= x <= high ==> c == x) && (x < 0 ==> c == 0) && (x > high ==> c == high)
  }

  /** The byte b completes a frame. */
  ghost predicate Completes(mode: u8, s: State) {
    s.cycle == 3 || (s.cycle == 2 && mode != 1 && mode != 2)
  }

  /** When a packet is emitted: at a completed frame whose first byte has no overflow bit, and never
      otherwise. The new position is then the nearest one on the screen to the old one plus the
      movement; without a packet, position and buttons stay. */
  lemma PacketExactly(mode: u8, s: State, b: u8)
    ensures var (t, out) := Handled(mode, s, b);
      && |out| <= 1
      && (out != [] <==> Completes(mode, s) && s.b0 / 0x40 == 0)
      && (out == [] ==> t.x == s.x && t.y == s.y && t.buttons == s.buttons)
      && (out != [] ==> NearestIn(t.x, s.x + out[0].x, 600) && NearestIn(t.y, s.y + out[0].y, 400)
                        && t.buttons == out[0].buttons)
  {
    hide Decoded;
    OverflowBits(s.b0);
  }

  lemma OverflowBits(b: u8)
    ensures !Has(b, 0x80) && !Has(b, 0x40) <==> b / 0x40 == 0
  {
  }

  /** How bytes are framed: a first byte without bit 3 is dropped, a completed frame returns to cycle 0,
      and any other byte is stored at its place. */
  lemma FramingExactly(mode: u8, s: State, b: u8)
    ensures var t := Handled(mode, s, b).0;
      && t.cycle == (if Completes(mode, s) || (s.cycle == 0 && b / 8 % 2 == 0) then 0
                     else if s.cycle <= 2 then s.cycle + 1 else s.cycle)
      && t.b0 == (if s.cycle == 0 then b else s.b0)
      && t.b1 == (if s.cycle == 1 then b else s.b1)
      && t.b2 == (if s.cycle == 2 then b else s.b2)
      && t.b3 == (if s.cycle == 3 then b else s.b3)
  {
    hide Decoded, Clamp;
  }

  // ----- Byte streams

  function Run(mode: u8, s: State, input: seq<u8>): (State, seq<Packet>)
    decreases |input|
  {
    if input == [] then (s, [])
    else
      var (t, out) := Handled(mode, s, input[0]);
      var (u, more) := Run(mode, t, input[1..]);
      (u, out + more)
  }

  lemma {:induction false} RunAppend(mode: u8, s: State, a: seq<u8>, b: seq<u8>)
    ensures var (t, out) := Run(mode, s, a);
      var (u, more) := Run(mode, t, b);
      Run(mode, s, a + b) == (u, out + more)
    decreases |a|
  {
    if a == [] {
      assert a + b == b;
      assert [] + Run(mode, s, b).1 == Run(mode, s, b).1;
    } else {
      assert (a + b)[1..] == a[1..] + b;
      var (t, out) := Handled(mode, s, a[0]);
      RunAppend(mode, t, a[1..], b);
      var (u, more) := Run(mode, t, a[1..]);
      var (v, rest) := Run(mode, u, b);
      assert out + (more + rest) == (out + more) + rest;
    }
  }

  /** A movement as the mouse reports it; `wheel` is only sent in the four-byte modes. */
  datatype Move = Move(dx: int, dy: int, left: bool, right: bool, middle: bool, wheel: u8)

  predicate InRange(m: Move) {
    -256 <= m.dx <= 255 && -256 <= m.dy <= 255
  }

  function Flag(b: bool, weight: nat): nat {
    if b then weight else 0
  }

  function Header(m: Move): u8 {
    0x08 + Flag(m.left, 0x01) + Flag(m.right, 0x02) + Flag(m.middle, 0x04) + Flag(m.dx < 0, 0x10) + Flag(m.dy < 0, 0x20)
  }

  function Encoded(mode: u8, m: Move): seq<u8>
    requires InRange(m)
  {
    [Header(m), m.dx % 256, m.dy % 256] + if mode == 1 || mode == 2 then [m.wheel] else []
  }

  /** The packet that a movement should arrive as: y counts downward on the screen. */
  function Reported(mode: u8, m: Move): Packet
    requires InRange(m)
  {
    Packet(0x57343, m.dx, -m.dy,
           Flag(m.left, 1) + Flag(m.right, 2) + Flag(m.middle, 4) + Flag(mode == 1 && m.wheel != 0, 8))
  }

  lemma HeaderBits(m: Move)
    ensures var h := Header(m);
      && Has(h, 0x08) && !Has(h, 0x40) && !Has(h, 0x80)
      && (Has(h, 0x01) <==> m.left) && (Has(h, 0x02) <==> m.right) && (Has(h, 0x04) <==> m.middle)
      && (Has(h, 0x10) <==> m.dx < 0) && (Has(h, 0x20) <==> m.dy < 0)
  {
  }

  /** One encoded movement yields exactly its packet and leaves the driver at the start of a frame. */
  lemma OneMove(mode: u8, s: State, m: Move)
    requires InRange(m) && s.cycle == 0
    ensures Run(mode, s, Encoded(mode, m)).0.cycle == 0
    ensures Run(mode, s, Encoded(mode, m)).1 == [Reported(mode, m)]
  {
    HeaderBits(m);
    hide Header, Has, Clamp;
    var e := Encoded(mode, m);
    var s1 := s.(b0 := Header(m), cycle := 1);
    var s2 := s1.(b1 := m.dx % 256, cycle := 2);
    assert Handled(mode, s, e[0]) == (s1, []) && Handled(mode, s1, e[1]) == (s2, []);
    RunStep(mode, s, e);
    RunStep(mode, s1, e[1..]);
    RunStep(mode, s2, e[1..][1..]);
    if FourBytes(mode) {
      RunStep(mode, s2.(b2 := m.dy % 256, cycle := 3), e[1..][1..][1..]);
    }
  }

  lemma RunStep(mode: u8, s: State, input: seq<u8>)
    requires input != []
    ensures var (t, out) := Handled(mode, s, input[0]);
      var (u, more) := Run(mode, t, input[1..]);
      Run(mode, s, input) == (u, out + more)
    ensures |input| == 1 ==> Run(mode, s, input) == Handled(mode, s, input[0])
  {
    assert Handled(mode, s, input[0]).1 + [] == Handled(mode, s, input[0]).1;
  }

  ghost function EncodedAll(mode: u8, ms: seq<Move>): seq<u8>
    requires forall m :: m in ms ==> InRange(m)
  {
    if ms == [] then [] else Encoded(mode, ms[0]) + EncodedAll(mode, ms[1..])
  }

  ghost function ReportedAll(mode: u8, ms: seq<Move>): seq<Packet>
    requires forall m :: m in ms ==> InRange(m)
  {
    if ms == [] then [] else [Reported(mode, ms[0])] + ReportedAll(mode, ms[1..])
  }

  /** The driver inverts the encoding of every list of movements, in every mode. */
  lemma {:induction false} DecodesAll(mode: u8, s: State, ms: seq<Move>)
    requires s.cycle == 0 && forall m :: m in ms ==> InRange(m)
    ensures Run(mode, s, EncodedAll(mode, ms)).0.cycle == 0
    ensures Run(mode, s, EncodedAll(mode, ms)).1 == ReportedAll(mode, ms)
    decreases |ms|
  {
    if ms != [] {
      OneMove(mode, s, ms[0]);
      RunAppend(mode, s, Encoded(mode, ms[0]), EncodedAll(mode, ms[1..]));
      DecodesAll(mode, Run(mode, s, Encoded(mode, ms[0])).0, ms[1..]);
    }
  }

  // ----- Arbitrary bytes, a frame at a time

  function FrameSize(mode: u8): nat {
    if mode == 1 || mode == 2 then 4 else 3
  }

  /** The packet of a whole frame. */
  function FramePacket(mode: u8, frame: seq<u8>): Packet
    requires |frame| == FrameSize(mode)
  {
    Decoded(mode, State(0, frame[0], frame[1], frame[2], if |frame| == 4 then frame[3] else 0, 0, 0, 0))
  }

  /** What the stream means: bytes that cannot begin a frame are skipped, a frame with an overflow bit
      is dropped as a whole, an unfinished frame at the end is not reported. */
  function Frames(mode: u8, input: seq<u8>): seq<Packet>
    decreases |input|
  {
    var n := FrameSize(mode);
    if input == [] then []
    else if input[0] / 8 % 2 == 0 then Frames(mode, input[1..])
    else if |input| < n then []
    else (if input[0] < 0x40 then [FramePacket(mode, input[..n])] else []) + Frames(mode, input[n..])
  }

  /** From the start of a frame, the driver emits exactly the packets of the frames of any byte stream. */
  lemma {:induction false} EmitsFrames(mode: u8, s: State, input: seq<u8>)
    requires s.cycle == 0
    ensures Run(mode, s, input).1 == Frames(mode, input)
    decreases |input|
  {
    var n := FrameSize(mode);
    if input != [] {
      if input[0] / 8 % 2 == 0 {
        SkipsByte(mode, s, input);
        EmitsFrames(mode, Handled(mode, s, input[0]).0, input[1..]);
      } else if |input| < n {
        ShortFrame(mode, s, input);
      } else {
        assert input == input[..n] + input[n..];
        RunAppend(mode, s, input[..n], input[n..]);
        OneFrame(mode, s, input[..n]);
        EmitsFrames(mode, Run(mode, s, input[..n]).0, input[n..]);
      }
    }
  }

  lemma SkipsByte(mode: u8, s: State, input: seq<u8>)
    requires s.cycle == 0 && input != [] && input[0] / 8 % 2 == 0
    ensures Handled(mode, s, input[0]).0.cycle == 0
    ensures Run(mode, s, input).1 == Run(mode, Handled(mode, s, input[0]).0, input[1..]).1
  {
    RunStep(mode, s, input);
  }

  lemma ShortFrame(mode: u8, s: State, input: seq<u8>)
    requires s.cycle == 0 && input != [] && input[0] / 8 % 2 == 1 && |input| < FrameSize(mode)
    ensures Run(mode, s, input).1 == []
  {
    hide Finished;
    var s1 := Handled(mode, s, input[0]).0;
    RunStep(mode, s, input);
    if |input| > 1 {
      var s2 := Handled(mode, s1, input[1]).0;
      RunStep(mode, s1, input[1..]);
      if |input| > 2 {
        RunStep(mode, s2, input[1..][1..]);
      }
    }
  }

  lemma OneFrame(mode: u8, s: State, frame: seq<u8>)
    requires s.cycle == 0 && |frame| == FrameSize(mode) && frame[0] / 8 % 2 == 1
    ensures Run(mode, s, frame).0.cycle == 0
    ensures Run(mode, s, frame).1 == if frame[0] < 0x40 then [FramePacket(mode, frame)] else []
  {
    OverflowBits(frame[0]);
    hide Clamp, Decoded;
    var s1 := s.(b0 := frame[0], cycle := 1);
    var s2 := s1.(b1 := frame[1], cycle := 2);
    assert Handled(mode, s, frame[0]) == (s1, []) && Handled(mode, s1, frame[1]) == (s2, []);
    RunStep(mode, s, frame);
    RunStep(mode, s1, frame[1..]);
    RunStep(mode, s2, frame[1..][1..]);
    var last := s2.(b2 := frame[2]);
    if FourBytes(mode) {
      RunStep(mode, s2.(b2 := frame[2], cycle := 3), frame[1..][1..][1..]);
      last := last.(b3 := frame[3]);
    }
    SamePacket(mode, last.(cycle := 0), frame);
  }

  /** Old position and buttons, and a fourth byte that was not sent, have no part in the packet. */
  lemma SamePacket(mode: u8, s: State, frame: seq<u8>)
    requires |frame| == FrameSize(mode) && s.b0 == frame[0] && s.b1 == frame[1] && s.b2 == frame[2]
    requires |frame| == 4 ==> s.b3 == frame[3]
    ensures Decoded(mode, s) == FramePacket(mode, frame)
  {
    hide Has;
  }

  // ----- The position

  /** The position after a list of packets: clamped after each. */
  ghost function Fold(x: i32, y: i32, ps: seq<Packet>): (i32, i32)
    decreases |ps|
  {
    if ps == [] then (x, y) else Fold(Clamp(x + ps[0].x, 0, 600), Clamp(y + ps[0].y, 0, 400), ps[1..])
  }

  lemma {:induction false} FoldAppend(x: i32, y: i32, ps: seq<Packet>, qs: seq<Packet>)
    ensures var (u, v) := Fold(x, y, ps); Fold(x, y, ps + qs) == Fold(u, v, qs)
    decreases |ps|
  {
    if ps == [] {
      assert ps + qs == qs;
    } else {
      assert (ps + qs)[1..] == ps[1..] + qs;
      FoldAppend(Clamp(x + ps[0].x, 0, 600), Clamp(y + ps[0].y, 0, 400), ps[1..], qs);
    }
  }

  /** On arbitrary bytes the position is the clamped fold of the accepted packets, it stays on the
      screen, and there is at most one packet for every three bytes. */
  lemma {:induction false} PositionIsFold(mode: u8, s: State, input: seq<u8>)
    requires s.cycle <= 3
    ensures var (t, out) := Run(mode, s, input);
      && (t.x, t.y) == Fold(s.x, s.y, out)
      && t.cycle <= 3 && 3 * |out| + t.cycle <= |input| + s.cycle
      && (0 <= s.x <= 600 && 0 <= s.y <= 400 ==> 0 <= t.x <= 600 && 0 <= t.y <= 400)
    decreases |input|
  {
    if input != [] {
      hide Has, Decoded;
      var (t, out) := Handled(mode, s, input[0]);
      var (u, more) := Run(mode, t, input[1..]);
      PositionIsFold(mode, t, input[1..]);
      FoldAppend(s.x, s.y, out, more);
      if out != [] {
        assert out[1..] == [];
      }
    }
  }
}
