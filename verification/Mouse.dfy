/** The PS/2 packet assembler of kernel/drivers/mouse.c: one byte per interrupt, three bytes to a
    packet, a discard flag, and a pointer clamped to the screen. */
module Mouse {
  import opened Words

  /** What get_mouse_state reports. */
  datatype Pointer = Pointer(x: int, y: int, left: bool, right: bool, middle: bool)

  datatype Screen = Screen(width: U16, height: U16)

  predicate Bit0(f: Byte) { f % 2 == 1 }
  predicate Bit1(f: Byte) { f / 2 % 2 == 1 }
  predicate Bit2(f: Byte) { f / 4 % 2 == 1 }
  predicate Bit3(f: Byte) { f / 8 % 2 == 1 }
  predicate Bit4(f: Byte) { f / 16 % 2 == 1 }
  predicate Bit5(f: Byte) { f / 32 % 2 == 1 }
  predicate Bit6(f: Byte) { f / 64 % 2 == 1 }
  predicate Bit7(f: Byte) { f / 128 % 2 == 1 }

  // ---- packets ----

  /** Overflow in either direction, or the bit that every first byte has is missing. */
  predicate Bad(flags: Byte) { Bit6(flags) || Bit7(flags) || !Bit3(flags) }

  /** A movement byte, read as signed when its sign flag is set. */
  function Movement(signed: bool, b: Byte): int { if signed && b >= 128 then b - 256 else b }

  /** `v` brought into [0, limit]. */
  function Clamp(v: int, limit: nat): int { if v > limit then limit else if v < 0 then 0 else v }

  /** What one packet does to the pointer; up on the mouse is up on the screen. */
  function Apply(scr: Screen, p: Pointer, flags: Byte, dx: Byte, dy: Byte): Pointer
  {
    if Bad(flags) then p
    else Pointer(Clamp(p.x + Movement(Bit4(flags), dx), scr.width),
                 Clamp(p.y - Movement(Bit5(flags), dy), scr.height),
                 Bit0(flags), Bit1(flags), Bit2(flags))
  }

  /** The meaning of a byte stream: its whole packets, one after the other. */
  function Packets(scr: Screen, p: Pointer, bytes: seq<Byte>): Pointer
    decreases |bytes|
  {
    if |bytes| < 3 then p else Packets(scr, Apply(scr, p, bytes[0], bytes[1], bytes[2]), bytes[3..])
  }

  // ---- the interrupt handler ----

  datatype State = State(p: Pointer, cycle: nat, flags: Byte, xMov: Byte, yMov: Byte, discard: bool)

  /** _mouse_int for one byte: the new state, and whether a packet took effect. */
  function Interrupt(scr: Screen, ticks: U64, st: State, b: Byte): (State, bool)
  {
    if ticks < 250 then (st, false)
    else if st.cycle == 0 then (st.(flags := b, cycle := 1, discard := st.discard || Bad(b)), false)
    else if st.cycle == 1 then (st.(xMov := b, cycle := 2), false)
    else if st.cycle == 2 then
      var u := st.(yMov := b, cycle := 0);
      if u.discard then (u.(discard := false), false)
      else
        var dx, dy := Movement(Bit4(u.flags), u.xMov), Movement(Bit5(u.flags), u.yMov);
        var x := if dx + u.p.x > scr.width then scr.width else if dx + u.p.x < 0 then 0 else u.p.x + dx;
        var y := if u.p.y - dy > scr.height then scr.height else if u.p.y - dy < 0 then 0 else u.p.y - dy;
        (u.(p := Pointer(x, y, Bit0(u.flags), Bit1(u.flags), Bit2(u.flags))), true)
    else (st, false)
  }

  /** A stream of bytes after the gate has opened. */
  function Feed(scr: Screen, ticks: U64, st: State, bytes: seq<Byte>): State
    decreases |bytes|
  {
    if bytes == [] then st else Feed(scr, ticks, Interrupt(scr, ticks, st, bytes[0]).0, bytes[1..])
  }

  /** Between packets. */
  predicate Idle(st: State) { st.cycle == 0 && !st.discard }

  lemma OnePacket(scr: Screen, ticks: U64, st: State, a: Byte, b: Byte, c: Byte)
    requires Idle(st) && ticks >= 250
    ensures var s1 := Interrupt(scr, ticks, st, a);
            var s2 := Interrupt(scr, ticks, s1.0, b);
            var s3 := Interrupt(scr, ticks, s2.0, c);
            && !s1.1 && !s2.1 && s3.1 == !Bad(a)
            && Idle(s3.0) && s3.0.p == Apply(scr, st.p, a, b, c)
  {
    hide Bit0, Bit1, Bit2, Bit4, Bit5, Bad;
  }

  lemma FeedOne(scr: Screen, ticks: U64, st: State, bytes: seq<Byte>)
    requires bytes != []
    ensures Feed(scr, ticks, st, bytes) == Feed(scr, ticks, Interrupt(scr, ticks, st, bytes[0]).0, bytes[1..])
  {
    hide Interrupt;
  }

  /** The state after the first packet of a stream, whose rest is still to be fed. */
  lemma FeedThree(scr: Screen, ticks: U64, st: State, bytes: seq<Byte>) returns (u: State)
    requires |bytes| >= 3
    ensures var u1 := Interrupt(scr, ticks, st, bytes[0]).0;
            var u2 := Interrupt(scr, ticks, u1, bytes[1]).0;
            u == Interrupt(scr, ticks, u2, bytes[2]).0
    ensures Feed(scr, ticks, st, bytes) == Feed(scr, ticks, u, bytes[3..])
  {
    hide Interrupt, Feed;
    var u1 := Interrupt(scr, ticks, st, bytes[0]).0;
    var u2 := Interrupt(scr, ticks, u1, bytes[1]).0;
    u := Interrupt(scr, ticks, u2, bytes[2]).0;
    FeedOne(scr, ticks, st, bytes);
    FeedOne(scr, ticks, u1, bytes[1..]);
    assert bytes[1..][0] == bytes[1] && bytes[1..][1..] == bytes[2..];
    FeedOne(scr, ticks, u2, bytes[2..]);
    assert bytes[2..][0] == bytes[2] && bytes[2..][1..] == bytes[3..];
  }

  /** What one packet is on a pointer that is on the screen: the movement bytes are added to x and taken
      from y, less 256 where their sign flag and their top bit are set; the result is brought into the
      screen; and the low three flags are the buttons. A packet with an overflow flag, or without flag 3,
      changes nothing. */
  lemma PacketMoves(scr: Screen, ticks: U64, st: State, f: Byte, dx: Byte, dy: Byte)
    requires ticks >= 250 && st.cycle == 0 && !st.discard
    ensures var u := Feed(scr, ticks, st, [f, dx, dy]);
            var x := st.p.x + dx - (if f / 16 % 2 == 1 && dx >= 128 then 256 else 0);
            var y := st.p.y - dy + (if f / 32 % 2 == 1 && dy >= 128 then 256 else 0);
            && u.cycle == 0 && !u.discard
            && (if f >= 128 || f / 64 % 2 == 1 || f / 8 % 2 == 0 then u.p == st.p
                else
                  && u.p.x == (if x < 0 then 0 else if x > scr.width then scr.width else x)
                  && u.p.y == (if y < 0 then 0 else if y > scr.height then scr.height else y)
                  && (u.p.left <==> f % 2 == 1) && (u.p.right <==> f / 2 % 2 == 1) && (u.p.middle <==> f / 4 % 2 == 1))
  {
    var u := FeedThree(scr, ticks, st, [f, dx, dy]);
    OnePacket(scr, ticks, st, f, dx, dy);
    assert [f, dx, dy][3..] == [];
    PacketMeans(scr, st.p, f, dx, dy);
    hide Interrupt, Apply, Bad;
    assert Feed(scr, ticks, u, []) == u;
  }

  lemma PacketMeans(scr: Screen, p: Pointer, f: Byte, dx: Byte, dy: Byte)
    ensures var u := Apply(scr, p, f, dx, dy);
            var x := p.x + dx - (if f / 16 % 2 == 1 && dx >= 128 then 256 else 0);
            var y := p.y - dy + (if f / 32 % 2 == 1 && dy >= 128 then 256 else 0);
            if f >= 128 || f / 64 % 2 == 1 || f / 8 % 2 == 0 then u == p
            else
              && u.x == (if x < 0 then 0 else if x > scr.width then scr.width else x)
              && u.y == (if y < 0 then 0 else if y > scr.height then scr.height else y)
              && (u.left <==> f % 2 == 1) && (u.right <==> f / 2 % 2 == 1) && (u.middle <==> f / 4 % 2 == 1)
  {
    assert Bit7(f) <==> f >= 128;
  }

  /** Before the gate opens, at 250 ticks, a byte is read and forgotten, and nothing is reported. */
  lemma GateClosed(scr: Screen, ticks: U64, st: State, b: Byte)
    requires ticks < 250
    ensures Interrupt(scr, ticks, st, b) == (st, false)
  {
  }

  /** Feeding any stream from between packets is applying its packets; what is left over waits. */
  lemma {:induction false} StreamRefines(scr: Screen, ticks: U64, st: State, bytes: seq<Byte>)
    requires Idle(st) && ticks >= 250
    ensures Feed(scr, ticks, st, bytes).p == Packets(scr, st.p, bytes)
    ensures Feed(scr, ticks, st, bytes).cycle == |bytes| % 3
    ensures |bytes| % 3 == 0 ==> Idle(Feed(scr, ticks, st, bytes))
    decreases |bytes|
  {
    hide Bad, Apply, Interrupt, Feed;
    if |bytes| >= 3 {
      var u := FeedThree(scr, ticks, st, bytes);
      OnePacket(scr, ticks, st, bytes[0], bytes[1], bytes[2]);
      StreamRefines(scr, ticks, u, bytes[3..]);
      assert (|bytes| - 3) % 3 == |bytes| % 3;
    } else {
      FeedRest(scr, ticks, st, bytes);
    }
  }

  lemma FeedRest(scr: Screen, ticks: U64, st: State, bytes: seq<Byte>)
    requires Idle(st) && ticks >= 250 && |bytes| < 3
    ensures Feed(scr, ticks, st, bytes).p == st.p && Feed(scr, ticks, st, bytes).cycle == |bytes|
    ensures bytes == [] ==> Idle(Feed(scr, ticks, st, bytes))
  {
    hide Bad;
    if |bytes| == 1 {
      assert bytes[1..] == [];
    } else if |bytes| == 2 {
      var u := Interrupt(scr, ticks, st, bytes[0]).0;
      FeedOne(scr, ticks, st, bytes);
      FeedOne(scr, ticks, u, bytes[1..]);
      assert bytes[1..][1..] == [] && bytes[1..][0] == bytes[1];
    }
  }

  /** A discarded packet anywhere in a stream leaves no trace. */
  lemma {:induction false} DiscardedLeavesNoTrace(scr: Screen, p: Pointer, before: seq<Byte>, bad: seq<Byte>,
                                                  after: seq<Byte>)
    requires |before| % 3 == 0 && |bad| == 3 && Bad(bad[0])
    ensures Packets(scr, p, before + bad + after) == Packets(scr, p, before + after)
    decreases |before|
  {
    hide Bad, Apply;
    if before == [] {
      assert before + bad + after == bad + after && (bad + after)[3..] == after && before + after == after;
      assert Apply(scr, p, bad[0], bad[1], bad[2]) == p by { BadChangesNothing(scr, p, bad[0], bad[1], bad[2]); }
    } else {
      var q := Apply(scr, p, before[0], before[1], before[2]);
      assert (before + bad + after)[3..] == before[3..] + bad + after;
      assert (before + after)[3..] == before[3..] + after;
      assert |before[3..]| % 3 == 0;
      DiscardedLeavesNoTrace(scr, q, before[3..], bad, after);
    }
  }

  lemma BadChangesNothing(scr: Screen, p: Pointer, flags: Byte, dx: Byte, dy: Byte)
    requires Bad(flags)
    ensures Apply(scr, p, flags, dx, dy) == p
  {
  }

  predicate OnScreen(scr: Screen, p: Pointer) { 0 <= p.x <= scr.width && 0 <= p.y <= scr.height }

  /** The pointer never leaves the screen, whatever bytes arrive, in whatever state, gate open or not. */
  lemma {:induction false} StaysOnScreen(scr: Screen, ticks: U64, st: State, bytes: seq<Byte>)
    requires OnScreen(scr, st.p)
    ensures OnScreen(scr, Feed(scr, ticks, st, bytes).p)
    decreases |bytes|
  {
    if bytes != [] {
      StaysOnScreen(scr, ticks, Interrupt(scr, ticks, st, bytes[0]).0, bytes[1..]);
    }
  }

  // ---- the driver's globals ----

  class MouseDriver {
    const scr: Screen
    var x: int
    var y: int
    var leftPressed: bool
    var rightPressed: bool
    var middlePressed: bool
    var handlerCycle: nat
    var flags: Byte
    var xMov: Byte
    var yMov: Byte
    var discardPacket: bool

    /** init_mouse, without its port traffic */
    constructor (scr: Screen)
      ensures this.scr == scr && Idle(Value()) && OnScreen(scr, Value().p)
      ensures Value().p == Pointer(scr.width / 2, scr.height / 2, false, false, false)
    {
      this.scr := scr;
      x, y := scr.width / 2, scr.height / 2;
      leftPressed, rightPressed, middlePressed := false, false, false;
      handlerCycle, discardPacket := 0, false;
      flags, xMov, yMov := 0, 0, 0;
    }

    ghost function Value(): State
      reads this
    {
      State(Pointer(x, y, leftPressed, rightPressed, middlePressed), handlerCycle, flags, xMov, yMov, discardPacket)
    }

    /** _mouse_int; `b` is the byte read from the port. */
    method Handle(ticks: U64, b: Byte) returns (done: bool)
      modifies this
      ensures (Value(), done) == Interrupt(scr, ticks, old(Value()), b)
    {
      hide Bit0, Bit1, Bit2, Bit3, Bit4, Bit5, Bit6, Bit7;
      if ticks < 250 {
        return false;
      }
      if handlerCycle == 0 {
        flags := b;
        handlerCycle := handlerCycle + 1;
        if Bit6(flags) || Bit7(flags) {
          discardPacket := true;
        }
        if !Bit3(flags) {
          discardPacket := true;
        }
        return false;
      } else if handlerCycle == 1 {
        xMov := b;
        handlerCycle := handlerCycle + 1;
        return false;
      } else if handlerCycle == 2 {
        yMov := b;
        handlerCycle := 0;
        if discardPacket {
          discardPacket := false;
          return false;
        }
        var dx, dy := Movement(Bit4(flags), xMov), Movement(Bit5(flags), yMov);
        if dx + x > scr.width {
          x := scr.width;
        } else if dx + x < 0 {
          x := 0;
        } else {
          x := x + dx;
        }
        if y - dy > scr.height {
          y := scr.height;
        } else if y - dy < 0 {
          y := 0;
        } else {
          y := y - dy;
        }
        leftPressed, rightPressed, middlePressed := Bit0(flags), Bit1(flags), Bit2(flags);
        return true;
      }
      return false;
    }
  }
}
