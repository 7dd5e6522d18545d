/**
 The message engine of the dummy I2C adapter. Register writes go to a log; random bytes come from an input
 stream, in order of use; the completion is its counter.
*/
module I2c {
  import opened Bytes

  const REG_ADDR := 0x00
  const REG_XADDR := 0x04
  const REG_DATA := 0x08
  const REG_CNTR := 0x0c
  const REG_CCR := 0x14
  const REG_SRST := 0x18

  const BUS_EN: u32 := 0x40
  const M_STA: u32 := 0x20
  const M_STP: u32 := 0x10
  const INT_FLAG: u32 := 0x08

  const I2C_M_RD: u16 := 0x0001
  const I2C_M_TEN: u16 := 0x0010

  const CLOCK_NORMAL := 100000
  const SPEED_100K: u32 := ((0xf & 2) << 3) | (0x7 & 11)
  const UINT_MAX := 0xFFFF_FFFF

  /** The driver's shadow of the control register. */
  datatype Shadow = Shadow(bits: u32) {
    function With(flag: u32): u32 {
      bits | flag
    }

    function Without(flag: u32): u32 {
      bits & !flag
    }

    /** After hw_init: the bus is enabled, and no START, STOP or interrupt flag is left. */
    predicate Up() {
      bits & BUS_EN != 0 && bits & (M_STA | M_STP | INT_FLAG) == 0
    }
  }

  /** DUMMY_I2C_BUS_DIR_WR and _RD. */
  datatype Dir = Wr | Rd

  /** DUMMY_I2C_ADDR: the low byte of the address, above the direction bit. */
  function WireAddr(addr: u16, dir: Dir): u32 {
    ((0xff & addr as u32) << 1) | if dir.Wr? then 0 else 1
  }

  function LowByte(addr: u16): u32 {
    addr as u32 & 0xff
  }

  datatype RegWrite = RegWrite(reg: nat, value: u32)

  /** struct i2c_msg: the buffer is shared with the caller, and two messages may name the same one. */
  datatype Msg = Msg(addr: u16, flags: u16, len: nat, buf: array<u8>) {
    predicate IsRead() {
      flags & I2C_M_RD != 0
    }

    function Direction(): Dir {
      if IsRead() then Rd else Wr
    }

    predicate IsTenBit() {
      flags & I2C_M_TEN != 0
    }

    /** What the caller owes: a length that fits the wire format and the buffer. */
    predicate Fits() {
      len < 0x1_0000 && len <= buf.Length
    }
  }

  // ---------------------------------------------------------------- specification

  /** What a transfer acts on: the contents of the buffers, the register log, the random bytes used so far. */
  datatype Bus = Bus(store: map<array<u8>, seq<u8>>, regs: seq<RegWrite>, used: nat)

  function Draw(random: nat -> u8, from: nat, n: nat): (r: seq<u8>)
    ensures |r| == n
  {
    seq(n, i requires 0 <= i < n => random(from + i))
  }

  function DataWrite(byte: u8): RegWrite {
    RegWrite(REG_DATA, byte as u32)
  }

  function DataWrites(bytes: seq<u8>): (r: seq<RegWrite>)
    ensures |r| == |bytes|
  {
    seq(|bytes|, i requires 0 <= i < |bytes| => DataWrite(bytes[i]))
  }

  /** The register writes of one message: START, the data, STOP, and the interrupt flag cleared. */
  function MsgRegs(c: Shadow, m: Msg, content: seq<u8>): seq<RegWrite>
    requires m.len <= |content|
  {
    [RegWrite(REG_CNTR, c.With(M_STA))] + MsgTail(c, m, content)
  }

  function MsgData(m: Msg, content: seq<u8>): seq<RegWrite>
    requires m.len <= |content|
  {
    if m.IsRead() then [] else DataWrites(content[..m.len])
  }

  function MsgTail(c: Shadow, m: Msg, content: seq<u8>): seq<RegWrite>
    requires m.len <= |content|
  {
    MsgData(m, content) + [RegWrite(REG_CNTR, c.With(M_STP)), RegWrite(REG_CNTR, c.Without(INT_FLAG))]
  }

  /** The register writes of dummy_i2c_hw_init, when it leaves `c` in the shadow register. */
  function InitRegs(c: Shadow): seq<RegWrite> {
    [RegWrite(REG_SRST, 1), RegWrite(REG_CCR, SPEED_100K), RegWrite(REG_ADDR, 0), RegWrite(REG_XADDR, 0),
     RegWrite(REG_CNTR, 0), RegWrite(REG_CNTR, c.With(M_STP))]
  }

  /** The buffer of a message after its transfer: a read fills exactly its first `len` bytes. */
  function MsgContent(random: nat -> u8, used: nat, m: Msg, content: seq<u8>): (r: seq<u8>)
    requires m.len <= |content|
    ensures |r| == |content|
  {
    if m.IsRead() then Draw(random, used, m.len) + content[m.len..] else content
  }

  /** One more byte: a read stores the next random byte behind the others, a write sends the next byte. */
  lemma NextByte(random: nat -> u8, used: nat, m: Msg, content: seq<u8>, n: nat)
    requires n < |content|
    ensures var before := MsgContent(random, used, m.(len := n), content);
            && MsgContent(random, used, m.(len := n + 1), content) ==
               (if m.IsRead() then before[n := random(used + n)] else before)
            && MsgData(m.(len := n + 1), content) ==
               MsgData(m.(len := n), content) + (if m.IsRead() then [] else [DataWrite(content[n])])
            && (!m.IsRead() ==> before[n] == content[n])
  {
    if m.IsRead() {
      DrawNext(random, used, n);
      ReplaceFirst(Draw(random, used, n), content[n..], random(used + n));
      assert content[n..][1..] == content[n + 1..];
    } else {
      assert content[..n + 1] == content[..n] + [content[n]];
      assert DataWrites(content[..n] + [content[n]]) == DataWrites(content[..n]) + [DataWrite(content[n])];
    }
  }

  lemma DrawNext(random: nat -> u8, from: nat, n: nat)
    ensures Draw(random, from, n + 1) == Draw(random, from, n) + [random(from + n)]
  {
  }

  lemma ReplaceFirst<T>(a: seq<T>, b: seq<T>, x: T)
    requires b != []
    ensures (a + b)[|a| := x] == (a + [x]) + b[1..]
  {
  }

  predicate Holds(b: Bus, m: Msg) {
    m.Fits() && m.buf in b.store && |b.store[m.buf]| == m.buf.Length
  }

  predicate HoldsAll(b: Bus, msgs: seq<Msg>) {
    forall i | 0 <= i < |msgs| :: Holds(b, msgs[i])
  }

  predicate SameShape(b: Bus, r: Bus) {
    && (forall k | k in b.store :: k in r.store && |r.store[k]| == |b.store[k]|)
    && (forall k | k in r.store :: k in b.store)
  }

  ghost function Transfer(random: nat -> u8, c: Shadow, b: Bus, m: Msg): Bus
    requires Holds(b, m)
  {
    Bus(b.store[m.buf := MsgContent(random, b.used, m, b.store[m.buf])],
        b.regs + MsgRegs(c, m, b.store[m.buf]),
        b.used + if m.IsRead() then m.len else 0)
  }

  ghost function TransferAll(random: nat -> u8, c: Shadow, b: Bus, msgs: seq<Msg>): (r: Bus)
    requires HoldsAll(b, msgs)
    ensures SameShape(b, r)
  {
    if msgs == [] then b
    else
      var mid := TransferAll(random, c, b, msgs[..|msgs| - 1]);
      assert Holds(b, msgs[|msgs| - 1]);
      Transfer(random, c, mid, msgs[|msgs| - 1])
  }

  lemma NextTransfer(random: nat -> u8, c: Shadow, b: Bus, msgs: seq<Msg>, i: nat)
    requires i < |msgs| && HoldsAll(b, msgs)
    ensures HoldsAll(b, msgs[..i + 1]) && Holds(TransferAll(random, c, b, msgs[..i]), msgs[i])
    ensures TransferAll(random, c, b, msgs[..i + 1]) ==
            Transfer(random, c, TransferAll(random, c, b, msgs[..i]), msgs[i])
  {
    assert msgs[..i + 1][..i] == msgs[..i] && Holds(b, msgs[i]);
  }

  /** Clearing the interrupt flag leaves such a shadow register as it is. */
  lemma BusStaysUp(c: Shadow)
    requires c.Up()
    ensures Shadow(c.Without(INT_FLAG)) == c
  {
  }

  /** `x--` on a 32-bit unsigned counter. */
  function Dec32(x: nat): nat
    requires x <= UINT_MAX
  {
    if x == 0 then UINT_MAX else x - 1
  }

  // ---------------------------------------------------------------- on the wire, in numbers

  lemma DataWriteExactly(byte: u8)
    ensures DataWrite(byte).reg == 0x08 && DataWrite(byte).value as int == byte as int
  {
  }

  lemma BitsExactly(c: Shadow, flag: u32)
    ensures c.With(flag) == c.bits | flag && c.Without(flag) == c.bits & !flag
    ensures M_STA == 0x20 && M_STP == 0x10 && INT_FLAG == 0x08
  {
  }

  lemma ControlExactly(c: Shadow)
    ensures c.With(M_STA) == c.bits | 0x20
    ensures c.With(M_STP) == c.bits | 0x10
    ensures c.Without(INT_FLAG) == c.bits & !0x08
  {
    BitsExactly(c, M_STA);
    BitsExactly(c, M_STP);
    BitsExactly(c, INT_FLAG);
  }

  /** The flags of a message: the lowest bit says read, the fifth ten-bit addressing. */
  lemma FlagsExactly(m: Msg)
    ensures m.IsRead() <==> m.flags % 2 == 1
    ensures m.Direction() == if m.flags % 2 == 1 then Rd else Wr
    ensures m.IsTenBit() <==> m.flags / 16 % 2 == 1
  {
  }

  /** The address byte: seven bits and the direction below them. What is above the low byte is lost. */
  lemma AddressExactly(addr: u16, dir: Dir)
    ensures WireAddr(addr, dir) == (addr as u32 % 0x100) * 2 + if dir == Rd then 1 else 0
    ensures LowByte(addr) == addr as u32 % 0x100
  {
  }

  /** The bytes that a message sends. */
  function SentBytes(m: Msg): nat {
    if m.IsRead() then 0 else m.len
  }

  /** START, the bytes in their order, STOP, and the interrupt flag cleared. */
  predicate OnWire(c: Shadow, m: Msg, content: seq<u8>, log: seq<RegWrite>)
    requires m.len <= |content|
  {
    var n := SentBytes(m);
    && |log| == n + 3
    && log[0] == RegWrite(0x0c, c.bits | 0x20)
    && (forall i | 0 <= i < n :: log[1 + i] == DataWrite(content[i]))
    && log[n + 1] == RegWrite(0x0c, c.bits | 0x10)
    && log[n + 2] == RegWrite(0x0c, c.bits & !0x08)
  }

  lemma MsgOnWire(c: Shadow, m: Msg, content: seq<u8>)
    requires m.len <= |content|
    ensures OnWire(c, m, content, MsgRegs(c, m, content))
  {
    ControlExactly(c);
    var data, n := MsgData(m, content), SentBytes(m);
    assert |data| == n;
    assert forall i | 0 <= i < n :: MsgRegs(c, m, content)[1 + i] == data[i];
  }

  /** The writes of a message, place by place. */
  lemma WritesExactly(c: Shadow, m: Msg, content: seq<u8>)
    requires m.len <= |content|
    ensures var log, n := MsgRegs(c, m, content), if m.flags % 2 == 1 then 0 else m.len;
            && |log| == n + 3
            && log[0].reg == 0x0c && log[0].value == c.bits | 0x20
            && (forall i | 0 <= i < n :: log[1 + i].reg == 0x08 && log[1 + i].value as int == content[i] as int)
            && log[n + 1].reg == 0x0c && log[n + 1].value == c.bits | 0x10
            && log[n + 2].reg == 0x0c && log[n + 2].value == c.bits & !0x08
  {
    MsgOnWire(c, m, content);
    FlagsExactly(m);
    var log := MsgRegs(c, m, content);
    forall i | 0 <= i < SentBytes(m)
      ensures log[1 + i].reg == 0x08 && log[1 + i].value as int == content[i] as int
    {
      DataWriteExactly(content[i]);
    }
  }

  /** The buffer of a message afterwards, byte by byte. */
  lemma ContentExactly(random: nat -> u8, used: nat, m: Msg, content: seq<u8>, i: nat)
    requires m.len <= |content| && i < |content|
    ensures MsgContent(random, used, m, content)[i] ==
            if m.flags % 2 == 1 && i < m.len then random(used + i) else content[i]
  {
    FlagsExactly(m);
  }

  /** The writes of hw_init: the reset, the speed, and three registers cleared; then STOP on the enabled bus. */
  lemma InitExactly(c: Shadow)
    ensures InitRegs(c) == [RegWrite(0x18, 1), RegWrite(0x14, 19), RegWrite(0x00, 0), RegWrite(0x04, 0),
                            RegWrite(0x0c, 0), RegWrite(0x0c, c.bits | 0x10)]
  {
    ControlExactly(c);
  }

  /** The writes of the messages together. */
  function WireLength(msgs: seq<Msg>): nat {
    if msgs == [] then 0
    else WireLength(msgs[..|msgs| - 1]) + SentBytes(msgs[|msgs| - 1]) + 3
  }

  /** Message `k` of a list finds its place in the log behind those before it, and is there what it is on the wire,
      with the contents that its buffer has when its turn comes. */
  ghost predicate KthOnWire(random: nat -> u8, c: Shadow, b: Bus, msgs: seq<Msg>, k: nat, log: seq<RegWrite>)
    requires HoldsAll(b, msgs) && k < |msgs|
  {
    var before := TransferAll(random, c, b, msgs[..k]);
    var at, m := |b.regs| + WireLength(msgs[..k]), msgs[k];
    && |before.regs| == at && at + SentBytes(m) + 3 <= |log|
    && Holds(before, m)
    && OnWire(c, m, before.store[m.buf], log[at..at + SentBytes(m) + 3])
  }

  lemma {:induction false} LogLength(random: nat -> u8, c: Shadow, b: Bus, msgs: seq<Msg>)
    requires HoldsAll(b, msgs)
    ensures |TransferAll(random, c, b, msgs).regs| == |b.regs| + WireLength(msgs)
  {
    if msgs == [] {
    } else {
      var front, m := msgs[..|msgs| - 1], msgs[|msgs| - 1];
      LogLength(random, c, b, front);
      assert Holds(b, m);
      var mid := TransferAll(random, c, b, front);
      MsgOnWire(c, m, mid.store[m.buf]);
    }
  }

  /** What is on the wire stays there when more messages follow and the log grows. */
  lemma WireGrows(random: nat -> u8, c: Shadow, b: Bus, some: seq<Msg>, msgs: seq<Msg>, k: nat,
                  log: seq<RegWrite>, more: seq<RegWrite>)
    requires HoldsAll(b, msgs) && HoldsAll(b, some) && some <= msgs && k < |some|
    requires KthOnWire(random, c, b, some, k, log)
    ensures KthOnWire(random, c, b, msgs, k, log + more)
  {
    assert msgs[..k] == some[..k] && msgs[k] == some[k];
    var at := |b.regs| + WireLength(msgs[..k]);
    SliceOfFront(log, more, at, at + SentBytes(msgs[k]) + 3);
  }

  lemma LastOnWire(random: nat -> u8, c: Shadow, b: Bus, msgs: seq<Msg>)
    requires HoldsAll(b, msgs) && msgs != []
    ensures KthOnWire(random, c, b, msgs, |msgs| - 1, TransferAll(random, c, b, msgs).regs)
  {
    var front, last := msgs[..|msgs| - 1], msgs[|msgs| - 1];
    assert Holds(b, last);
    var mid := TransferAll(random, c, b, front);
    LogLength(random, c, b, front);
    MsgOnWire(c, last, mid.store[last.buf]);
    TailOf(mid.regs, MsgRegs(c, last, mid.store[last.buf]));
  }

  /** For any messages, buffers shared or not, every message of the list is on the wire at its place. */
  lemma {:induction false} AllOnWire(random: nat -> u8, c: Shadow, b: Bus, msgs: seq<Msg>, k: nat)
    requires HoldsAll(b, msgs) && k < |msgs|
    ensures KthOnWire(random, c, b, msgs, k, TransferAll(random, c, b, msgs).regs)
    decreases |msgs|
  {
    if k == |msgs| - 1 {
      LastOnWire(random, c, b, msgs);
    } else {
      var front, last := msgs[..|msgs| - 1], msgs[|msgs| - 1];
      AllOnWire(random, c, b, front, k);
      assert Holds(b, last);
      var mid := TransferAll(random, c, b, front);
      WireGrows(random, c, b, front, msgs, k, mid.regs, MsgRegs(c, last, mid.store[last.buf]));
    }
  }

  lemma FirstOnWire(random: nat -> u8, c: Shadow, b: Bus, msgs: seq<Msg>, n: nat)
    requires HoldsAll(b, msgs) && n <= |msgs|
    ensures HoldsAll(b, msgs[..n])
    ensures forall k | 0 <= k < n :: KthOnWire(random, c, b, msgs, k, TransferAll(random, c, b, msgs[..n]).regs)
  {
    var log := TransferAll(random, c, b, msgs[..n]).regs;
    forall k | 0 <= k < n
      ensures KthOnWire(random, c, b, msgs, k, log)
    {
      AllOnWire(random, c, b, msgs[..n], k);
      WireGrows(random, c, b, msgs[..n], msgs, k, log, []);
      assert log + [] == log;
    }
  }

  lemma TailOf<T>(a: seq<T>, b: seq<T>)
    ensures (a + b)[|a|..|a| + |b|] == b
  {
  }

  lemma SliceOfFront<T>(a: seq<T>, b: seq<T>, lo: nat, hi: nat)
    requires lo <= hi <= |a|
    ensures (a + b)[lo..hi] == a[lo..hi]
  {
  }

  // ---------------------------------------------------------------- the engine

  class DummyI2c {
    const random: nat -> u8
    var used: nat
    ghost var regs: seq<RegWrite>

    var dir: Dir
    var addr: u32
    var xaddr: u32
    var cntrBits: Shadow
    var byteLeft: nat
    var bytePos: nat
    var busFreq: u32
    var currMsg: Option<Msg>
    var msgs: seq<Msg>
    var numMsgs: int
    var done: nat
    const timeout: nat

    ghost predicate Valid()
      reads this`cntrBits, this`byteLeft, this`done
    {
      cntrBits.Up() && byteLeft <= UINT_MAX && done <= UINT_MAX
    }

    ghost function Abs(bufs: set<array<u8>>): Bus
      reads this`regs, this`used, bufs
    {
      Bus(map b | b in bufs :: b[..], regs, used)
    }

    /** The part of dummy_i2c_register that concerns the engine: everything zero, then hw_init. */
    constructor (random: nat -> u8, timeout: nat)
      ensures Valid() && cntrBits == Shadow(BUS_EN) && used == 0 && this.random == random
      ensures busFreq == 19
      ensures regs == [RegWrite(REG_SRST, 1), RegWrite(REG_CCR, 19), RegWrite(REG_ADDR, 0), RegWrite(REG_XADDR, 0),
                       RegWrite(REG_CNTR, 0), RegWrite(REG_CNTR, 0x50)]
    {
      this.random, this.timeout := random, timeout;
      used, regs, dir, addr, xaddr, cntrBits := 0, [], Wr, 0, 0, Shadow(0);
      byteLeft, bytePos, busFreq, currMsg, done := 0, 0, 0, None, 0;
      msgs, numMsgs := [], 0;
      new;
      HwInit();
    }

    method Write(reg: nat, value: u32)
      modifies this`regs
      ensures regs == old(regs) + [RegWrite(reg, value)]
    {
      regs := regs + [RegWrite(reg, value)];
    }

    method GetRandomU8() returns (b: u8)
      modifies this`used
      ensures b == random(old(used)) && used == old(used) + 1
    {
      b := random(used);
      used := used + 1;
    }

    /** Only the normal speed is supported; any other leaves the speed as it was. The register is written anyway. */
    method SetBusFreq(freq: nat)
      modifies this`busFreq, this`regs
      ensures busFreq == if freq == CLOCK_NORMAL then SPEED_100K else old(busFreq)
      ensures regs == old(regs) + [RegWrite(REG_CCR, busFreq)]
    {
      if freq == CLOCK_NORMAL {
        busFreq := SPEED_100K;
      }
      Write(REG_CCR, busFreq);
    }

    method HwInit()
      modifies this`cntrBits, this`busFreq, this`regs
      ensures cntrBits == Shadow(old(cntrBits).With(BUS_EN)) && busFreq == SPEED_100K
      ensures regs == old(regs) + InitRegs(cntrBits)
    {
      Write(REG_SRST, 1);
      SetBusFreq(CLOCK_NORMAL);
      Write(REG_ADDR, 0);
      Write(REG_XADDR, 0);
      Write(REG_CNTR, 0);
      cntrBits := Shadow(cntrBits.With(BUS_EN));
      Write(REG_CNTR, cntrBits.With(M_STP));
    }

    method SendStop()
      modifies this`regs, this`done
      ensures regs == old(regs) + [RegWrite(REG_CNTR, cntrBits.With(M_STP))]
      ensures done == if old(done) == UINT_MAX then UINT_MAX else old(done) + 1
    {
      Write(REG_CNTR, cntrBits.With(M_STP));
      if done != UINT_MAX {
        done := done + 1;
      }
    }

    method ClearIrq()
      modifies this`regs, this`cntrBits
      ensures cntrBits == Shadow(old(cntrBits).Without(INT_FLAG))
      ensures regs == old(regs) + [RegWrite(REG_CNTR, cntrBits.bits)]
    {
      cntrBits := Shadow(cntrBits.Without(INT_FLAG));
      Write(REG_CNTR, cntrBits.bits);
    }

    /** The body of the data loop: one byte out to the data register, or one random byte in. */
    method MoveByte()
      requires currMsg.Some? && bytePos < currMsg.value.buf.Length
      requires dir == currMsg.value.Direction()
      modifies this`regs, this`used, currMsg.value.buf
      ensures var m := currMsg.value;
              if m.IsRead() then
                m.buf[..] == old(m.buf[..])[bytePos := random(old(used))] && used == old(used) + 1 && regs == old(regs)
              else
                m.buf[..] == old(m.buf[..]) && used == old(used)
                && regs == old(regs) + [DataWrite(old(m.buf[bytePos]))]
    {
      var buf := currMsg.value.buf;
      if dir == Wr {
        Write(REG_DATA, buf[bytePos] as u32);
      } else {
        var b := GetRandomU8();
        buf[bytePos] := b;
      }
    }

    /** The same, seen from the start of the phase: of a message cut after byte bytePos, one more byte is done. */
    method MoveNext(ghost content: seq<u8>, ghost used0: nat, ghost regs0: seq<RegWrite>)
      requires currMsg.Some? && bytePos < currMsg.value.buf.Length == |content|
      requires dir == currMsg.value.Direction()
      requires var m := currMsg.value.(len := bytePos);
               && m.buf[..] == MsgContent(random, used0, m, content)
               && used == used0 + (if m.IsRead() then bytePos else 0)
               && regs == regs0 + MsgData(m, content)
      modifies this`regs, this`used, currMsg.value.buf
      ensures var m := currMsg.value.(len := bytePos + 1);
              && m.buf[..] == MsgContent(random, used0, m, content)
              && used == used0 + (if m.IsRead() then bytePos + 1 else 0)
              && regs == regs0 + MsgData(m, content)
    {
      ghost var m := currMsg.value;
      NextByte(random, used0, m, content, bytePos);
      ConcatAssoc(regs0, MsgData(m.(len := bytePos), content), [DataWrite(content[bytePos])]);
      MoveByte();
    }

    /** The data phase of dummy_i2c_isr: a for loop whose test decrements an unsigned counter, so that the counter
        is left at 2^32 - 1 whatever the length. */
    method DataPhase()
      requires currMsg.Some? && currMsg.value.Fits() && byteLeft == currMsg.value.len && bytePos == 0
      requires dir == currMsg.value.Direction()
      modifies this`byteLeft, this`bytePos, this`regs, this`used, currMsg.value.buf
      ensures byteLeft == UINT_MAX && bytePos == currMsg.value.len
      ensures var m := currMsg.value;
              && m.buf[..] == MsgContent(random, old(used), m, old(m.buf[..]))
              && used == old(used) + (if m.IsRead() then m.len else 0)
              && regs == old(regs) + MsgData(m, old(m.buf[..]))
    {
      var m := currMsg.value;
      var buf := m.buf;
      var more := byteLeft != 0;
      byteLeft := Dec32(byteLeft);
      ghost var content := buf[..];
      while more
        invariant 0 <= bytePos <= m.len && byteLeft <= UINT_MAX
        invariant if more then byteLeft == m.len - bytePos - 1 else byteLeft == UINT_MAX && bytePos == m.len
        invariant buf[..] == MsgContent(random, old(used), m.(len := bytePos), content)
        invariant used == old(used) + if m.IsRead() then bytePos else 0
        invariant regs == old(regs) + MsgData(m.(len := bytePos), content)
        decreases more, byteLeft
      {
        MoveNext(content, old(used), old(regs));
        bytePos := bytePos + 1;
        more := byteLeft != 0;
        byteLeft := Dec32(byteLeft);
      }
    }

    method Isr()
      requires currMsg.Some? && currMsg.value.Fits() && byteLeft == currMsg.value.len && bytePos == 0
      requires dir == currMsg.value.Direction()
      modifies this`byteLeft, this`bytePos, this`regs, this`used, this`done, this`cntrBits, currMsg.value.buf
      ensures byteLeft == UINT_MAX && bytePos == currMsg.value.len
      ensures cntrBits == Shadow(old(cntrBits).Without(INT_FLAG))
      ensures done == if old(done) == UINT_MAX then UINT_MAX else old(done) + 1
      ensures var m := currMsg.value;
              && m.buf[..] == MsgContent(random, old(used), m, old(m.buf[..]))
              && used == old(used) + (if m.IsRead() then m.len else 0)
              && regs == old(regs) + MsgTail(old(cntrBits), m, old(m.buf[..]))
    {
      DataPhase();
      SendStop();
      ClearIrq();
    }

    /** The first half of dummy_i2c_send_start: the counters, the direction and the address. */
    method Address(m: Msg)
      modifies this`byteLeft, this`bytePos, this`dir, this`addr, this`xaddr, this`currMsg
      ensures byteLeft == m.len && bytePos == 0
      ensures currMsg == Some(m) && dir == m.Direction()
      ensures addr == WireAddr(m.addr, dir)
      ensures xaddr == if m.IsTenBit() then LowByte(m.addr) else 0
    {
      byteLeft := m.len;
      currMsg := Some(m);
      bytePos := 0;
      if m.IsRead() {
        dir := Rd;
      } else {
        dir := Wr;
      }
      addr := WireAddr(m.addr, dir);
      xaddr := if m.IsTenBit() then LowByte(m.addr) else 0;
    }

    /** Addresses the target, writes START and lets the interrupt routine run. */
    method SendStart(m: Msg)
      requires m.Fits()
      modifies this`byteLeft, this`bytePos, this`regs, this`used, this`done, this`cntrBits
      modifies this`dir, this`addr, this`xaddr, this`currMsg, m.buf
      ensures currMsg == Some(m) && dir == m.Direction()
      ensures addr == WireAddr(m.addr, dir)
      ensures xaddr == if m.IsTenBit() then LowByte(m.addr) else 0
      ensures byteLeft == UINT_MAX && bytePos == m.len && cntrBits == Shadow(old(cntrBits).Without(INT_FLAG))
      ensures done == if old(done) == UINT_MAX then UINT_MAX else old(done) + 1
      ensures m.buf[..] == MsgContent(random, old(used), m, old(m.buf[..]))
      ensures used == old(used) + (if m.IsRead() then m.len else 0)
      ensures regs == old(regs) + MsgRegs(old(cntrBits), m, old(m.buf[..]))
      ensures OnWire(old(cntrBits), m, old(m.buf[..]), regs[|old(regs)|..])
    {
      MsgOnWire(cntrBits, m, m.buf[..]);
      Address(m);
      Write(REG_CNTR, cntrBits.With(M_STA));
      Isr();
      ConcatAssoc(old(regs), [RegWrite(REG_CNTR, old(cntrBits).With(M_STA))],
                  MsgTail(old(cntrBits), m, old(m.buf[..])));
    }

    /** wait_for_completion_timeout: nothing else completes, so without a completion the time runs out. */
    method WaitForCompletion() returns (timeLeft: nat)
      requires done <= UINT_MAX
      modifies this`done
      ensures old(done) == 0 ==> timeLeft == 0 && done == 0
      ensures 0 < old(done) ==> timeLeft > 0 && done == if old(done) == UINT_MAX then UINT_MAX else old(done) - 1
    {
      if done == 0 {
        timeLeft := 0;
      } else {
        if done != UINT_MAX {
          done := done - 1;
        }
        timeLeft := if timeout == 0 then 1 else timeout;
      }
    }

    /** One round of dummy_i2c_do_msgs. */
    method DoMsg(m: Msg, ghost bufs: set<array<u8>>)
      requires Valid() && m.Fits() && m.buf in bufs
      modifies this`byteLeft, this`bytePos, this`regs, this`used, this`done, this`cntrBits
      modifies this`dir, this`addr, this`xaddr, this`currMsg, m.buf
      ensures Valid() && cntrBits == old(cntrBits)
      ensures done == 0 && byteLeft == UINT_MAX && bytePos == m.len
      ensures Abs(bufs) == Transfer(random, cntrBits, old(Abs(bufs)), m)
    {
      BusStaysUp(cntrBits);
      done := 0;
      SendStart(m);
      var timeLeft := WaitForCompletion();
      if timeLeft == 0 {
        assert false;  // so dummy_i2c_hw_init is not called again
      }
    }

    /** The i-th round: the buffers and the log become those of one more message. */
    method DoNext(i: nat, ghost bufs: set<array<u8>>, ghost before: Bus)
      requires Valid() && i < |msgs| && HoldsAll(before, msgs) && msgs[i].Fits() && msgs[i].buf in bufs
      requires Abs(bufs) == TransferAll(random, cntrBits, before, msgs[..i])
      modifies this`byteLeft, this`bytePos, this`regs, this`used, this`done, this`cntrBits
      modifies this`dir, this`addr, this`xaddr, this`currMsg, msgs[i].buf
      ensures Valid() && cntrBits == old(cntrBits)
      ensures done == 0 && byteLeft == UINT_MAX && bytePos == msgs[i].len
      ensures Abs(bufs) == TransferAll(random, cntrBits, before, msgs[..i + 1])
    {
      NextTransfer(random, cntrBits, before, msgs, i);
      DoMsg(msgs[i], bufs);
    }

    /** dummy_i2c_do_msgs. */
    method DoMsgs(ghost bufs: set<array<u8>>)
      requires Valid() && numMsgs <= |msgs| && forall m | m in msgs :: m.Fits() && m.buf in bufs
      modifies this`byteLeft, this`bytePos, this`regs, this`used, this`done, this`cntrBits
      modifies this`dir, this`addr, this`xaddr, this`currMsg, bufs
      ensures Valid() && cntrBits == old(cntrBits)
      ensures 0 < numMsgs ==> done == 0 && byteLeft == UINT_MAX && bytePos == msgs[numMsgs - 1].len
      ensures HoldsAll(old(Abs(bufs)), msgs)
      ensures Abs(bufs) ==
              TransferAll(random, cntrBits, old(Abs(bufs)), msgs[..if numMsgs < 0 then 0 else numMsgs])
    {
      ghost var before := Abs(bufs);
      MessagesHeld(bufs, before, msgs);
      var i := 0;
      while i < numMsgs
        invariant 0 <= i && (i <= numMsgs || i == 0)
        invariant Valid() && cntrBits == old(cntrBits)
        invariant 0 < i ==> done == 0 && byteLeft == UINT_MAX && bytePos == msgs[i - 1].len
        invariant Abs(bufs) == TransferAll(random, cntrBits, before, msgs[..i])
      {
        assert msgs[i] in msgs;
        DoNext(i, bufs, before);
        i := i + 1;
      }
    }

    /** dummy_i2c_xfer: for any list of messages, the buffers, the register log and the random bytes used are those
        of the messages one after the other; the reset after a timeout never runs. */
    method Xfer(msgs: seq<Msg>, num: int) returns (r: int)
      requires Valid() && num <= |msgs| && forall m | m in msgs :: m.Fits()
      modifies this, set m | m in msgs :: m.buf
      ensures Valid() && r == num && cntrBits == old(cntrBits)
      ensures 0 < num ==> done == 0 && byteLeft == UINT_MAX && bytePos == msgs[num - 1].len
      ensures var bufs := set m | m in msgs :: m.buf;
              && HoldsAll(old(Abs(bufs)), msgs)
              && Abs(bufs) == TransferAll(random, cntrBits, old(Abs(bufs)), msgs[..if num < 0 then 0 else num])
              && forall k | 0 <= k < num :: KthOnWire(random, cntrBits, old(Abs(bufs)), msgs, k, regs)
    {
      ghost var bufs := set m | m in msgs :: m.buf;
      this.numMsgs := num;
      this.msgs := msgs;
      ghost var before := Abs(bufs);
      DoMsgs(bufs);
      FirstOnWire(random, cntrBits, before, msgs, if num < 0 then 0 else num);
      r := num;
    }
  }

  /** A state that has the contents of all the buffers holds every message. */
  lemma MessagesHeld(bufs: set<array<u8>>, b: Bus, msgs: seq<Msg>)
    requires forall m | m in msgs :: m.Fits() && m.buf in bufs
    requires forall k | k in bufs :: k in b.store && |b.store[k]| == k.Length
    ensures HoldsAll(b, msgs)
  {
    forall i | 0 <= i < |msgs|
      ensures Holds(b, msgs[i])
    {
      assert msgs[i] in msgs;
    }
  }

  // ---------------------------------------------------------------- what a transfer means

  /** The bytes that the reads among the messages take from the random stream. */
  function ReadBytes(msgs: seq<Msg>): nat {
    if msgs == [] then 0
    else
      var m := msgs[|msgs| - 1];
      ReadBytes(msgs[..|msgs| - 1]) + if m.IsRead() then m.len else 0
  }

  /** The register writes of a list of messages whose buffers hold what `store` says. */
  function AllRegs(c: Shadow, store: map<array<u8>, seq<u8>>, msgs: seq<Msg>): seq<RegWrite>
    requires forall i | 0 <= i < |msgs| :: msgs[i].buf in store && msgs[i].len <= |store[msgs[i].buf]|
  {
    if msgs == [] then []
    else
      var m := msgs[|msgs| - 1];
      AllRegs(c, store, msgs[..|msgs| - 1]) + MsgRegs(c, m, store[m.buf])
  }

  /** A buffer that no read message names keeps its contents. */
  lemma {:induction false} OthersKeep(random: nat -> u8, c: Shadow, b: Bus, msgs: seq<Msg>, k: array<u8>)
    requires HoldsAll(b, msgs)
    requires k in b.store && forall m | m in msgs :: m.buf == k ==> !m.IsRead()
    ensures TransferAll(random, c, b, msgs).store[k] == b.store[k]
  {
    if msgs == [] {
    } else {
      OthersKeep(random, c, b, msgs[..|msgs| - 1], k);
    }
  }

  lemma {:induction false} UsedBytes(random: nat -> u8, c: Shadow, b: Bus, msgs: seq<Msg>)
    requires HoldsAll(b, msgs)
    ensures TransferAll(random, c, b, msgs).used == b.used + ReadBytes(msgs)
  {
    if msgs == [] {
    } else {
      UsedBytes(random, c, b, msgs[..|msgs| - 1]);
    }
  }

  predicate OwnBuffers(msgs: seq<Msg>) {
    forall i, j | 0 <= i < j < |msgs| :: msgs[i].buf != msgs[j].buf
  }

  /** The last message finds its buffer as it was before the call, and touches no other message's. */
  lemma LastTransfer(random: nat -> u8, c: Shadow, b: Bus, msgs: seq<Msg>)
    requires HoldsAll(b, msgs) && OwnBuffers(msgs) && msgs != []
    ensures var m, front := msgs[|msgs| - 1], msgs[..|msgs| - 1];
            var mid, r := TransferAll(random, c, b, front), TransferAll(random, c, b, msgs);
            && Holds(b, m) && SameShape(b, mid) && SameShape(b, r)
            && r.regs == mid.regs + MsgRegs(c, m, b.store[m.buf])
            && r.store[m.buf] == MsgContent(random, mid.used, m, b.store[m.buf])
            && forall k | k in b.store && k != m.buf :: r.store[k] == mid.store[k]
  {
    var m, front := msgs[|msgs| - 1], msgs[..|msgs| - 1];
    assert Holds(b, m);
    OthersKeep(random, c, b, front, m.buf);
  }

  /** With a buffer of its own for every message, each write sends what its buffer held before the call, and the
      register log is the concatenation, in order, of the messages' own. */
  lemma {:induction false} LogOfOwnBuffers(random: nat -> u8, c: Shadow, b: Bus, msgs: seq<Msg>)
    requires HoldsAll(b, msgs) && OwnBuffers(msgs)
    ensures TransferAll(random, c, b, msgs).regs == b.regs + AllRegs(c, b.store, msgs)
  {
    if msgs == [] {
    } else {
      var m, front := msgs[|msgs| - 1], msgs[..|msgs| - 1];
      LogOfOwnBuffers(random, c, b, front);
      LastTransfer(random, c, b, msgs);
      ConcatAssoc(b.regs, AllRegs(c, b.store, front), MsgRegs(c, m, b.store[m.buf]));
    }
  }

  lemma {:induction false} LaterKeep(random: nat -> u8, c: Shadow, b: Bus, msgs: seq<Msg>, i: nat)
    requires HoldsAll(b, msgs) && OwnBuffers(msgs) && i < |msgs|
    ensures Holds(b, msgs[i])
    ensures TransferAll(random, c, b, msgs).store[msgs[i].buf] ==
            TransferAll(random, c, b, msgs[..i + 1]).store[msgs[i].buf]
  {
    assert Holds(b, msgs[i]);
    if i == |msgs| - 1 {
      assert msgs[..i + 1] == msgs;
    } else {
      var front, m := msgs[..|msgs| - 1], msgs[i];
      LaterKeep(random, c, b, front, i);
      assert front[..i + 1] == msgs[..i + 1] && front[i] == m;
      assert m.buf != msgs[|msgs| - 1].buf;
      LastTransfer(random, c, b, msgs);
    }
  }

  /** With a buffer of its own for every message, a write leaves its buffer unchanged and a read fills exactly the
      first `len` bytes with the bytes of the stream that follow those of the reads before it. */
  lemma ContentOfOwnBuffers(random: nat -> u8, c: Shadow, b: Bus, msgs: seq<Msg>, i: nat)
    requires HoldsAll(b, msgs) && OwnBuffers(msgs) && i < |msgs|
    ensures Holds(b, msgs[i])
    ensures TransferAll(random, c, b, msgs).store[msgs[i].buf] ==
            MsgContent(random, b.used + ReadBytes(msgs[..i]), msgs[i], b.store[msgs[i].buf])
  {
    var upTo, front := msgs[..i + 1], msgs[..i];
    assert HoldsAll(b, upTo) && OwnBuffers(upTo) && upTo[..|upTo| - 1] == front && upTo[|upTo| - 1] == msgs[i];
    LaterKeep(random, c, b, msgs, i);
    LastTransfer(random, c, b, upTo);
    UsedBytes(random, c, b, front);
    var m, used := msgs[i], TransferAll(random, c, b, front).used;
    assert TransferAll(random, c, b, upTo).store[m.buf] == MsgContent(random, used, m, b.store[m.buf]);
    assert used == b.used + ReadBytes(front);
  }

  /** The control-register writes of a log, in order. */
  function ControlWrites(regs: seq<RegWrite>): seq<u32> {
    if regs == [] then []
    else
      var w := regs[|regs| - 1];
      ControlWrites(regs[..|regs| - 1]) + if w.reg == REG_CNTR then [w.value] else []
  }

  lemma {:induction false} ControlWritesConcat(a: seq<RegWrite>, b: seq<RegWrite>)
    ensures ControlWrites(a + b) == ControlWrites(a) + ControlWrites(b)
  {
    if b == [] {
      assert a + b == a;
    } else {
      ControlWritesConcat(a, b[..|b| - 1]);
      assert (a + b)[..|a + b| - 1] == a + b[..|b| - 1];
    }
  }

  lemma {:induction false} DataIsNoControl(bytes: seq<u8>)
    ensures ControlWrites(DataWrites(bytes)) == []
  {
    if bytes == [] {
    } else {
      DataIsNoControl(bytes[..|bytes| - 1]);
      assert DataWrites(bytes)[..|bytes| - 1] == DataWrites(bytes[..|bytes| - 1]);
    }
  }

  /** START, STOP, and the interrupt flag cleared. */
  function Round(c: Shadow): seq<u32> {
    [c.With(M_STA), c.With(M_STP), c.bits]
  }

  lemma MsgControl(c: Shadow, m: Msg, content: seq<u8>)
    requires m.len <= |content| && c.Up()
    ensures ControlWrites(MsgRegs(c, m, content)) == Round(c)
  {
    var data := MsgData(m, content);
    DataIsNoControl(content[..m.len]);
    BusStaysUp(c);
    var sta, stp := RegWrite(REG_CNTR, c.With(M_STA)), RegWrite(REG_CNTR, c.With(M_STP));
    var clr := RegWrite(REG_CNTR, c.bits);
    assert [stp, clr] == [stp] + [clr];
    ControlWritesConcat([stp], [clr]);
    ControlWritesConcat(data, [stp, clr]);
    ControlWritesConcat([sta], data + [stp, clr]);
  }

  function Rounds(c: Shadow, n: nat): seq<u32> {
    if n == 0 then [] else Rounds(c, n - 1) + Round(c)
  }

  /** On the bus, whatever buffers the messages share, every message is one START, one STOP and one cleared
      interrupt, in that order, and between messages the control register rests at the shadow value. */
  lemma {:induction false} StartsAndStopsAlternate(random: nat -> u8, c: Shadow, b: Bus, msgs: seq<Msg>)
    requires c.Up() && HoldsAll(b, msgs)
    ensures ControlWrites(TransferAll(random, c, b, msgs).regs) == ControlWrites(b.regs) + Rounds(c, |msgs|)
  {
    if msgs == [] {
    } else {
      var m := msgs[|msgs| - 1];
      var mid := TransferAll(random, c, b, msgs[..|msgs| - 1]);
      StartsAndStopsAlternate(random, c, b, msgs[..|msgs| - 1]);
      assert Holds(b, m) && Holds(mid, m);
      ControlWritesConcat(mid.regs, MsgRegs(c, m, mid.store[m.buf]));
      MsgControl(c, m, mid.store[m.buf]);
      ConcatAssoc(ControlWrites(b.regs), Rounds(c, |msgs| - 1), Round(c));
    }
  }
}
