/** The programmable interval timer: programming channel 0 for 100 Hz and
    the tick counter that the timer interrupt advances.

    `Pit` holds the counter (`TIMER_TICKS`, an `AtomicU64`) and the log of
    the three port writes `init` makes. */
module Timer {
  import opened Base

  /** Input clock of the PIT, in Hz. */
  const PIT_INPUT_HZ: nat := 1193182
  const TIMER_HZ: nat := 100

  const PIT_COMMAND: u16 := 0x43
  const PIT_CHANNEL0: u16 := 0x40
  /** Channel 0, low byte then high byte, mode 3 (square wave), binary. */
  const PIT_MODE: byte := 0x36

  /** `(1193182 / TIMER_HZ) as u16`: the reload value, truncated to 16
      bits by the cast (it fits, so nothing is lost). */
  function Divisor(): (d: u16)
    ensures d == 11931 == 0x2E9B
    ensures d == PIT_INPUT_HZ / TIMER_HZ
  {
    (PIT_INPUT_HZ / TIMER_HZ) % U16_LIMIT
  }

  /** The writes `init` makes, in order: the mode command, then the reload
      value's low and high bytes. */
  function InitWrites(): (w: seq<PortWrite>)
    ensures |w| == 3
    ensures w[0] == PortWrite(PIT_COMMAND, PIT_MODE)
    ensures w[1].port == PIT_CHANNEL0 && w[2].port == PIT_CHANNEL0
    ensures w[2].value * 256 + w[1].value == Divisor()
  {
    [PortWrite(PIT_COMMAND, PIT_MODE),
     PortWrite(PIT_CHANNEL0, LowByte(Divisor())),
     PortWrite(PIT_CHANNEL0, HighByte(Divisor()))]
  }

  /** The three writes are 0x43 <- 0x36, 0x40 <- 0x9B, 0x40 <- 0x2E. */
  lemma InitWriteValues()
    ensures InitWrites() == [PortWrite(0x43, 0x36), PortWrite(0x40, 0x9B), PortWrite(0x40, 0x2E)]
  {
  }

  /** The fields of a PIT mode/command byte. */
  datatype ModeCommand = ModeCommand(channel: nat, access: nat, mode: nat, bcd: bool)

  function DecodeCommand(b: byte): ModeCommand
  {
    ModeCommand(b / 64, (b / 16) % 4, (b / 2) % 8, b % 2 == 1)
  }

  /** Access mode 3 is "low byte, then high byte". */
  const ACCESS_LOHI: nat := 3

  /** A reference model of channel 0: after a command selecting low/high
      access, the next data write is latched as the low byte and the one
      after completes the reload value. */
  datatype Channel0 = Channel0(command: Option<ModeCommand>, low: Option<byte>, reload: Option<nat>)

  function PitRun(c: Channel0, ws: seq<PortWrite>): Channel0
    decreases |ws|
  {
    if ws == [] then c
    else
      var w := ws[0];
      var c1 :=
        if w.port == PIT_COMMAND then Channel0(Some(DecodeCommand(w.value)), None, c.reload)
        else if w.port == PIT_CHANNEL0 && c.command.Some? && c.command.value.access == ACCESS_LOHI then
          if c.low.None? then c.(low := Some(w.value))
          else c.(low := None, reload := Some(w.value * 256 + c.low.value))
        else c;
      PitRun(c1, ws[1..])
  }

  /** `init` programs channel 0 in mode 3 (square wave), binary counting,
      with reload value 11931, so the output runs at 1193182 / 11931 =
      100 interrupts per second. */
  lemma InitProgramsHundredHz(c: Channel0)
    ensures var r := PitRun(c, InitWrites());
      && r.command == Some(ModeCommand(0, ACCESS_LOHI, 3, false))
      && r.reload == Some(Divisor())
      && PIT_INPUT_HZ / r.reload.value == TIMER_HZ
  {
    var ws := InitWrites();
    var m := ModeCommand(0, ACCESS_LOHI, 3, false);
    assert DecodeCommand(PIT_MODE) == m;
    var c1 := Channel0(Some(m), None, c.reload);
    var c2 := c1.(low := Some(0x9B));
    var c3 := c2.(low := None, reload := Some(0x2E * 256 + 0x9B));
    assert ws[1..][1..] == ws[2..] && ws[2..][1..] == [];
    assert PitRun(c, ws) == PitRun(c1, ws[1..]);
    assert PitRun(c1, ws[1..]) == PitRun(c2, ws[2..]);
    assert PitRun(c2, ws[2..]) == c3;
  }

  /** `fetch_add(1)` on the `u64` counter, which wraps at 2^64. */
  function TickSpec(t: u64): (r: u64)
    ensures t < U64_LIMIT - 1 ==> r == t + 1
    ensures t == U64_LIMIT - 1 ==> r == 0
  {
    (t + 1) % U64_LIMIT
  }

  /** The counter after `n` ticks from boot. */
  function TicksAfter(n: nat): u64
  {
    if n == 0 then 0 else TickSpec(TicksAfter(n - 1))
  }

  /** Below 2^64 ticks the counter is exactly the number of ticks. */
  lemma {:induction false} TicksCountExactly(n: nat)
    requires n < U64_LIMIT
    ensures TicksAfter(n) == n
  {
    if n > 0 {
      TicksCountExactly(n - 1);
    }
  }

  /** So, short of wrapping, the counter only ever grows. */
  lemma TicksMonotone(n: nat, m: nat)
    requires n <= m < U64_LIMIT
    ensures TicksAfter(n) <= TicksAfter(m)
  {
    TicksCountExactly(n);
    TicksCountExactly(m);
  }

  /** `uptime_seconds`: whole seconds elapsed, rounded down. */
  function UptimeSeconds(ticks: u64): (s: u64)
    ensures s * TIMER_HZ <= ticks < (s + 1) * TIMER_HZ
  {
    ticks / TIMER_HZ
  }

  /** Uptime never goes backwards as ticks accumulate, and one tick adds
      at most one second. */
  lemma UptimeMonotone(t1: u64, t2: u64)
    requires t1 <= t2
    ensures UptimeSeconds(t1) <= UptimeSeconds(t2)
    ensures t2 <= t1 + 1 ==> UptimeSeconds(t2) <= UptimeSeconds(t1) + 1
  {
  }

  /** The timer's state: the tick counter and the ports it has written. */
  class Pit {
    var ticks: u64
    var ports: seq<PortWrite>

    constructor ()
      ensures ticks == 0 && ports == []
    {
      ticks := 0;
      ports := [];
    }

    method Init()
      modifies this
      ensures ports == old(ports) + InitWrites()
      ensures ticks == old(ticks)
    {
      var divisor: u16 := (PIT_INPUT_HZ / TIMER_HZ) % U16_LIMIT;
      ports := ports + [PortWrite(PIT_COMMAND, PIT_MODE)];
      ports := ports + [PortWrite(PIT_CHANNEL0, divisor % 256)];
      ports := ports + [PortWrite(PIT_CHANNEL0, (divisor / 256) % 256)];
    }

    method Tick()
      modifies this
      ensures ticks == TickSpec(old(ticks))
      ensures ports == old(ports)
    {
      ticks := (ticks + 1) % U64_LIMIT;
    }

    method Uptime() returns (s: u64)
      ensures s == UptimeSeconds(ticks)
    {
      s := ticks / TIMER_HZ;
    }
  }
}
