/** The interrupt-to-task keyboard bridge: two bounded byte queues (PS/2
    and USB), one waker slot per queue, the `USB_ACTIVE` arbitration flag,
    the merged consumer poll, and the line editor built on it.

    The statics are the fields of `KeyboardBridge`; each of its methods is
    tied to a step function on the value `BridgeState`, and the lemmas
    below are about those step functions and about whole runs of them.
    Kernel panics are the outcomes `QueueFull` and `QueueUninitialized`,
    after which the state is left as it was. */
module Keyboard {
  import opened Base

  /** Capacity of each `ArrayQueue`. */
  const QUEUE_CAPACITY: nat := 100

  /** The task a `Context`'s waker would resume. */
  type TaskId = nat

  /** A snapshot of the bridge's statics.  A queue is `None` until
      `init_keyboard_stream` has run; a waker slot holds the last task that
      registered on it, until a wake takes it out; `woken` records, in
      order, every task a producer has woken. */
  datatype BridgeState = BridgeState(
    ps2: Option<seq<byte>>,
    usb: Option<seq<byte>>,
    ps2Waker: Option<TaskId>,
    usbWaker: Option<TaskId>,
    usbActive: bool,
    woken: seq<TaskId>)

  /** How a producer call ends: the byte was ignored by arbitration, it
      only switched the USB flag on, it was queued, or the kernel panics
      because the queue is full or was never initialised. */
  datatype PushOutcome = Ignored | Activated | Queued | QueueFull | QueueUninitialized

  datatype PushResult = PushResult(outcome: PushOutcome, state: BridgeState)

  /** `Poll<Option<u8>>` of the merged stream; it never ends, so the only
      ready value is a byte. */
  datatype Poll = Ready(byte: byte) | Pending

  datatype PollResult = PollResult(poll: Poll, state: BridgeState)

  predicate IsFatal(o: PushOutcome)
  {
    o == QueueFull || o == QueueUninitialized
  }

  /** The statics before anything runs; `USB_ACTIVE` starts as
      `usbActiveAtBoot`, which is `true` in the kernel. */
  function Boot(usbActiveAtBoot: bool): BridgeState
  {
    BridgeState(None, None, None, None, usbActiveAtBoot, [])
  }

  /** `try_init_once(|| ArrayQueue::new(100))` on one queue. */
  function InitQueue(q: Option<seq<byte>>): Option<seq<byte>>
  {
    if q.None? then Some([]) else q
  }

  /** `init_keyboard_stream`. */
  function InitStream(s: BridgeState): (r: BridgeState)
    ensures r.ps2.Some? && r.usb.Some?
    ensures r.ps2 == if s.ps2.Some? then s.ps2 else Some([])
    ensures r.usb == if s.usb.Some? then s.usb else Some([])
    ensures r.(ps2 := s.ps2, usb := s.usb) == s
  {
    s.(ps2 := InitQueue(s.ps2), usb := InitQueue(s.usb))
  }

  /** `AtomicWaker::wake`: takes the registered task out of the slot, if
      any, and wakes it. */
  function Wake(slot: Option<TaskId>, woken: seq<TaskId>): (Option<TaskId>, seq<TaskId>)
  {
    if slot.Some? then (None, woken + [slot.value]) else (None, woken)
  }

  /** `add_ps2_scancode`: discarded while the USB flag is set. */
  function AddPs2(s: BridgeState, b: byte): (r: PushResult)
    ensures r.outcome == Ignored <==> s.usbActive
    ensures r.outcome != Queued ==> r.state == s
    ensures r.outcome == Queued <==>
      !s.usbActive && s.ps2.Some? && |s.ps2.value| < QUEUE_CAPACITY
    ensures r.state.usb == s.usb && r.state.usbWaker == s.usbWaker
    ensures r.state.usbActive == s.usbActive
  {
    if s.usbActive then PushResult(Ignored, s)
    else if s.ps2.None? then PushResult(QueueUninitialized, s)
    else if |s.ps2.value| >= QUEUE_CAPACITY then PushResult(QueueFull, s)
    else
      var (slot, woken) := Wake(s.ps2Waker, s.woken);
      PushResult(Queued, s.(ps2 := Some(s.ps2.value + [b]), ps2Waker := slot, woken := woken))
  }

  /** `add_usb_scancode`: the first byte seen while the flag is clear only
      sets it. */
  function AddUsb(s: BridgeState, b: byte): (r: PushResult)
    ensures r.outcome == Activated <==> !s.usbActive
    ensures r.state.usbActive
    ensures IsFatal(r.outcome) ==> r.state == s
    ensures r.outcome == Queued <==>
      s.usbActive && s.usb.Some? && |s.usb.value| < QUEUE_CAPACITY
    ensures r.state.ps2 == s.ps2 && r.state.ps2Waker == s.ps2Waker
  {
    if !s.usbActive then PushResult(Activated, s.(usbActive := true))
    else if s.usb.None? then PushResult(QueueUninitialized, s)
    else if |s.usb.value| >= QUEUE_CAPACITY then PushResult(QueueFull, s)
    else
      var (slot, woken) := Wake(s.usbWaker, s.woken);
      PushResult(Queued, s.(usb := Some(s.usb.value + [b]), usbWaker := slot, woken := woken))
  }

  /** `CombinedStream::poll_next` with a context whose waker resumes
      `task`: PS/2 first, then USB; an empty initialised queue gets the
      waker registered (replacing whatever was there). */
  function PollNext(s: BridgeState, task: TaskId): (r: PollResult)
    ensures r.state.usbActive == s.usbActive && r.state.woken == s.woken
    ensures r.poll.Pending? ==> r.state.ps2 == s.ps2 && r.state.usb == s.usb
  {
    if s.ps2.Some? && s.ps2.value != [] then
      PollResult(Ready(s.ps2.value[0]), s.(ps2 := Some(s.ps2.value[1..])))
    else
      var s1 := if s.ps2.Some? then s.(ps2Waker := Some(task)) else s;
      if s1.usb.Some? && s1.usb.value != [] then
        PollResult(Ready(s1.usb.value[0]), s1.(usb := Some(s1.usb.value[1..])))
      else
        PollResult(Pending, if s1.usb.Some? then s1.(usbWaker := Some(task)) else s1)
  }

  // ---------------------------------------------------------------------
  // Properties of single calls
  // ---------------------------------------------------------------------

  /** The stream initialisation runs at most once in effect: a second call
      changes nothing, and a queue that already exists keeps its bytes. */
  lemma InitStreamIdempotent(s: BridgeState)
    ensures InitStream(InitStream(s)) == InitStream(s)
    ensures InitStream(s).ps2.Some? && InitStream(s).usb.Some?
    ensures s.ps2.Some? ==> InitStream(s).ps2 == s.ps2
    ensures s.usb.Some? ==> InitStream(s).usb == s.usb
    ensures InitStream(s).(ps2 := s.ps2, usb := s.usb) == s
  {
  }

  /** While the USB flag is set a PS/2 byte changes nothing at all: no
      queue push and no wake. */
  lemma Ps2IgnoredWhileUsbActive(s: BridgeState, b: byte)
    requires s.usbActive
    ensures AddPs2(s, b) == PushResult(Ignored, s)
  {
  }

  /** A push that reaches a queue: it panics on a full or missing queue and
      changes nothing; otherwise the byte goes to the back, the length grows
      by one, and the task registered on that queue (if any) is woken. */
  lemma PushContract(s: BridgeState, b: byte)
    ensures var r := AddPs2(s, b);
      !s.usbActive ==>
        && (s.ps2.None? ==> r == PushResult(QueueUninitialized, s))
        && (s.ps2.Some? && |s.ps2.value| == QUEUE_CAPACITY ==> r == PushResult(QueueFull, s))
        && (s.ps2.Some? && |s.ps2.value| < QUEUE_CAPACITY ==>
              && r.outcome == Queued
              && r.state.ps2 == Some(s.ps2.value + [b])
              && |r.state.ps2.value| == |s.ps2.value| + 1
              && r.state.ps2Waker.None?
              && r.state.woken == s.woken + (if s.ps2Waker.Some? then [s.ps2Waker.value] else [])
              && r.state.(ps2 := s.ps2, ps2Waker := s.ps2Waker, woken := s.woken) == s)
    ensures var r := AddUsb(s, b);
      s.usbActive ==>
        && (s.usb.None? ==> r == PushResult(QueueUninitialized, s))
        && (s.usb.Some? && |s.usb.value| == QUEUE_CAPACITY ==> r == PushResult(QueueFull, s))
        && (s.usb.Some? && |s.usb.value| < QUEUE_CAPACITY ==>
              && r.outcome == Queued
              && r.state.usb == Some(s.usb.value + [b])
              && |r.state.usb.value| == |s.usb.value| + 1
              && r.state.usbWaker.None?
              && r.state.woken == s.woken + (if s.usbWaker.Some? then [s.usbWaker.value] else [])
              && r.state.(usb := s.usb, usbWaker := s.usbWaker, woken := s.woken) == s)
  {
  }

  /** The USB arbitration: while the flag is clear a USB byte only sets it
      and enqueues nothing. */
  lemma UsbByteWhileInactiveOnlyActivates(s: BridgeState, b: byte)
    requires !s.usbActive
    ensures AddUsb(s, b) == PushResult(Activated, s.(usbActive := true))
  {
  }

  /** The PS/2 queue wins whenever it holds a byte: its front is returned,
      it loses exactly that byte, and nothing else changes (in particular
      the USB queue). */
  lemma PollPrefersPs2(s: BridgeState, task: TaskId)
    requires s.ps2.Some? && s.ps2.value != []
    ensures PollNext(s, task) == PollResult(Ready(s.ps2.value[0]), s.(ps2 := Some(s.ps2.value[1..])))
  {
  }

  /** The poll is pending exactly when every initialised queue is empty;
      then it has registered the task on each initialised queue and
      changed nothing else.  A ready poll returns the front of the PS/2
      queue, or else the front of the USB queue, removing it. */
  lemma PollContract(s: BridgeState, task: TaskId)
    ensures var r := PollNext(s, task);
      && (r.poll.Pending? <==> (s.ps2.None? || s.ps2.value == []) && (s.usb.None? || s.usb.value == []))
      && (r.poll.Pending? ==>
            r.state == s.(ps2Waker := if s.ps2.Some? then Some(task) else s.ps2Waker,
                          usbWaker := if s.usb.Some? then Some(task) else s.usbWaker))
      && (r.poll.Ready? && !(s.ps2.Some? && s.ps2.value != []) ==>
            && s.usb.Some? && s.usb.value != []
            && r.poll.byte == s.usb.value[0]
            && r.state == s.(usb := Some(s.usb.value[1..]),
                             ps2Waker := if s.ps2.Some? then Some(task) else s.ps2Waker))
      && r.state.usbActive == s.usbActive && r.state.woken == s.woken
  {
  }

  // ---------------------------------------------------------------------
  // Whole runs
  // ---------------------------------------------------------------------

  /** What can happen to the bridge: the init call, a byte from either
      interrupt source, or a poll by the consuming task. */
  datatype Event = InitEvent | Ps2Irq(b: byte) | UsbIrq(b: byte) | PollEvent(task: TaskId)

  /** The state after one event, the bytes it delivers to the consumer,
      and whether it made the kernel panic. */
  datatype Effect = Effect(state: BridgeState, delivered: seq<byte>, fatal: bool)

  /** A run either ends with the final state and everything the consumer
      received, or is cut short by a kernel panic. */
  datatype RunResult = Halted | Finished(state: BridgeState, delivered: seq<byte>)

  function Apply(s: BridgeState, e: Event): Effect
  {
    match e
    case InitEvent => Effect(InitStream(s), [], false)
    case Ps2Irq(b) => var r := AddPs2(s, b); Effect(r.state, [], IsFatal(r.outcome))
    case UsbIrq(b) => var r := AddUsb(s, b); Effect(r.state, [], IsFatal(r.outcome))
    case PollEvent(t) =>
      var r := PollNext(s, t);
      Effect(r.state, if r.poll.Ready? then [r.poll.byte] else [], false)
  }

  /** Bytes delivered before the rest of a run. */
  function Prepend(d: seq<byte>, r: RunResult): RunResult
  {
    if r.Halted? then Halted else Finished(r.state, d + r.delivered)
  }

  function Run(s: BridgeState, evs: seq<Event>): RunResult
    decreases |evs|
  {
    if evs == [] then Finished(s, [])
    else
      var eff := Apply(s, evs[0]);
      if eff.fatal then Halted else Prepend(eff.delivered, Run(eff.state, evs[1..]))
  }

  /** Running `xs` and then, from where it ended, `ys`. */
  function Then(r: RunResult, ys: seq<Event>): RunResult
  {
    if r.Halted? then Halted else Prepend(r.delivered, Run(r.state, ys))
  }

  /** Running two batches of events one after the other is running their
      concatenation. */
  lemma {:induction false} RunAppend(s: BridgeState, xs: seq<Event>, ys: seq<Event>)
    ensures Run(s, xs + ys) == Then(Run(s, xs), ys)
    decreases |xs|
  {
    if xs == [] {
      assert xs + ys == ys;
      var r := Run(s, ys);
      if r.Finished? {
        assert [] + r.delivered == r.delivered;
      }
    } else {
      assert (xs + ys)[0] == xs[0] && (xs + ys)[1..] == xs[1..] + ys;
      var eff := Apply(s, xs[0]);
      if !eff.fatal {
        RunAppend(eff.state, xs[1..], ys);
        var m := Run(eff.state, xs[1..]);
        if m.Finished? {
          var f := Run(m.state, ys);
          if f.Finished? {
            assert eff.delivered + (m.delivered + f.delivered) == (eff.delivered + m.delivered) + f.delivered;
          }
        }
      }
    }
  }

  /** The bytes the USB source produced during a run. */
  function UsbBytes(evs: seq<Event>): seq<byte>
    decreases |evs|
  {
    if evs == [] then [] else UsbOf(evs[0]) + UsbBytes(evs[1..])
  }

  predicate Ps2Empty(s: BridgeState)
  {
    s.ps2.None? || s.ps2.value == []
  }

  /** The bytes one event contributes to the USB source. */
  function UsbOf(e: Event): seq<byte>
  {
    if e.UsbIrq? then [e.b] else []
  }

  /** The state shape the kernel is in once the USB flag is set. */
  predicate UsbMode(s: BridgeState)
  {
    s.usbActive && s.usb.Some? && Ps2Empty(s)
  }

  /** One event in USB mode keeps the mode, and the USB queue behaves as a
      FIFO: delivered bytes come off its front, produced bytes go on its
      back. */
  lemma UsbModeStep(s: BridgeState, e: Event)
    requires UsbMode(s)
    ensures var eff := Apply(s, e);
      !eff.fatal ==>
        && UsbMode(eff.state)
        && eff.delivered + eff.state.usb.value == s.usb.value + UsbOf(e)
  {
    match e
    case InitEvent =>
    case Ps2Irq(b) =>
    case UsbIrq(b) =>
    case PollEvent(t) =>
      var r := PollNext(s, t);
      if r.poll.Ready? {
        assert s.usb.value == [r.poll.byte] + r.state.usb.value;
      }
  }

  /** Once the USB flag is set (as it is from boot in the kernel) it stays
      set, the PS/2 queue stays empty, and the consumer receives exactly the
      USB bytes in arrival order: what it has received followed by what is
      still queued is what was queued at the start followed by every USB
      byte produced since. */
  lemma {:induction false} ActiveRunIsUsbFifo(s: BridgeState, evs: seq<Event>)
    requires UsbMode(s)
    ensures Run(s, evs).Finished? ==>
      && UsbMode(Run(s, evs).state)
      && Run(s, evs).delivered + Run(s, evs).state.usb.value == s.usb.value + UsbBytes(evs)
    decreases |evs|
  {
    if evs != [] {
      var eff := Apply(s, evs[0]);
      UsbModeStep(s, evs[0]);
      if !eff.fatal {
        var rest := Run(eff.state, evs[1..]);
        ActiveRunIsUsbFifo(eff.state, evs[1..]);
        if rest.Finished? {
          assert Run(s, evs) == Finished(rest.state, eff.delivered + rest.delivered);
          assert UsbBytes(evs) == UsbOf(evs[0]) + UsbBytes(evs[1..]);
          SeqShuffle(eff.delivered, rest.delivered, rest.state.usb.value,
                     eff.state.usb.value, UsbBytes(evs[1..]), s.usb.value + UsbOf(evs[0]));
        }
      }
    }
  }

  /** The sequence algebra behind one step of the FIFO argument. */
  lemma SeqShuffle<T>(d: seq<T>, r: seq<T>, q: seq<T>, m: seq<T>, u: seq<T>, p: seq<T>)
    requires r + q == m + u
    requires d + m == p
    ensures (d + r) + q == p + u
  {
    calc {
      (d + r) + q;
      d + (r + q);
      d + (m + u);
      (d + m) + u;
    }
  }

  /** The bytes the PS/2 source produced during a run. */
  function Ps2Bytes(evs: seq<Event>): seq<byte>
    decreases |evs|
  {
    if evs == [] then [] else Ps2Of(evs[0]) + Ps2Bytes(evs[1..])
  }

  /** The bytes one event contributes to the PS/2 source. */
  function Ps2Of(e: Event): seq<byte>
  {
    if e.Ps2Irq? then [e.b] else []
  }

  /** The state shape of a kernel whose USB flag is clear and whose USB
      source has never produced a byte. */
  predicate Ps2Mode(s: BridgeState)
  {
    !s.usbActive && s.ps2.Some? && (s.usb.None? || s.usb.value == [])
  }

  /** One event other than a USB byte keeps the PS/2 mode, and the PS/2
      queue behaves as a FIFO. */
  lemma Ps2ModeStep(s: BridgeState, e: Event)
    requires Ps2Mode(s) && !e.UsbIrq?
    ensures var eff := Apply(s, e);
      !eff.fatal ==>
        && Ps2Mode(eff.state)
        && eff.delivered + eff.state.ps2.value == s.ps2.value + Ps2Of(e)
  {
    match e
    case InitEvent =>
    case Ps2Irq(b) =>
    case PollEvent(t) =>
      var r := PollNext(s, t);
      if r.poll.Ready? {
        assert s.ps2.value == [r.poll.byte] + r.state.ps2.value;
      }
  }

  /** While the USB source produces nothing and the flag is clear, the
      consumer receives exactly the PS/2 bytes in arrival order: what it
      has received followed by what is still queued is what was queued at
      the start followed by every PS/2 byte produced since. */
  lemma {:induction false} InactiveRunIsPs2Fifo(s: BridgeState, evs: seq<Event>)
    requires Ps2Mode(s)
    requires forall i :: 0 <= i < |evs| ==> !evs[i].UsbIrq?
    ensures Run(s, evs).Finished? ==>
      && Ps2Mode(Run(s, evs).state)
      && Run(s, evs).delivered + Run(s, evs).state.ps2.value == s.ps2.value + Ps2Bytes(evs)
    decreases |evs|
  {
    if evs != [] {
      var eff := Apply(s, evs[0]);
      Ps2ModeStep(s, evs[0]);
      if !eff.fatal {
        var rest := Run(eff.state, evs[1..]);
        assert forall i :: 0 <= i < |evs[1..]| ==> !evs[1..][i].UsbIrq? by {
          forall i | 0 <= i < |evs[1..]| ensures !evs[1..][i].UsbIrq? {
            assert evs[1..][i] == evs[i + 1];
          }
        }
        InactiveRunIsPs2Fifo(eff.state, evs[1..]);
        if rest.Finished? {
          assert Run(s, evs) == Finished(rest.state, eff.delivered + rest.delivered);
          assert Ps2Bytes(evs) == Ps2Of(evs[0]) + Ps2Bytes(evs[1..]);
          SeqShuffle(eff.delivered, rest.delivered, rest.state.ps2.value,
                     eff.state.ps2.value, Ps2Bytes(evs[1..]), s.ps2.value + Ps2Of(evs[0]));
        }
      }
    }
  }

  /** Neither queue ever holds more than its capacity. */
  predicate WithinCapacity(s: BridgeState)
  {
    && (s.ps2.Some? ==> |s.ps2.value| <= QUEUE_CAPACITY)
    && (s.usb.Some? ==> |s.usb.value| <= QUEUE_CAPACITY)
  }

  /** Every event that does not panic keeps both queues within capacity. */
  lemma ApplyWithinCapacity(s: BridgeState, e: Event)
    requires WithinCapacity(s)
    ensures !Apply(s, e).fatal ==> WithinCapacity(Apply(s, e).state)
  {
  }

  /** From any state within capacity, and so from boot whatever the
      initial `USB_ACTIVE`, a run that does not panic leaves both queues
      holding at most 100 bytes. */
  lemma {:induction false} RunWithinCapacity(s: BridgeState, evs: seq<Event>)
    requires WithinCapacity(s)
    ensures Run(s, evs).Finished? ==> WithinCapacity(Run(s, evs).state)
    decreases |evs|
  {
    if evs != [] {
      var eff := Apply(s, evs[0]);
      ApplyWithinCapacity(s, evs[0]);
      if !eff.fatal {
        RunWithinCapacity(eff.state, evs[1..]);
      }
    }
  }

  /** The bound holds at boot, for either initial flag. */
  lemma BootWithinCapacity(usbActiveAtBoot: bool, evs: seq<Event>)
    ensures Run(Boot(usbActiveAtBoot), evs).Finished? ==>
      WithinCapacity(Run(Boot(usbActiveAtBoot), evs).state)
  {
    RunWithinCapacity(Boot(usbActiveAtBoot), evs);
  }

  /** The kernel as written: after boot (`USB_ACTIVE` true) and the init
      call, no PS/2 byte ever reaches the consumer, and the bytes it does
      receive are the USB bytes, in order. */
  lemma AsWrittenDeliversOnlyUsb(evs: seq<Event>)
    ensures Run(InitStream(Boot(true)), evs).Finished? ==>
      && Run(InitStream(Boot(true)), evs).state.usb.Some?
      && Run(InitStream(Boot(true)), evs).delivered + Run(InitStream(Boot(true)), evs).state.usb.value == UsbBytes(evs)
  {
    ActiveRunIsUsbFifo(InitStream(Boot(true)), evs);
  }

  function Pushes(bs: seq<byte>): seq<Event>
  {
    if bs == [] then [] else [UsbIrq(bs[0])] + Pushes(bs[1..])
  }

  function Polls(n: nat, t: TaskId): seq<Event>
  {
    if n == 0 then [] else [PollEvent(t)] + Polls(n - 1, t)
  }

  /** Within capacity a batch of USB bytes is queued without a panic, in
      order, behind what was already there. */
  lemma {:induction false} PushesQueue(bs: seq<byte>, s: BridgeState)
    requires UsbMode(s)
    requires |s.usb.value| + |bs| <= QUEUE_CAPACITY
    ensures Run(s, Pushes(bs)).Finished?
    ensures UsbMode(Run(s, Pushes(bs)).state)
    ensures Run(s, Pushes(bs)).state.usb == Some(s.usb.value + bs)
    ensures Run(s, Pushes(bs)).delivered == []
    decreases |bs|
  {
    if bs == [] {
      assert s.usb.value + bs == s.usb.value;
    } else {
      var evs := Pushes(bs);
      assert evs[0] == UsbIrq(bs[0]) && evs[1..] == Pushes(bs[1..]);
      var eff := Apply(s, evs[0]);
      assert !eff.fatal && eff.delivered == [];
      assert eff.state.usb == Some(s.usb.value + [bs[0]]);
      PushesQueue(bs[1..], eff.state);
      var rest := Run(eff.state, Pushes(bs[1..]));
      assert Run(s, evs) == Finished(rest.state, [] + rest.delivered);
      assert s.usb.value + [bs[0]] + bs[1..] == s.usb.value + bs;
    }
  }

  /** As many polls as there are queued USB bytes hand all of them over. */
  lemma {:induction false} PollsDrain(s: BridgeState, t: TaskId)
    requires s.usb.Some? && Ps2Empty(s)
    ensures Run(s, Polls(|s.usb.value|, t)).Finished?
    ensures Run(s, Polls(|s.usb.value|, t)).delivered == s.usb.value
    decreases |s.usb.value|
  {
    var q := s.usb.value;
    if q != [] {
      var evs := Polls(|q|, t);
      assert evs[0] == PollEvent(t) && evs[1..] == Polls(|q| - 1, t);
      var r := PollNext(s, t);
      assert r.poll == Ready(q[0]) && r.state.usb == Some(q[1..]);
      PollsDrain(r.state, t);
      assert [q[0]] + q[1..] == q;
    }
  }

  /** FIFO within capacity: pushing up to 100 USB bytes and then polling as
      many times as there are bytes queued hands every one of them to the
      consumer, in push order, and nothing panics. */
  lemma UsbPushesThenPolls(bs: seq<byte>, s: BridgeState, t: TaskId)
    requires UsbMode(s)
    requires |s.usb.value| + |bs| <= QUEUE_CAPACITY
    ensures Run(s, Pushes(bs) + Polls(|s.usb.value| + |bs|, t)).Finished?
    ensures Run(s, Pushes(bs) + Polls(|s.usb.value| + |bs|, t)).delivered == s.usb.value + bs
  {
    PushesQueue(bs, s);
    var m := Run(s, Pushes(bs));
    PollsDrain(m.state, t);
    RunAppend(s, Pushes(bs), Polls(|s.usb.value| + |bs|, t));
    assert [] + m.state.usb.value == s.usb.value + bs;
  }

  /** A push onto a queue already holding 100 bytes panics. */
  lemma OverflowIsFatal(s: BridgeState, b: byte)
    requires s.usbActive && s.usb.Some? && |s.usb.value| == QUEUE_CAPACITY
    ensures Run(s, [UsbIrq(b)]).Halted?
  {
  }

  /** With the USB flag clear at boot, a PS/2 byte is visible to the next
      poll; a first USB byte is swallowed and from then on PS/2 bytes are
      ignored. */
  lemma InactiveBootExamples(t: TaskId)
    ensures Run(InitStream(Boot(false)), [Ps2Irq(0x1E), PollEvent(t)]) == Finished(InitStream(Boot(false)), [0x1E])
    ensures Run(InitStream(Boot(false)), [UsbIrq(0x2A), Ps2Irq(0x1E), PollEvent(t)]).Finished?
    ensures Run(InitStream(Boot(false)), [UsbIrq(0x2A), Ps2Irq(0x1E), PollEvent(t)]).delivered == []
  {
    var s := InitStream(Boot(false));
    assert s.ps2 == Some([]) && s.usb == Some([]) && !s.usbActive;
    var s1 := s.(ps2 := Some([0x1E]));
    assert s.ps2.value + [0x1E] == [0x1E];
    assert Apply(s, Ps2Irq(0x1E)) == Effect(s1, [], false);
    assert [0x1E][1..] == [];
    var e := Apply(s1, PollEvent(t));
    assert e.state == s && e.delivered == [0x1E] && !e.fatal;
    var evs := [Ps2Irq(0x1E), PollEvent(t)];
    assert evs[1..] == [PollEvent(t)] && evs[1..][1..] == [];
    assert Run(s1, evs[1..]) == Finished(s, [0x1E] + []);
    var a := s.(usbActive := true);
    assert Apply(s, UsbIrq(0x2A)) == Effect(a, [], false);
    assert Apply(a, Ps2Irq(0x1E)) == Effect(a, [], false);
    var a2 := PollNext(a, t).state;
    var e2 := Apply(a, PollEvent(t));
    assert e2.state == a2 && e2.delivered == [] && !e2.fatal;
    var evs2 := [UsbIrq(0x2A), Ps2Irq(0x1E), PollEvent(t)];
    assert evs2[1..] == evs && evs[1..] == [PollEvent(t)];
    assert Run(a, evs[1..]) == Finished(a2, [] + []);
    assert Run(a, evs) == Finished(a2, [] + []);
  }

  /** The bridge's statics.  Each method is one source function, stated as
      the step function above on the snapshot `State()`. */
  class KeyboardBridge {
    var ps2Queue: Option<seq<byte>>
    var usbQueue: Option<seq<byte>>
    var ps2Waker: Option<TaskId>
    var usbWaker: Option<TaskId>
    var usbActive: bool
    var woken: seq<TaskId>

    function State(): BridgeState
      reads this
    {
      BridgeState(ps2Queue, usbQueue, ps2Waker, usbWaker, usbActive, woken)
    }

    /** The statics as the kernel image holds them: no queues, empty waker
        slots, `USB_ACTIVE == usbActiveAtBoot`. */
    constructor (usbActiveAtBoot: bool)
      ensures State() == Boot(usbActiveAtBoot)
    {
      ps2Queue, usbQueue := None, None;
      ps2Waker, usbWaker := None, None;
      usbActive := usbActiveAtBoot;
      woken := [];
    }

    method InitKeyboardStream()
      modifies this
      ensures State() == InitStream(old(State()))
    {
      if ps2Queue.None? {
        ps2Queue := Some([]);
      }
      if usbQueue.None? {
        usbQueue := Some([]);
      }
    }

    method WakePs2()
      modifies this
      ensures (ps2Waker, woken) == Wake(old(ps2Waker), old(woken))
      ensures ps2Queue == old(ps2Queue) && usbQueue == old(usbQueue)
      ensures usbWaker == old(usbWaker) && usbActive == old(usbActive)
    {
      if ps2Waker.Some? {
        woken := woken + [ps2Waker.value];
        ps2Waker := None;
      }
    }

    method WakeUsb()
      modifies this
      ensures (usbWaker, woken) == Wake(old(usbWaker), old(woken))
      ensures ps2Queue == old(ps2Queue) && usbQueue == old(usbQueue)
      ensures ps2Waker == old(ps2Waker) && usbActive == old(usbActive)
    {
      if usbWaker.Some? {
        woken := woken + [usbWaker.value];
        usbWaker := None;
      }
    }

    method AddPs2Scancode(scancode: byte) returns (outcome: PushOutcome)
      modifies this
      ensures PushResult(outcome, State()) == AddPs2(old(State()), scancode)
    {
      if usbActive {
        return Ignored;
      }
      match ps2Queue {
        case None =>
          return QueueUninitialized;
        case Some(q) =>
          if |q| >= QUEUE_CAPACITY {
            return QueueFull;
          }
          ps2Queue := Some(q + [scancode]);
          WakePs2();
          return Queued;
      }
    }

    method AddUsbScancode(scancode: byte) returns (outcome: PushOutcome)
      modifies this
      ensures PushResult(outcome, State()) == AddUsb(old(State()), scancode)
    {
      if !usbActive {
        usbActive := true;
        return Activated;
      }
      match usbQueue {
        case None =>
          return QueueUninitialized;
        case Some(q) =>
          if |q| >= QUEUE_CAPACITY {
            return QueueFull;
          }
          usbQueue := Some(q + [scancode]);
          WakeUsb();
          return Queued;
      }
    }

    method PollNextByte(task: TaskId) returns (poll: Poll)
      modifies this
      ensures PollResult(poll, State()) == PollNext(old(State()), task)
    {
      if ps2Queue.Some? {
        var q := ps2Queue.value;
        if q != [] {
          ps2Queue := Some(q[1..]);
          return Ready(q[0]);
        }
        ps2Waker := Some(task);
      }
      if usbQueue.Some? {
        var q := usbQueue.value;
        if q != [] {
          usbQueue := Some(q[1..]);
          return Ready(q[0]);
        }
        usbWaker := Some(task);
      }
      return Pending;
    }
  }

  // ---------------------------------------------------------------------
  // The line editor of `get_line`
  // ---------------------------------------------------------------------

  /** `pc_keyboard::DecodedKey`; the decoder itself is foreign, so the
      editor is given its output, one optional key per scancode. */
  datatype DecodedKey = Unicode(c: char) | RawKey(code: nat)

  /** What the editor shows while it runs: a typed character, the erasure
      of the last one, and the final newline. */
  datatype Echo = EchoChar(c: char) | EchoBackspace | EchoNewline

  datatype Editor = Editor(line: string, echo: seq<Echo>)

  predicate IsTerminator(k: Option<DecodedKey>)
  {
    k == Some(Unicode('\n')) || k == Some(Unicode('\r'))
  }

  const BACKSPACE: char := 8 as char

  /** One key that does not end the line. */
  function Feed(e: Editor, k: Option<DecodedKey>): Editor
  {
    match k
    case None => e
    case Some(RawKey(_)) => e
    case Some(Unicode(c)) =>
      if c == BACKSPACE then
        if e.line != [] then Editor(e.line[..|e.line| - 1], e.echo + [EchoBackspace]) else e
      else
        Editor(e.line + [c], e.echo + [EchoChar(c)])
  }

  /** The editor after a run of keys, none of them a terminator. */
  function FeedAll(keys: seq<Option<DecodedKey>>): Editor
  {
    if keys == [] then Editor([], []) else Feed(FeedAll(keys[..|keys| - 1]), keys[|keys| - 1])
  }

  function FirstTerminator(keys: seq<Option<DecodedKey>>): (r: Option<nat>)
    ensures r.Some? ==> r.value < |keys| && IsTerminator(keys[r.value])
    ensures r.Some? ==> forall j :: 0 <= j < r.value ==> !IsTerminator(keys[j])
    ensures r.None? ==> forall j :: 0 <= j < |keys| ==> !IsTerminator(keys[j])
  {
    if keys == [] then None
    else if IsTerminator(keys[0]) then Some(0)
    else match FirstTerminator(keys[1..])
      case None => None
      case Some(i) => Some(i + 1)
  }

  /** `get_line` over the decoded keys of the scancodes it reads: once a
      terminator arrives it returns the line (the terminator excluded) and
      has read exactly the keys up to and including the terminator;
      `None` means it is still awaiting one after every key given.  `echo`
      is what it printed. */
  method GetLine(keys: seq<Option<DecodedKey>>) returns (line: Option<string>, consumed: nat, echo: seq<Echo>)
    ensures consumed <= |keys|
    ensures match FirstTerminator(keys)
      case Some(i) =>
        && consumed == i + 1
        && line == Some(FeedAll(keys[..i]).line)
        && echo == FeedAll(keys[..i]).echo + [EchoNewline]
      case None =>
        && consumed == |keys|
        && line.None?
        && echo == FeedAll(keys).echo
  {
    var text: string := [];
    echo := [];
    var i := 0;
    while i < |keys|
      invariant 0 <= i <= |keys|
      invariant forall j :: 0 <= j < i ==> !IsTerminator(keys[j])
      invariant Editor(text, echo) == FeedAll(keys[..i])
    {
      assert keys[..i + 1][..i] == keys[..i];
      match keys[i] {
        case None =>
        case Some(RawKey(_)) =>
        case Some(Unicode(c)) =>
          if c == '\n' || c == '\r' {
            echo := echo + [EchoNewline];
            return Some(text), i + 1, echo;
          } else if c == BACKSPACE {
            if text != [] {
              text := text[..|text| - 1];
              echo := echo + [EchoBackspace];
            }
          } else {
            text := text + [c];
            echo := echo + [EchoChar(c)];
          }
      }
      i := i + 1;
    }
    assert keys[..|keys|] == keys;
    return None, |keys|, echo;
  }

  /** The echo and the line agree: replaying what the editor printed (a
      character appended, a backspace erasing the last one) rebuilds the
      line it holds. */
  function Replay(echo: seq<Echo>): string
  {
    if echo == [] then []
    else
      var t := Replay(echo[..|echo| - 1]);
      match echo[|echo| - 1]
      case EchoChar(c) => t + [c]
      case EchoBackspace => if t != [] then t[..|t| - 1] else t
      case EchoNewline => t
  }

  lemma {:induction false} EchoReplaysLine(keys: seq<Option<DecodedKey>>)
    ensures Replay(FeedAll(keys).echo) == FeedAll(keys).line
  {
    if keys != [] {
      var prev := FeedAll(keys[..|keys| - 1]);
      EchoReplaysLine(keys[..|keys| - 1]);
      var e := FeedAll(keys).echo;
      if e != prev.echo {
        assert e[..|e| - 1] == prev.echo;
      }
    }
  }

  predicate Special(c: char)
  {
    c == '\n' || c == '\r' || c == BACKSPACE
  }

  function Typed(s: string): seq<Option<DecodedKey>>
  {
    if s == [] then [] else Typed(s[..|s| - 1]) + [Some(Unicode(s[|s| - 1]))]
  }

  /** Typing a text that holds no terminator and no backspace, then Enter,
      returns exactly that text. */
  lemma {:induction false} TypedTextIsLine(s: string)
    requires forall i :: 0 <= i < |s| ==> !Special(s[i])
    ensures |Typed(s)| == |s|
    ensures FirstTerminator(Typed(s) + [Some(Unicode('\n'))]) == Some(|s|)
    ensures FeedAll(Typed(s)).line == s
  {
    if s != [] {
      TypedTextIsLine(s[..|s| - 1]);
      assert Typed(s)[..|s| - 1] == Typed(s[..|s| - 1]);
      assert s[..|s| - 1] + [s[|s| - 1]] == s;
    }
    assert (Typed(s) + [Some(Unicode('\n'))])[..|s|] == Typed(s);
    forall j | 0 <= j < |s| ensures !IsTerminator(Typed(s)[j]) {
      TypedAt(s, j);
    }
    AllButLastPlain(Typed(s), Some(Unicode('\n')));
  }

  lemma {:induction false} TypedAt(s: string, j: nat)
    requires j < |s|
    ensures |Typed(s)| == |s| && Typed(s)[j] == Some(Unicode(s[j]))
  {
    if j < |s| - 1 {
      TypedAt(s[..|s| - 1], j);
    } else if |s| > 1 {
      TypedAt(s[..|s| - 1], 0);
    }
  }

  lemma {:induction false} AllButLastPlain(ks: seq<Option<DecodedKey>>, last: Option<DecodedKey>)
    requires forall j :: 0 <= j < |ks| ==> !IsTerminator(ks[j])
    requires IsTerminator(last)
    ensures FirstTerminator(ks + [last]) == Some(|ks|)
  {
    if ks != [] {
      assert (ks + [last])[1..] == ks[1..] + [last];
      AllButLastPlain(ks[1..], last);
    }
  }

  /** A backspace removes the last accepted character and is a no-op on
      an empty line. */
  lemma BackspaceRemovesLast(keys: seq<Option<DecodedKey>>)
    ensures var before := FeedAll(keys).line;
      FeedAll(keys + [Some(Unicode(BACKSPACE))]).line
        == if before == [] then [] else before[..|before| - 1]
  {
    assert (keys + [Some(Unicode(BACKSPACE))])[..|keys|] == keys;
  }

  /** Typing a character and then Backspace leaves the line as it was. */
  lemma TypeThenEraseCancels(keys: seq<Option<DecodedKey>>, c: char)
    requires !Special(c)
    ensures FeedAll(keys + [Some(Unicode(c)), Some(Unicode(BACKSPACE))]).line == FeedAll(keys).line
  {
    var ks := keys + [Some(Unicode(c)), Some(Unicode(BACKSPACE))];
    assert ks[..|ks| - 1] == keys + [Some(Unicode(c))];
    assert ks[..|ks| - 1][..|keys|] == keys;
    var l := FeedAll(keys).line;
    assert (l + [c])[..|l|] == l;
  }

  /** A key the decoder gives no character for, or a raw key, leaves the
      line and the echo untouched wherever it comes. */
  lemma {:induction false} IgnoredKeysDropOut(xs: seq<Option<DecodedKey>>, k: Option<DecodedKey>, ys: seq<Option<DecodedKey>>)
    requires k.None? || k.value.RawKey?
    ensures FeedAll(xs + [k] + ys) == FeedAll(xs + ys)
    decreases |ys|
  {
    if ys == [] {
      assert (xs + [k] + ys)[..|xs|] == xs;
      assert xs + ys == xs;
    } else {
      var ys' := ys[..|ys| - 1];
      IgnoredKeysDropOut(xs, k, ys');
      assert (xs + [k] + ys)[..|xs + [k] + ys| - 1] == xs + [k] + ys';
      assert (xs + ys)[..|xs + ys| - 1] == xs + ys';
    }
  }

  /** The returned line never holds a terminator or a backspace character. */
  lemma {:induction false} LineHasNoControl(keys: seq<Option<DecodedKey>>)
    requires forall j :: 0 <= j < |keys| ==> !IsTerminator(keys[j])
    ensures forall i :: 0 <= i < |FeedAll(keys).line| ==> !Special(FeedAll(keys).line[i])
  {
    if keys != [] {
      LineHasNoControl(keys[..|keys| - 1]);
    }
  }
}
