/**
  keyboard.c: one ring buffer of characters for each process.
*/
module Keyboard {
  import opened Words

  const BUFFER_SIZE := 1024

  /** The buffer of a process. Both counters only ever grow, and wrap around in 32 bits; the size of the
      buffer divides the range of the counters, so the positions do not jump when they wrap. */
  datatype Ring = Ring(buf: seq<Byte>, tail: Word, head: Word)

  /** Position `k` places after the head. */
  function Pos(r: Ring, k: nat): (i: nat)
    ensures i < BUFFER_SIZE
  {
    (r.head + k) % BUFFER_SIZE
  }

  /** Characters pushed and not yet popped. */
  function Outstanding(r: Ring): nat { Wrap(r.tail - r.head) }

  /** At most a buffer full is outstanding; those characters are not null, all other places are. */
  ghost predicate Valid(r: Ring) {
    && |r.buf| == BUFFER_SIZE && Outstanding(r) <= BUFFER_SIZE
    && (forall k: nat | k < Outstanding(r) :: r.buf[Pos(r, k)] != 0)
    && (forall k: nat | Outstanding(r) <= k < BUFFER_SIZE :: r.buf[Pos(r, k)] == 0)
  }

  /** The queue a ring stands for. */
  function Queue(r: Ring): (q: seq<Byte>)
    requires |r.buf| == BUFFER_SIZE
    ensures |q| == Outstanding(r)
    ensures forall k: nat | k < |q| :: q[k] == r.buf[Pos(r, k)]
  {
    seq(Outstanding(r), k requires 0 <= k => r.buf[Pos(r, k)])
  }

  /** The buffer of a zeroed process structure. */
  function EmptyRing(): (r: Ring)
    ensures |r.buf| == BUFFER_SIZE && forall i | 0 <= i < BUFFER_SIZE :: r.buf[i] == 0
    ensures r.tail == 0 && r.head == 0
  {
    Ring(seq(BUFFER_SIZE, _ => 0), 0, 0)
  }

  lemma EmptyRingValid()
    ensures Valid(EmptyRing()) && Queue(EmptyRing()) == []
  {
  }

  /** keyboard_push of `c` into a ring. */
  function PushStep(r: Ring, c: Byte): (s: Ring)
    requires |r.buf| == BUFFER_SIZE
    ensures |s.buf| == BUFFER_SIZE
  {
    if c == 0x00 then r
    else Ring(r.buf[r.tail % BUFFER_SIZE := c], Wrap(r.tail + 1), r.head)
  }

  /** keyboard_pop from a ring. */
  function PopStep(r: Ring): (s: (Ring, Byte))
    requires |r.buf| == BUFFER_SIZE
    ensures |s.0.buf| == BUFFER_SIZE
  {
    var c := r.buf[r.head % BUFFER_SIZE];
    if c == 0x00 then (r, 0)
    else (Ring(r.buf[r.head % BUFFER_SIZE := 0], r.tail, Wrap(r.head + 1)), c)
  }

  /** Places of one window are distinct. */
  lemma PosDistinct(r: Ring, j: nat, k: nat)
    requires j < BUFFER_SIZE && k < BUFFER_SIZE
    ensures Pos(r, j) == Pos(r, k) <==> j == k
  {
  }

  lemma TailPos(r: Ring)
    ensures r.tail % BUFFER_SIZE == Pos(r, Outstanding(r))
  {
    var d := r.tail - r.head;
    if d >= 0 { assert Wrap(d) == d; } else { assert Wrap(d) == d + 0x1_0000_0000; }
  }

  /** A push into a ring with room appends to its queue; a null character is dropped. */
  lemma PushAppends(r: Ring, c: Byte)
    requires Valid(r) && (c != 0 ==> Outstanding(r) < BUFFER_SIZE)
    ensures Valid(PushStep(r, c))
    ensures Queue(PushStep(r, c)) == if c == 0 then Queue(r) else Queue(r) + [c]
  {
    if c != 0 {
      var s, n := PushStep(r, c), Outstanding(r);
      TailPos(r);
      PushCount(r, c);
      forall k: nat | k < BUFFER_SIZE ensures k == n ==> s.buf[Pos(s, k)] == c
                                      ensures k != n ==> s.buf[Pos(s, k)] == r.buf[Pos(r, k)]
      {
        PosDistinct(r, k, n);
      }
    }
  }

  /** A push into a full ring overwrites the oldest character: the next pop answers the newest instead. */
  lemma FullRingOverwrites(r: Ring, c: Byte)
    requires Valid(r) && c != 0 && Outstanding(r) == BUFFER_SIZE
    ensures |Queue(r)| > 0 && PopStep(r).1 == Queue(r)[0] && PopStep(PushStep(r, c)).1 == c
  {
    TailPos(r);
    assert Pos(r, 0) == r.head % BUFFER_SIZE && Pos(r, BUFFER_SIZE) == Pos(r, 0);
    assert r.buf[Pos(r, 0)] != 0;
  }

  lemma PushCount(r: Ring, c: Byte)
    requires |r.buf| == BUFFER_SIZE && c != 0 && Outstanding(r) < BUFFER_SIZE
    ensures Outstanding(PushStep(r, c)) == Outstanding(r) + 1
  {
  }

  /** A pop returns null exactly for the empty queue, and otherwise removes the front. */
  lemma PopRemoves(r: Ring)
    requires Valid(r)
    ensures Valid(PopStep(r).0)
    ensures PopStep(r).1 == 0 <==> Queue(r) == []
    ensures if Queue(r) == [] then PopStep(r).0 == r
            else PopStep(r).1 == Queue(r)[0] && Queue(PopStep(r).0) == Queue(r)[1..]
  {
    var n := Outstanding(r);
    assert Pos(r, 0) == r.head % BUFFER_SIZE;
    if n == 0 {
      assert r.buf[Pos(r, 0)] == 0;
    } else {
      var s := PopStep(r).0;
      assert r.buf[Pos(r, 0)] != 0;
      PopCount(r);
      forall k: nat | k < BUFFER_SIZE - 1 ensures s.buf[Pos(s, k)] == r.buf[Pos(r, k + 1)] {
        NextPos(r, k);
        PosDistinct(r, k + 1, 0);
      }
      NextPos(r, BUFFER_SIZE - 1);
      assert Pos(r, BUFFER_SIZE) == Pos(r, 0);
    }
  }

  lemma NextPos(r: Ring, k: nat)
    ensures (Wrap(r.head + 1) + k) % BUFFER_SIZE == Pos(r, k + 1)
  {
  }

  lemma PopCount(r: Ring)
    requires |r.buf| == BUFFER_SIZE && Outstanding(r) > 0 && r.buf[r.head % BUFFER_SIZE] != 0
    ensures Outstanding(PopStep(r).0) == Outstanding(r) - 1
  {
    var d := r.tail - r.head;
    if d >= 0 { assert Wrap(d) == d; } else { assert Wrap(d) == d + 0x1_0000_0000; }
  }

  // ---------------------------------------------------------------- several processes

  /** The rings of all processes, the process in the foreground and the one whose task runs. */
  datatype Sys = Sys(rings: map<nat, Ring>, foreground: nat, running: nat)

  /** A key goes to the foreground process, a pop serves the running one; either may be no process at all. */
  datatype Event = Key(c: Byte) | Pop | SwitchProcess(pid: nat) | SwitchTask(pid: nat) | NewProcess(pid: nat)

  /** What each process was sent and what it has received, in order. */
  datatype History = History(sent: map<nat, seq<Byte>>, received: map<nat, seq<Byte>>)

  function Of(m: map<nat, seq<Byte>>, p: nat): seq<Byte> { if p in m then m[p] else [] }

  ghost predicate Allowed(s: Sys, e: Event) {
    match e
    case Key(c) => c != 0 && s.foreground in s.rings ==> Outstanding(s.rings[s.foreground]) < BUFFER_SIZE
    case NewProcess(p) => p !in s.rings
    case _ => true
  }

  ghost predicate AllValid(s: Sys) {
    forall p | p in s.rings :: |s.rings[p].buf| == BUFFER_SIZE
  }

  ghost function Step(s: Sys, h: History, e: Event): (Sys, History)
    requires AllValid(s)
  {
    match e
    case Key(c) =>
      if s.foreground !in s.rings || c == 0 then (s, h)
      else (s.(rings := s.rings[s.foreground := PushStep(s.rings[s.foreground], c)]),
            h.(sent := h.sent[s.foreground := Of(h.sent, s.foreground) + [c]]))
    case Pop =>
      if s.running !in s.rings then (s, h)
      else
        var r := PopStep(s.rings[s.running]);
        (s.(rings := s.rings[s.running := r.0]),
         if r.1 == 0 then h else h.(received := h.received[s.running := Of(h.received, s.running) + [r.1]]))
    case SwitchProcess(p) => (s.(foreground := p), h)
    case SwitchTask(p) => (s.(running := p), h)
    case NewProcess(p) => (s.(rings := s.rings[p := EmptyRing()]), History(h.sent[p := []], h.received[p := []]))
  }

  /** What a process was sent is what it received followed by what still waits in its ring. */
  ghost predicate InOrder(r: Ring, sent: seq<Byte>, received: seq<Byte>) {
    Valid(r) && sent == received + Queue(r)
  }

  ghost predicate Fifo(s: Sys, h: History) {
    forall p | p in s.rings :: InOrder(s.rings[p], Of(h.sent, p), Of(h.received, p))
  }

  lemma PushInOrder(r: Ring, c: Byte, sent: seq<Byte>, received: seq<Byte>)
    requires InOrder(r, sent, received) && c != 0 && Outstanding(r) < BUFFER_SIZE
    ensures InOrder(PushStep(r, c), sent + [c], received)
  {
    PushAppends(r, c);
    assert sent + [c] == received + (Queue(r) + [c]);
  }

  lemma PopInOrder(r: Ring, sent: seq<Byte>, received: seq<Byte>)
    requires InOrder(r, sent, received)
    ensures InOrder(PopStep(r).0, sent, if PopStep(r).1 == 0 then received else received + [PopStep(r).1])
  {
    PopRemoves(r);
    if Queue(r) != [] {
      assert received + Queue(r) == received + [Queue(r)[0]] + Queue(r)[1..];
    }
  }

  lemma StepKeepsFifo(s: Sys, h: History, e: Event)
    requires Fifo(s, h) && Allowed(s, e)
    ensures Fifo(Step(s, h, e).0, Step(s, h, e).1)
  {
    hide InOrder;
    hide PushStep;
    hide PopStep;
    hide Outstanding;
    match e
    case Key(c) =>
      if s.foreground in s.rings && c != 0 {
        PushInOrder(s.rings[s.foreground], c, Of(h.sent, s.foreground), Of(h.received, s.foreground));
      }
    case Pop =>
      if s.running in s.rings {
        PopInOrder(s.rings[s.running], Of(h.sent, s.running), Of(h.received, s.running));
      }
    case NewProcess(p) => EmptyInOrder();
    case _ =>
  }

  lemma EmptyInOrder()
    ensures InOrder(EmptyRing(), [], [])
  {
    EmptyRingValid();
  }

  ghost function Next(s: Sys, h: History, e: Event): (r: (Sys, History))
    requires Fifo(s, h) && Allowed(s, e)
    ensures Fifo(r.0, r.1)
  {
    StepKeepsFifo(s, h, e);
    Step(s, h, e)
  }

  ghost predicate AllowedRun(s: Sys, h: History, es: seq<Event>)
    requires Fifo(s, h)
    decreases |es|
  {
    es == [] || (Allowed(s, es[0]) && AllowedRun(Next(s, h, es[0]).0, Next(s, h, es[0]).1, es[1..]))
  }

  ghost function Run(s: Sys, h: History, es: seq<Event>): (r: (Sys, History))
    requires Fifo(s, h) && AllowedRun(s, h, es)
    ensures Fifo(r.0, r.1)
    decreases |es|
  {
    if es == [] then (s, h) else Run(Next(s, h, es[0]).0, Next(s, h, es[0]).1, es[1..])
  }

  // ---------------------------------------------------------------- what the events say

  /** The characters typed for process `p`, by the events alone: the non-null keys while it is in the foreground and
      exists, in order. */
  function TypedFor(p: nat, foreground: nat, exists_: bool, es: seq<Event>): seq<Byte>
    decreases |es|
  {
    if es == [] then []
    else
      match es[0]
      case Key(c) =>
        (if c != 0 && exists_ && foreground == p then [c] else []) + TypedFor(p, foreground, exists_, es[1..])
      case SwitchProcess(q) => TypedFor(p, q, exists_, es[1..])
      case NewProcess(q) => TypedFor(p, foreground, exists_ || q == p, es[1..])
      case _ => TypedFor(p, foreground, exists_, es[1..])
  }

  /** What a pop in this state answers: what keyboard_pop takes out of the ring of the running task's process. */
  ghost function Answer(s: Sys): Byte
    requires AllValid(s)
  {
    if s.running in s.rings then PopStep(s.rings[s.running]).1 else 0
  }

  /** The characters that pops answered while process `p` was running, in order. */
  ghost function AnsweredTo(s: Sys, h: History, p: nat, es: seq<Event>): seq<Byte>
    requires Fifo(s, h) && AllowedRun(s, h, es)
    decreases |es|
  {
    if es == [] then []
    else
      (if es[0].Pop? && s.running == p && Answer(s) != 0 then [Answer(s)] else [])
      + AnsweredTo(Next(s, h, es[0]).0, Next(s, h, es[0]).1, p, es[1..])
  }

  /** Processes that do not exist were sent nothing. */
  ghost predicate Clean(s: Sys, h: History) {
    forall p | p !in s.rings :: Of(h.sent, p) == [] && Of(h.received, p) == []
  }

  lemma TypedCons(p: nat, foreground: nat, exists_: bool, e: Event, es: seq<Event>)
    ensures TypedFor(p, foreground, exists_, []) == []
    ensures TypedFor(p, foreground, exists_, [e] + es)
            == TypedFor(p, foreground, exists_, [e])
               + TypedFor(p, if e.SwitchProcess? then e.pid else foreground,
                          exists_ || (e.NewProcess? && e.pid == p), es)
  {
    assert ([e] + es)[1..] == es && [e][1..] == [];
  }

  /** One event: what it adds to the histories of process `p`, and whom later keys and pops are for. */
  lemma StepIsTyped(s: Sys, h: History, e: Event, p: nat)
    requires AllValid(s) && Clean(s, h) && Allowed(s, e)
    ensures var (s', h') := Step(s, h, e);
            && Clean(s', h')
            && Of(h'.sent, p) == Of(h.sent, p) + TypedFor(p, s.foreground, p in s.rings, [e])
            && Of(h'.received, p)
               == Of(h.received, p) + (if e.Pop? && s.running == p && Answer(s) != 0 then [Answer(s)] else [])
            && s'.foreground == (if e.SwitchProcess? then e.pid else s.foreground)
            && s'.running == (if e.SwitchTask? then e.pid else s.running)
            && s'.rings.Keys == s.rings.Keys + (if e.NewProcess? then {e.pid} else {})
  {
    hide PushStep, PopStep, Outstanding;
    TypedOne(p, s.foreground, p in s.rings, e);
    hide TypedFor;
    match e {
      case Pop =>
      case _ =>
    }
  }

  lemma TypedOne(p: nat, foreground: nat, exists_: bool, e: Event)
    ensures TypedFor(p, foreground, exists_, [e])
            == if e.Key? && e.c != 0 && exists_ && foreground == p then [e.c] else []
  {
    assert [e][1..] == [];
  }

  lemma FifoValid(s: Sys, h: History)
    requires Fifo(s, h)
    ensures AllValid(s)
  {
  }

  lemma {:induction false} RunIsTyped(s: Sys, h: History, es: seq<Event>, p: nat)
    requires Fifo(s, h) && AllowedRun(s, h, es) && Clean(s, h)
    ensures Of(Run(s, h, es).1.sent, p) == Of(h.sent, p) + TypedFor(p, s.foreground, p in s.rings, es)
    ensures Of(Run(s, h, es).1.received, p) == Of(h.received, p) + AnsweredTo(s, h, p, es)
    decreases |es|
  {
    hide Fifo, Allowed, Step, TypedFor, Clean, Answer, Of;
    if es == [] {
      TypedCons(p, s.foreground, p in s.rings, Pop, []);
    } else {
      var (s', h') := Next(s, h, es[0]);
      FifoValid(s, h);
      StepIsTyped(s, h, es[0], p);
      assert [es[0]] + es[1..] == es;
      TypedCons(p, s.foreground, p in s.rings, es[0], es[1..]);
      RunIsTyped(s', h', es[1..], p);
    }
  }

  lemma Waiting(s: Sys, h: History, p: nat)
    requires Fifo(s, h) && p in s.rings
    ensures |s.rings[p].buf| == BUFFER_SIZE && Of(h.sent, p) == Of(h.received, p) + Queue(s.rings[p])
    ensures PopStep(s.rings[p]).1 == 0 <==> Of(h.sent, p) == Of(h.received, p)
  {
    hide Queue, PopStep;
    PopRemoves(s.rings[p]);
  }

  /** From no process at all, after any interleaving of keys, pops and switches in which no ring overflows: what was
      typed for a process is what pops answered while it ran, in order and with nothing lost, followed by what
      waits in its ring, and the next pop answers null exactly when nothing waits. */
  lemma EveryRunIsFifo(foreground: nat, running: nat, es: seq<Event>, p: nat)
    ensures Fifo(Sys(map[], foreground, running), History(map[], map[]))
    ensures AllowedRun(Sys(map[], foreground, running), History(map[], map[]), es) ==>
              var s0, h0 := Sys(map[], foreground, running), History(map[], map[]);
              var end := Run(s0, h0, es).0;
              p in end.rings ==>
                && |end.rings[p].buf| == BUFFER_SIZE
                && TypedFor(p, foreground, false, es) == AnsweredTo(s0, h0, p, es) + Queue(end.rings[p])
                && (PopStep(end.rings[p]).1 == 0 <==> TypedFor(p, foreground, false, es) == AnsweredTo(s0, h0, p, es))
  {
    hide Queue, PopStep;
    var s0, h0 := Sys(map[], foreground, running), History(map[], map[]);
    if AllowedRun(s0, h0, es) {
      hide AllowedRun, Run, AnsweredTo, TypedFor;
      RunIsTyped(s0, h0, es, p);
      var (end, h) := Run(s0, h0, es);
      assert Of(h.sent, p) == TypedFor(p, foreground, false, es) && Of(h.received, p) == AnsweredTo(s0, h0, p, es);
      if p in end.rings { Waiting(end, h, p); }
    }
  }

  // ---------------------------------------------------------------- the buffer in a process

  class KeyboardBuffer {
    const buffer: array<Byte>
    var tail: Word
    var head: Word

    constructor ()
      ensures buffer.Length == BUFFER_SIZE && fresh(buffer) && R() == EmptyRing()
    {
      buffer := new Byte[BUFFER_SIZE](_ => 0);
      tail, head := 0, 0;
      new;
      assert buffer[..] == EmptyRing().buf;
    }

    ghost function R(): Ring
      reads this, buffer
    {
      Ring(buffer[..], tail, head)
    }

    /** keyboard_get_tail_index */
    function TailIndex(): (i: nat)
      reads this
      ensures i < BUFFER_SIZE
    {
      tail % BUFFER_SIZE
    }
  }

  /** keyboard_push to the process in the foreground, if there is one. */
  method KeyboardPush(process: KeyboardBuffer?, c: Byte)
    requires process != null ==> process.buffer.Length == BUFFER_SIZE
    modifies process, if process == null then {} else {process.buffer}
    ensures process != null ==> process.R() == PushStep(old(process.R()), c)
  {
    if process == null {
      return;
    }
    if c == 0x00 {
      return;
    }
    var realIndex := process.TailIndex();
    process.buffer[realIndex] := c;
    process.tail := Wrap(process.tail + 1);
  }

  /** keyboard_pop from the process of the running task, if there is one. */
  method KeyboardPop(process: KeyboardBuffer?) returns (c: Byte)
    requires process != null ==> process.buffer.Length == BUFFER_SIZE
    modifies process, if process == null then {} else {process.buffer}
    ensures process == null ==> c == 0
    ensures process != null ==> (process.R(), c) == PopStep(old(process.R()))
  {
    if process == null {
      return 0;
    }
    var realIndex := process.head % BUFFER_SIZE;
    c := process.buffer[realIndex];
    if c == 0x00 {
      return 0;
    }
    process.buffer[realIndex] := 0;
    process.head := Wrap(process.head + 1);
  }
}
