/** Terminal input: a ring of bytes, and the semaphore whose permits announce them. */
module Ttys {
  import opened Widths
  import opened Lists
  import opened Scheduling
  import opened StepEffects
  import opened SchedulerRuns
  import opened SchedulerHistories
  import opened Kernels

  const TTY_IBUF_SIZE := 512

  /** tty_fifo_t */
  class Fifo {
    const buf: array<Byte>
    const size: int
    var read: int
    var write: int
    var count: int
    /** The bytes held, oldest first. */
    ghost var contents: seq<Byte>

    ghost predicate Valid()
      reads this, buf
    {
      && 0 < size == buf.Length && 0 <= read < size && 0 <= write < size && count == |contents| <= size
      && write == At(count) && forall i | 0 <= i < count :: buf[At(i)] == contents[i]
    }

    /** The index of the byte `i` places after the oldest. */
    function At(i: int): int
      reads this
    {
      if read + i < size then read + i else read + i - size
    }

    constructor (buf: array<Byte>)
      requires buf.Length > 0
      ensures Valid() && this.buf == buf && size == buf.Length && contents == []
    {
      this.buf, size, read, write, count, contents := buf, buf.Length, 0, 0, 0, [];
    }

    /** tty_fifo_get */
    method Get() returns (ok: bool, c: Byte)
      requires Valid()
      modifies this
      ensures Valid() && ok == (old(contents) != [])
      ensures ok ==> c == old(contents)[0] && contents == old(contents)[1..]
      ensures !ok ==> contents == old(contents)
    {
      c := 0;
      ok := count > 0;
      if ok {
        c := buf[read];
        read := read + 1;
        if read >= size {
          read := 0;
        }
        count := count - 1;
        contents := contents[1..];
      }
    }

    /** tty_fifo_put */
    method Put(c: Byte) returns (ok: bool)
      requires Valid()
      modifies this, buf
      ensures Valid() && ok == (|old(contents)| < size)
      ensures contents == if ok then old(contents) + [c] else old(contents)
    {
      ok := count < size;
      if ok {
        buf[write] := c;
        write := write + 1;
        if write >= size {
          write := 0;
        }
        count := count + 1;
        contents := contents + [c];
      }
    }
  }

  // ----- bytes and permits

  /** Input with its history: what the ring took in and gave out, the bytes it had no room for, the reads that
      found it empty. `permits` are the readers that hold a permit and have not used it yet. */
  datatype Input = Input(sys: Sys, ring: seq<Byte>, permits: set<Task>, accepted: seq<Byte>, delivered: seq<Byte>,
    dropped: nat, empty: nat)

  datatype Event =
    | KeyPressed(c: Byte)
    | ReadWaits
    | ReadGets
    | Other(step: Step)

  /** Semaphore `k` is the terminal's: only its reader and its interrupt use it, and a reader with a permit
      does nothing before it has used it. */
  ghost predicate CanHappen(s: Input, k: int, e: Event) {
    match e
    case KeyPressed(_) => true
    case ReadWaits => s.sys.curr != IDLE && s.sys.curr !in s.permits
    case ReadGets => s.sys.curr in s.permits
    case Other(step) =>
      && Enabled(s.sys, step) && step != SemWaits(k) && step != Notify(k)
      && (step.Tick? || step.Notify? || s.sys.curr !in s.permits)
  }

  ghost predicate InputOk(s: Input, k: int) {
    && Inv(s.sys) && k in s.sys.sems && s.sys.sems[k] <= TTY_IBUF_SIZE
    && (forall t | t in s.permits :: t !in s.sys.lists[SemWait(k)])
  }

  /** What an event does: a key press is dropped when the ring is full, and announced all the same. */
  ghost function Happened(s: Input, k: int, e: Event): Input
    requires InputOk(s, k) && CanHappen(s, k, e)
  {
    match e
    case KeyPressed(c) =>
      if s.sys.sems[k] >= TTY_IBUF_SIZE then s
      else
        var room, w := |s.ring| < TTY_IBUF_SIZE, s.sys.lists[SemWait(k)];
        Input(Next(s.sys, Notify(k)), if room then s.ring + [c] else s.ring,
              if w == [] then s.permits else s.permits + {w[0]},
              if room then s.accepted + [c] else s.accepted, s.delivered,
              if room then s.dropped else s.dropped + 1, s.empty)
    case ReadWaits =>
      s.(sys := Next(s.sys, SemWaits(k)), permits := if s.sys.sems[k] > 0 then s.permits + {s.sys.curr} else s.permits)
    case ReadGets =>
      if s.ring == [] then s.(permits := s.permits - {s.sys.curr}, empty := s.empty + 1)
      else s.(permits := s.permits - {s.sys.curr}, ring := s.ring[1..], delivered := s.delivered + [s.ring[0]])
    case Other(step) => s.(sys := Next(s.sys, step))
  }

  /** The ring is a queue; the permits announced and not yet used are the bytes held and the drops that no
      empty read has answered. */
  ghost predicate Balanced(s: Input, k: int) {
    && InputOk(s, k) && |s.ring| <= TTY_IBUF_SIZE && s.accepted == s.delivered + s.ring
    && s.sys.sems[k] + |s.permits| == |s.ring| + s.dropped - s.empty
    && s.empty <= s.dropped
  }

  /** The first waiter had no permit yet. */
  lemma PermitHandedOver(s: Input, k: int)
    requires InputOk(s, k) && SemWait(k) in s.sys.lists && s.sys.lists[SemWait(k)] != []
    ensures var w := s.sys.lists[SemWait(k)];
      |s.permits + {w[0]}| == |s.permits| + 1 && forall t | t in s.permits + {w[0]} :: t !in w[1..]
  {
    var w := s.sys.lists[SemWait(k)];
    assert w[0] in w && forall t | t in w[1..] :: t in w;
    FirstOnce(s.sys, SemWait(k), w[0]);
  }

  lemma KeyPressBalanced(s: Input, k: int, c: Byte)
    requires Balanced(s, k)
    ensures Balanced(Happened(s, k, KeyPressed(c)), k)
  {
    if s.sys.sems[k] < TTY_IBUF_SIZE {
      StepKeepsInv(s.sys, Notify(k));
      SemStep(s.sys, Notify(k), k);
      if s.sys.lists[SemWait(k)] != [] {
        PermitHandedOver(s, k);
      }
      assert s.delivered + (s.ring + [c]) == (s.delivered + s.ring) + [c];
    }
  }

  lemma ReadBalanced(s: Input, k: int, e: Event)
    requires Balanced(s, k) && CanHappen(s, k, e) && (e.ReadWaits? || e.ReadGets?)
    ensures Balanced(Happened(s, k, e), k)
  {
    if e.ReadWaits? {
      StepKeepsInv(s.sys, SemWaits(k));
      SemStep(s.sys, SemWaits(k), k);
      RunningWaitsNowhere(s.sys);
      assert s.sys.curr !in s.sys.lists[SemWait(k)];
    } else {
      SemKnown(s.sys, k);
      assert |s.permits - {s.sys.curr}| == |s.permits| - 1;
      assert s.ring != [] ==> s.ring == [s.ring[0]] + s.ring[1..];
    }
  }

  lemma OtherBalanced(s: Input, k: int, step: Step)
    requires Balanced(s, k) && CanHappen(s, k, Other(step))
    ensures Balanced(Happened(s, k, Other(step)), k)
  {
    StepKeepsInv(s.sys, step);
    StepLeaves(s.sys, step);
  }

  // ----- what the events do

  /** A key press: without effect while 512 permits are there; else its byte is the newest of the ring if there
      is room, and the first reader that waits, if any, has the permit and is ready. */
  lemma PressTakesEffect(s: Input, k: int, c: Byte)
    requires Balanced(s, k)
    ensures var s' := Happened(s, k, KeyPressed(c));
      if s.sys.sems[k] >= TTY_IBUF_SIZE then s' == s
      else PermitGiven(s, s', k) && ByteTaken(s, s', c)
  {
    if s.sys.sems[k] < TTY_IBUF_SIZE {
      StepMoves(s.sys, Notify(k));
      SemKnown(s.sys, k);
      var w := s.sys.lists[SemWait(k)];
      if w != [] {
        FirstWaiter(s.sys, SemWait(k));
        ReadyKnown(s.sys);
        WaitersNotRunning(s.sys, SemWait(k));
        assert w[0] in w;
      }
    }
  }

  ghost predicate ByteTaken(s: Input, s': Input, c: Byte) {
    && s'.delivered == s.delivered && s'.empty == s.empty
    && if |s.ring| < 512 then
         s'.ring == s.ring + [c] && s'.accepted == s.accepted + [c] && s'.dropped == s.dropped
       else
         s'.ring == s.ring && s'.accepted == s.accepted && s'.dropped == s.dropped + 1
  }

  /** One more permit: the first waiter's, who had none, or one for whoever asks next. */
  ghost predicate PermitGiven(s: Input, s': Input, k: int) {
    && k in s.sys.sems && k in s'.sys.sems
    && SemWait(k) in s.sys.lists && SemWait(k) in s'.sys.lists && Ready in s.sys.lists && Ready in s'.sys.lists
    && var w := s.sys.lists[SemWait(k)];
       if w == [] then
         && s'.sys.sems[k] == s.sys.sems[k] + 1 && s'.permits == s.permits
         && s'.sys.lists[SemWait(k)] == [] && s'.sys.lists[Ready] == s.sys.lists[Ready]
       else
         && s'.sys.sems[k] == s.sys.sems[k] == 0 && w[0] !in s.permits && s'.permits == s.permits + {w[0]}
         && s'.sys.lists[SemWait(k)] == w[1..] && s'.sys.lists[Ready] == s.sys.lists[Ready] + [w[0]]
         && w[0] in s'.sys.tasks && s'.sys.tasks[w[0]].state == if s.sys.curr == IDLE then Running else ReadyToRun
  }

  /** A reader that asks has a permit, or is the last of those that wait for one. */
  lemma WaitTakesEffect(s: Input, k: int)
    requires Balanced(s, k) && CanHappen(s, k, ReadWaits)
    ensures var s', t := Happened(s, k, ReadWaits), s.sys.curr;
      && k in s'.sys.sems && SemWait(k) in s'.sys.lists && Ready in s'.sys.lists
      && s'.ring == s.ring
      && if s.sys.sems[k] > 0 then
           && s'.sys.sems[k] == s.sys.sems[k] - 1 && s'.permits == s.permits + {t} && s'.sys.curr == t
           && s'.sys.lists[SemWait(k)] == s.sys.lists[SemWait(k)] && s'.sys.lists[Ready] == s.sys.lists[Ready]
         else
           && s'.sys.sems[k] == 0 && s'.permits == s.permits && t !in s'.permits
           && s'.sys.lists[SemWait(k)] == s.sys.lists[SemWait(k)] + [t]
           && s'.sys.lists[Ready] == s.sys.lists[Ready][1..]
  {
    StepMoves(s.sys, SemWaits(k));
    SemKnown(s.sys, k);
    ReadyKnown(s.sys);
  }

  /** A run of the terminal: events in any order, those that cannot happen left out. */
  datatype Session = Opened(sys: Sys) | And(before: Session, event: Event)

  ghost function Now(r: Session, k: int): Input {
    match r
    case Opened(sys) => Input(sys, [], {}, [], [], 0, 0)
    case And(b, e) => if InputOk(Now(b, k), k) && CanHappen(Now(b, k), k, e) then Happened(Now(b, k), k, e)
      else Now(b, k)
  }

  function FirstState(r: Session): Sys {
    if r.Opened? then r.sys else FirstState(r.before)
  }

  /** Over every run: bytes are read in the order in which they were accepted; the bytes held never exceed the
      semaphore's count and the permits granted but not used, so no byte is left without a permit; and a read
      finds nothing only when a byte was dropped before. */
  lemma {:induction false} InputHistory(r: Session, k: int)
    requires Inv(FirstState(r)) && k in FirstState(r).sems && FirstState(r).sems[k] == 0
    ensures var s := Now(r, k);
      && Balanced(s, k) && s.accepted == s.delivered + s.ring
      && |s.ring| <= s.sys.sems[k] + |s.permits|
      && (|s.ring| == s.sys.sems[k] + |s.permits| <==> s.dropped == s.empty)
      && (s.dropped == 0 ==> s.empty == 0)
  {
    if r.And? {
      InputHistory(r.before, k);
      var s := Now(r.before, k);
      if CanHappen(s, k, r.event) {
        match r.event
        case KeyPressed(c) => KeyPressBalanced(s, k, c);
        case Other(step) => OtherBalanced(s, k, step);
        case _ => ReadBalanced(s, k, r.event);
      }
    }
  }

  // ----- what a session's events add up to

  /** Whether the last event of a session happened and was a key press. */
  ghost predicate Presses(r: Session, k: int) {
    r.And? && r.event.KeyPressed? && InputOk(Now(r.before, k), k)
  }

  /** The pressed bytes that found fewer than 512 permits and fewer than 512 bytes. */
  ghost function Stored(r: Session, k: int): seq<Byte> {
    if r.Opened? then []
    else
      var s := Now(r.before, k);
      Stored(r.before, k)
        + if Presses(r, k) && s.sys.sems[k] < 512 && |s.ring| < 512 then [r.event.c] else []
  }

  /** How many key presses found a full ring and fewer than 512 permits. */
  ghost function FoundFull(r: Session, k: int): nat {
    if r.Opened? then 0
    else
      var s := Now(r.before, k);
      FoundFull(r.before, k) + if Presses(r, k) && s.sys.sems[k] < 512 <= |s.ring| then 1 else 0
  }

  /** How many key presses found 512 permits. */
  ghost function FoundPermits(r: Session, k: int): nat {
    if r.Opened? then 0
    else FoundPermits(r.before, k) + if Presses(r, k) && Now(r.before, k).sys.sems[k] >= 512 then 1 else 0
  }

  ghost function KeyPresses(r: Session, k: int): nat {
    if r.Opened? then 0 else KeyPresses(r.before, k) + if Presses(r, k) then 1 else 0
  }

  /** Whether the last event of a session is a reader with a permit that takes its byte. */
  ghost predicate Reads(r: Session, k: int) {
    r.And? && r.event.ReadGets? && InputOk(Now(r.before, k), k) && CanHappen(Now(r.before, k), k, ReadGets)
  }

  /** The oldest byte there was at each read that found one. */
  ghost function Taken(r: Session, k: int): seq<Byte> {
    if r.Opened? then []
    else
      var s := Now(r.before, k);
      Taken(r.before, k) + if Reads(r, k) && s.ring != [] then [s.ring[0]] else []
  }

  ghost function FoundEmpty(r: Session, k: int): nat {
    if r.Opened? then 0 else FoundEmpty(r.before, k) + if Reads(r, k) && Now(r.before, k).ring == [] then 1 else 0
  }

  lemma {:induction false} EveryPressCounted(r: Session, k: int)
    ensures KeyPresses(r, k) == |Stored(r, k)| + FoundFull(r, k) + FoundPermits(r, k)
  {
    if r.And? {
      EveryPressCounted(r.before, k);
    }
  }

  /** What an event adds to the history. */
  ghost predicate Recorded(s: Input, s': Input, k: int, e: Event)
    requires k in s.sys.sems
  {
    var stored := e.KeyPressed? && s.sys.sems[k] < 512 && |s.ring| < 512;
    && s'.accepted == s.accepted + (if stored then [e.c] else [])
    && s'.dropped == s.dropped + (if e.KeyPressed? && s.sys.sems[k] < 512 <= |s.ring| then 1 else 0)
    && s'.delivered == s.delivered + (if e.ReadGets? && s.ring != [] then [s.ring[0]] else [])
    && s'.empty == s.empty + (if e.ReadGets? && s.ring == [] then 1 else 0)
  }

  lemma EventRecorded(s: Input, k: int, e: Event)
    requires Balanced(s, k) && CanHappen(s, k, e)
    ensures Recorded(s, Happened(s, k, e), k, e)
  {
    if e.KeyPressed? {
      PressTakesEffect(s, k, e.c);
    }
  }

  /** Over every session: the ring has taken exactly the bytes that found room and fewer than 512 permits, has
      given the oldest ones to the reads that found one, and no key press is unaccounted for. */
  lemma {:induction false} InputExactly(r: Session, k: int)
    requires Inv(FirstState(r)) && k in FirstState(r).sems && FirstState(r).sems[k] == 0
    ensures var s := Now(r, k);
      && s.accepted == Stored(r, k) && s.dropped == FoundFull(r, k)
      && s.delivered == Taken(r, k) && s.empty == FoundEmpty(r, k)
      && Stored(r, k) == Taken(r, k) + s.ring
      && KeyPresses(r, k) == |Taken(r, k)| + |s.ring| + FoundFull(r, k) + FoundPermits(r, k)
  {
    InputHistory(r, k);
    EveryPressCounted(r, k);
    if r.And? {
      InputExactly(r.before, k);
      InputHistory(r.before, k);
      HistoryExtended(r, k, Now(r.before, k), Now(r, k));
    }
  }

  lemma HistoryExtended(r: Session, k: int, s: Input, s': Input)
    requires r.And? && s == Now(r.before, k) && s' == Now(r, k) && Balanced(s, k)
    requires s.accepted == Stored(r.before, k) && s.dropped == FoundFull(r.before, k)
    requires s.delivered == Taken(r.before, k) && s.empty == FoundEmpty(r.before, k)
    ensures s'.accepted == Stored(r, k) && s'.dropped == FoundFull(r, k)
    ensures s'.delivered == Taken(r, k) && s'.empty == FoundEmpty(r, k)
  {
    if CanHappen(s, k, r.event) {
      EventRecorded(s, k, r.event);
    }
  }

  /** The steps that the events of a session take. */
  ghost function RunOf(r: Session, k: int): Run {
    match r
    case Opened(sys) => Begin(sys)
    case And(b, e) =>
      var s, steps := Now(b, k), RunOf(b, k);
      if InputOk(s, k) && CanHappen(s, k, e) then Further(steps, s, k, e) else steps
  }

  /** A session is a run of the scheduler, so that what holds over every run holds over every session. */
  lemma {:induction false} SessionIsRun(r: Session, k: int)
    requires Inv(FirstState(r)) && k in FirstState(r).sems && FirstState(r).sems[k] == 0
    ensures Origin(RunOf(r, k)) == FirstState(r) && End(RunOf(r, k)) == Now(r, k).sys
  {
    if r.And? {
      SessionIsRun(r.before, k);
      InputHistory(r.before, k);
      if CanHappen(Now(r.before, k), k, r.event) {
        EventIsStep(Now(r.before, k), k, r.event, RunOf(r.before, k));
      }
    }
  }

  /** The step that an event takes, if any. */
  ghost function Further(run: Run, s: Input, k: int, e: Event): Run
    requires k in s.sys.sems
  {
    match e
    case KeyPressed(_) => if s.sys.sems[k] < 512 then After(run, Notify(k)) else run
    case ReadWaits => After(run, SemWaits(k))
    case ReadGets => run
    case Other(step) => After(run, step)
  }

  lemma EventIsStep(s: Input, k: int, e: Event, run: Run)
    requires Balanced(s, k) && CanHappen(s, k, e) && End(run) == s.sys
    ensures End(Further(run, s, k, e)) == Happened(s, k, e).sys
    ensures Origin(Further(run, s, k, e)) == Origin(run)
  {
  }

  /** A key pressed `n` times on a terminal that was just opened. */
  function Pressed(sys: Sys, c: Byte, n: nat): Session {
    if n == 0 then Opened(sys) else And(Pressed(sys, c, n - 1), KeyPressed(c))
  }

  function WithCount(sys: Sys, k: int, n: int): Sys { sys.(sems := sys.sems[k := n]) }

  /** A key pressed while nobody waits and the ring has room. */
  lemma OneMoreByte(s: Input, k: int, c: Byte, n: nat)
    requires InputOk(s, k) && SemWait(k) in s.sys.lists && s.sys.lists[SemWait(k)] == []
    requires |s.ring| < TTY_IBUF_SIZE && s.sys.sems[k] < TTY_IBUF_SIZE && n == s.sys.sems[k] + 1
    ensures var s' := Happened(s, k, KeyPressed(c));
      && InputOk(s', k)
      && s' == s.(sys := WithCount(s.sys, k, n), ring := s.ring + [c], accepted := s.accepted + [c])
  {
    SemKnown(s.sys, k);
    StepKeepsInv(s.sys, Notify(k));
  }

  lemma {:induction false} RingFills(sys: Sys, k: int, c: Byte, n: nat)
    requires Inv(sys) && k in sys.sems && sys.sems[k] == 0 && SemWait(k) in sys.lists && sys.lists[SemWait(k)] == []
    requires n <= TTY_IBUF_SIZE
    ensures InputOk(Now(Pressed(sys, c, n), k), k) && Now(Pressed(sys, c, n), k) == FilledWith(sys, k, c, n)
  {
    if n == 0 {
      assert sys.sems[k := 0] == sys.sems;
    } else {
      var p := n - 1;
      RingFills(sys, k, c, p);
      OneMoreByte(FilledWith(sys, k, c, p), k, c, n);
      FilledFurther(sys, k, c, p, n);
    }
  }

  function FilledWith(sys: Sys, k: int, c: Byte, n: nat): Input {
    Input(WithCount(sys, k, n), seq(n, _ => c), {}, seq(n, _ => c), [], 0, 0)
  }

  lemma FilledFurther(sys: Sys, k: int, c: Byte, n: nat, n': nat)
    requires n' == n + 1
    ensures var s := FilledWith(sys, k, c, n);
      FilledWith(sys, k, c, n')
        == s.(sys := WithCount(s.sys, k, n'), ring := s.ring + [c], accepted := s.accepted + [c])
  {
    assert sys.sems[k := n][k := n'] == sys.sems[k := n'];
    assert seq(n, _ => c) + [c] == seq(n', _ => c);
  }

  /** A drop does happen: the ring is full, a reader has taken a permit and not yet its byte, a key is pressed. */
  lemma DropHappens(sys: Sys, k: int, c: Byte)
    requires Inv(sys) && k in sys.sems && sys.sems[k] == 0 && sys.curr != IDLE
    requires SemWait(k) in sys.lists && sys.lists[SemWait(k)] == []
    ensures var r := And(And(Pressed(sys, c, TTY_IBUF_SIZE), ReadWaits), KeyPressed(c));
      FirstState(r) == sys && Now(r, k).dropped == 1 && k in Now(r, k).sys.sems
        && |Now(r, k).ring| < Now(r, k).sys.sems[k] + |Now(r, k).permits|
  {
    RingFills(sys, k, c, TTY_IBUF_SIZE);
    SessionBegins(sys, c, TTY_IBUF_SIZE);
    var s := Now(Pressed(sys, c, TTY_IBUF_SIZE), k);
    StepKeepsInv(s.sys, SemWaits(k));
    var s1 := Happened(s, k, ReadWaits);
    assert InputOk(s1, k) && s1.sys.sems[k] == TTY_IBUF_SIZE - 1 && |s1.ring| == TTY_IBUF_SIZE;
    StepKeepsInv(s1.sys, Notify(k));
  }

  lemma {:induction false} SessionBegins(sys: Sys, c: Byte, n: nat)
    ensures FirstState(Pressed(sys, c, n)) == sys
  {
    if n > 0 {
      SessionBegins(sys, c, n - 1);
    }
  }

  // ----- the terminal over the kernel

  class Tty {
    const kernel: Kernel
    const ififo: Fifo
    const isem: int
    ghost var permits: set<Task>
    ghost var accepted: seq<Byte>
    ghost var delivered: seq<Byte>
    ghost var dropped: nat
    ghost var empty: nat

    ghost function Abs(): Input
      reads this, kernel, kernel.lists, ififo
    {
      Input(kernel.Abs(), ififo.contents, permits, accepted, delivered, dropped, empty)
    }

    ghost predicate Valid()
      reads this, kernel, kernel.lists, ififo, ififo.buf
    {
      kernel.Valid() && ififo.Valid() && ififo.size == TTY_IBUF_SIZE && Balanced(Abs(), isem)
    }

    /** The input half of tty_open; the semaphore was made with no permit. */
    constructor (kernel: Kernel, isem: int)
      requires kernel.Valid() && isem in kernel.sems && kernel.sems[isem] == 0
      ensures Valid() && this.kernel == kernel && this.isem == isem && fresh(ififo) && fresh(ififo.buf)
      ensures Abs() == Input(kernel.Abs(), [], {}, [], [], 0, 0)
    {
      this.kernel, this.isem := kernel, isem;
      var buf := new Byte[TTY_IBUF_SIZE](_ => 0);
      ififo := new Fifo(buf);
      permits, accepted, delivered, dropped, empty := {}, [], [], 0, 0;
    }

    /** tty_in, from the keyboard interrupt */
    method In(c: Byte)
      requires Valid()
      modifies this, kernel, kernel.lists, ififo, ififo.buf
      ensures Valid() && Abs() == Happened(old(Abs()), isem, KeyPressed(c))
    {
      ghost var s := Abs();
      KeyPressBalanced(s, isem, c);
      if kernel.sems[isem] >= TTY_IBUF_SIZE {
        return;
      }
      var ok := ififo.Put(c);
      kernel.SemNotify(isem);
      Record(c, ok, s.sys.lists[SemWait(isem)]);
    }

    /** Keeps the history of a key press: the first of the waiters `w` got the permit. */
    ghost method Record(c: Byte, ok: bool, w: seq<Task>)
      modifies this`permits, this`accepted, this`dropped
      ensures permits == if w == [] then old(permits) else old(permits) + {w[0]}
      ensures accepted == if ok then old(accepted) + [c] else old(accepted)
      ensures dropped == if ok then old(dropped) else old(dropped) + 1
    {
      permits := if w == [] then permits else permits + {w[0]};
      accepted := if ok then accepted + [c] else accepted;
      dropped := if ok then dropped else dropped + 1;
    }

    /** The wait in the loop of tty_read: the reader has a permit when it returns, or when it is woken. */
    method ReadWait()
      requires Valid() && kernel.curr != IDLE && kernel.curr !in permits
      modifies this, kernel, kernel.lists
      ensures Valid() && Abs() == Happened(old(Abs()), isem, ReadWaits)
    {
      ghost var s := Abs();
      ReadBalanced(s, isem, ReadWaits);
      kernel.SemWait(isem);
      permits := if s.sys.sems[isem] > 0 then permits + {s.sys.curr} else permits;
    }

    /** Then the byte is taken; what `c` holds without one is left open. */
    method ReadGet() returns (ok: bool, c: Byte)
      requires Valid() && kernel.curr in permits
      modifies this, ififo
      ensures Valid() && Abs() == Happened(old(Abs()), isem, ReadGets)
      ensures ok ==> delivered == old(delivered) + [c]
    {
      ReadBalanced(Abs(), isem, ReadGets);
      ok, c := ififo.Get();
      permits := permits - {kernel.curr};
      if ok {
        delivered := delivered + [c];
      } else {
        empty := empty + 1;
      }
    }
  }
}
