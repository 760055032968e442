/** skinnysipmanager.cpp: the decay timers that keep the speaker and microphone pollers alive. */
module DecayPolling {

  const POLL_INTERVAL: int := 150
  const DECAY_POLL_INTERVAL: int := 150 * 7
  const MAX_TIME_LEVEL_DETECTION: nat := 15

  /** One device's timer, and how many of its monitor messages are queued. */
  datatype Chain = Chain(timer: int, pending: nat) {
    /** A running timer always has a message queued, so a poll that finds the timer running is never lost. */
    predicate Valid() {
      && 0 <= timer <= DECAY_POLL_INTERVAL && timer % POLL_INTERVAL == 0
      && (timer != 0 ==> pending > 0)
    }

    /** How many handler runs are still owed. */
    function Rank(): int {
      timer / POLL_INTERVAL + pending
    }
  }

  /** postGetSpeakerVolLvl and its siblings. */
  function Poll(c: Chain): Chain {
    if c.timer == 0 then Chain(DECAY_POLL_INTERVAL, c.pending + 1) else c
  }

  /** postStopSpeakerVolume, resetSavedSpeakerState: the timer only; queued messages stay. */
  function Stop(c: Chain): Chain {
    c.(timer := 0)
  }

  /** platformPreDeviceOperation: the queue is cleared too. */
  function Clear(c: Chain): Chain {
    Chain(0, 0)
  }

  /** getSpeakerSettings, getMicSettings. */
  function Settings(c: Chain): Chain {
    if c.timer != 0 then Chain(c.timer - POLL_INTERVAL, c.pending + 1) else c
  }

  /** The message loop takes one monitor message and runs its handler. */
  function Handle(c: Chain): Chain
    requires c.pending > 0
  {
    Settings(c.(pending := c.pending - 1))
  }

  /** monitorSpeakerMic arms an idle timer and polls at once. */
  function Arm(c: Chain): Chain {
    if c.timer == 0 then Settings(c.(timer := DECAY_POLL_INTERVAL)) else c
  }

  datatype Op = PollOp | StopOp | ClearOp | ArmOp | HandleOp

  /** A handler only runs when a message is queued. */
  function Apply(c: Chain, op: Op): Chain {
    match op
    case PollOp => Poll(c)
    case StopOp => Stop(c)
    case ClearOp => Clear(c)
    case ArmOp => Arm(c)
    case HandleOp => if c.pending > 0 then Handle(c) else c
  }

  /** What a step adds to the handler runs owed: 8 for a poll that arms, 7 for the monitor, which runs once itself. */
  function Granted(c: Chain, op: Op): nat {
    if c.timer != 0 then 0
    else if op == PollOp then 8
    else if op == ArmOp then 7
    else 0
  }

  /** What a step throws away. */
  function Dropped(c: Chain, op: Op): int {
    if op == StopOp then c.timer / POLL_INTERVAL
    else if op == ClearOp then c.Rank()
    else 0
  }

  function Handled(c: Chain, op: Op): nat {
    if op == HandleOp && c.pending > 0 then 1 else 0
  }

  /** Every step keeps the invariant, and the handler runs owed are conserved. */
  lemma StepConserves(c: Chain, op: Op)
    requires c.Valid()
    ensures Apply(c, op).Valid()
    ensures Apply(c, op).Rank() == c.Rank() + Granted(c, op) - Dropped(c, op) - Handled(c, op)
    ensures Dropped(c, op) >= 0 && c.Rank() >= 0
  {
  }

  datatype Tally = Tally(c: Chain, granted: nat, dropped: int, handled: nat)

  function Run(ops: seq<Op>): Tally {
    if ops == [] then Tally(Chain(0, 0), 0, 0, 0)
    else
      var t, op := Run(ops[..|ops| - 1]), ops[|ops| - 1];
      Tally(Apply(t.c, op), t.granted + Granted(t.c, op), t.dropped + Dropped(t.c, op), t.handled + Handled(t.c, op))
  }

  /** Over any run, handler runs never exceed what polls granted: the chain cannot feed itself. */
  lemma {:induction false} RunConserves(ops: seq<Op>)
    ensures var t := Run(ops);
            && t.c.Valid()
            && t.c.Rank() + t.dropped + t.handled == t.granted
            && t.dropped >= 0 && t.handled <= t.granted
    decreases |ops|
  {
    if ops != [] {
      var t := Run(ops[..|ops| - 1]);
      RunConserves(ops[..|ops| - 1]);
      StepConserves(t.c, ops[|ops| - 1]);
    }
  }

  /** With no further poll, n handler runs, one per queued message. */
  function Drain(c: Chain, n: nat): (c': Chain)
    requires c.Valid()
    ensures c'.Valid()
    decreases n
  {
    if n == 0 || c.pending == 0 then c
    else
      StepConserves(c, HandleOp);
      Drain(Handle(c), n - 1)
  }

  /** The chain stops after exactly Rank() handler runs: a message is queued before each, none after the last. */
  lemma {:induction false} DrainsExactly(c: Chain, n: nat)
    requires c.Valid()
    ensures n < c.Rank() ==> Drain(c, n).pending > 0 && Drain(c, n).Rank() == c.Rank() - n
    ensures n >= c.Rank() ==> Drain(c, n) == Chain(0, 0)
    decreases n
  {
    if n > 0 && c.pending > 0 {
      StepConserves(c, HandleOp);
      var d := Handle(c);
      assert d.Valid() && d.Rank() == c.Rank() - 1;
      assert Drain(c, n) == Drain(d, n - 1);
      hide Drain, Handle, Settings;
      DrainsExactly(d, n - 1);
    }
  }

  /** A poll, or the level monitor, finds the timer idle while the chain's last message is still queued. */
  predicate StartsSecond(c: Chain, op: Op) {
    (op == PollOp || op == ArmOp) && c.timer == 0 && c.pending > 0
  }

  lemma StepKeepsOneMessage(c: Chain, op: Op)
    requires c.Valid() && c.pending <= 1
    ensures Apply(c, op).pending <= 1 <==> !StartsSecond(c, op)
  {
  }

  lemma RunStep(ops: seq<Op>, i: nat)
    requires i < |ops|
    ensures Run(ops[..i + 1]).c == Apply(Run(ops[..i]).c, ops[i])
  {
    assert ops[..i + 1][..i] == ops[..i];
  }

  /** In a run no state has two messages queued exactly when no step of it starts a second chain. */
  lemma OneMessageExactlyWhen(ops: seq<Op>)
    ensures (forall i | 0 <= i <= |ops| :: Run(ops[..i]).c.pending <= 1)
       <==> (forall i | 0 <= i < |ops| :: !StartsSecond(Run(ops[..i]).c, ops[i]))
  {
    if forall i | 0 <= i < |ops| :: !StartsSecond(Run(ops[..i]).c, ops[i]) {
      forall i | 0 <= i <= |ops| ensures Run(ops[..i]).c.pending <= 1 {
        OneMessageUpTo(ops, i);
      }
    } else {
      var i :| 0 <= i < |ops| && StartsSecond(Run(ops[..i]).c, ops[i]);
      hide Run;
      RunStep(ops, i);
      assert Run(ops[..i + 1]).c.pending == Run(ops[..i]).c.pending + 1 >= 2;
    }
  }

  lemma {:induction false} OneMessageUpTo(ops: seq<Op>, n: nat)
    requires n <= |ops| && forall i | 0 <= i < |ops| :: !StartsSecond(Run(ops[..i]).c, ops[i])
    ensures Run(ops[..n]).c.pending <= 1
    decreases n
  {
    if n > 0 {
      OneMessageUpTo(ops, n - 1);
      RunStep(ops, n - 1);
      RunConserves(ops[..n - 1]);
      hide Run;
      StepKeepsOneMessage(Run(ops[..n - 1]).c, ops[n - 1]);
    }
  }

  /** One poll and the seven handler runs that bring its timer back to zero, n times. */
  function PollRounds(n: nat): seq<Op> {
    if n == 0 then [] else PollRounds(n - 1) + [PollOp] + Handles(7)
  }

  function Handles(n: nat): seq<Op> {
    if n == 0 then [] else Handles(n - 1) + [HandleOp]
  }

  lemma RunOneMore(ops: seq<Op>, op: Op)
    ensures Run(ops + [op]).c == Apply(Run(ops).c, op)
  {
    assert (ops + [op])[..|ops|] == ops;
  }

  /** While its timer runs, a handler run lowers the timer and leaves the queue as long as it was. */
  lemma {:induction false} HandlesRunDown(ops: seq<Op>, j: nat)
    requires Run(ops).c.pending > 0 && Run(ops).c.timer >= j * POLL_INTERVAL
    ensures Run(ops + Handles(j)).c == Chain(Run(ops).c.timer - j * POLL_INTERVAL, Run(ops).c.pending)
    decreases j
  {
    if j == 0 {
      assert ops + [] == ops;
    } else {
      assert ops + Handles(j) == ops + Handles(j - 1) + [HandleOp];
      hide Run, Handles;
      HandlesRunDown(ops, j - 1);
      RunOneMore(ops + Handles(j - 1), HandleOp);
    }
  }

  /** Ordinary polling alone makes the queue grow without bound: each round leaves one more message queued. */
  lemma {:induction false} PollingGrowsTheQueue(n: nat)
    ensures Run(PollRounds(n)).c == Chain(0, n)
  {
    if n > 0 {
      PollingGrowsTheQueue(n - 1);
      var before := PollRounds(n - 1);
      hide Run;
      RunOneMore(before, PollOp);
      HandlesRunDown(before + [PollOp], 7);
    }
  }

  /** One poll of an idle device: the timer starts at 1050 and its eight handler runs bring it down by 150 each. */
  lemma OnePollDrains(n: nat)
    ensures Poll(Chain(0, 0)) == Chain(1050, 1)
    ensures Drain(Chain(1050, 1), n) == if n < 8 then Chain(1050 - 150 * n, 1) else Chain(0, 0)
  {
    var c := Chain(1050, 1);
    DrainsExactly(c, n);
    if n < 8 {
      DrainSteps(n);
    }
  }

  lemma {:induction false} DrainSteps(n: nat)
    requires n < 8
    ensures Drain(Chain(1050, 1), n) == Chain(1050 - 150 * n, 1)
    decreases n
  {
    if n > 0 {
      DrainSteps(n - 1);
      DrainLast(Chain(1050, 1), n - 1);
    }
  }

  /** The last of n + 1 handler runs. */
  lemma {:induction false} DrainLast(c: Chain, n: nat)
    requires c.Valid() && Drain(c, n).pending > 0
    ensures Drain(c, n + 1) == Handle(Drain(c, n))
    decreases n
  {
    if n > 0 {
      StepConserves(c, HandleOp);
      DrainLast(Handle(c), n - 1);
    }
  }

  function PollStops(n: nat): (ops: seq<Op>)
    ensures |ops| == 2 * n
  {
    if n == 0 then [] else PollStops(n - 1) + [PollOp, StopOp]
  }

  /** So does stopping and polling again before the queue drains. */
  lemma {:induction false} QueueGrows(n: nat)
    ensures Run(PollStops(n)).c == Chain(0, n)
  {
    if n > 0 {
      var ops, before := PollStops(n), PollStops(n - 1);
      QueueGrows(n - 1);
      assert ops[..|ops| - 1] == before + [PollOp];
      assert (before + [PollOp])[..|before|] == before;
    }
  }

  // ---------- The level check ----------

  /** How many level checks have been made, and how many MSG_MONITOR_LEVEL are queued. */
  datatype Levels = Levels(checkCount: nat, pending: nat)

  /** monitorSpeakerMic: the last check ends the chain, any other queues the next one. */
  function Check(l: Levels): Levels {
    if l.checkCount == MAX_TIME_LEVEL_DETECTION then Levels(0, l.pending) else Levels(l.checkCount + 1, l.pending + 1)
  }

  /** The message loop takes one MSG_MONITOR_LEVEL and runs the check. */
  function HandleLevel(l: Levels): Levels
    requires l.pending > 0
  {
    Check(l.(pending := l.pending - 1))
  }

  function DrainLevels(l: Levels, n: nat): Levels
    decreases n
  {
    if n == 0 || l.pending == 0 then l else DrainLevels(HandleLevel(l), n - 1)
  }

  /** The state n checks after Levels(c, p): the count runs through its 16 values, and each round uses up one message. */
  function LevelsAfter(c: nat, p: nat, n: nat): Levels
    requires c <= MAX_TIME_LEVEL_DETECTION && n <= ChecksLeft(c, p)
  {
    Levels((c + n) % ROUND, p - (c + n) / ROUND)
  }

  const ROUND: nat := MAX_TIME_LEVEL_DETECTION + 1

  function ChecksLeft(c: nat, p: nat): int {
    ROUND * p - c
  }

  lemma NextCheck(c: nat, p: nat, n: nat)
    requires c <= MAX_TIME_LEVEL_DETECTION && p > 0
    ensures var l := HandleLevel(Levels(c, p));
            && l.checkCount <= MAX_TIME_LEVEL_DETECTION
            && ChecksLeft(l.checkCount, l.pending) == ChecksLeft(c, p) - 1
            && (l.pending == 0 ==> l.checkCount == 0)
            && (n < ChecksLeft(c, p) ==> LevelsAfter(l.checkCount, l.pending, n) == LevelsAfter(c, p, n + 1))
  {
  }

  lemma {:induction false} ChecksRunDown(c: nat, p: nat, n: nat)
    requires c <= MAX_TIME_LEVEL_DETECTION && (p == 0 ==> c == 0)
    ensures n < ChecksLeft(c, p) ==>
              DrainLevels(Levels(c, p), n) == LevelsAfter(c, p, n) && LevelsAfter(c, p, n).pending > 0
    ensures n >= ChecksLeft(c, p) ==> DrainLevels(Levels(c, p), n) == Levels(0, 0)
    decreases n
  {
    if n > 0 && p > 0 {
      NextCheck(c, p, n - 1);
      var l := HandleLevel(Levels(c, p));
      assert DrainLevels(Levels(c, p), n) == DrainLevels(l, n - 1);
      hide DrainLevels, HandleLevel, LevelsAfter;
      ChecksRunDown(l.checkCount, l.pending, n - 1);
    }
  }

  /**
   * The queued messages make exactly the checks that are left; the last of each round of sixteen finds
   * the count at fifteen, and after the last round nothing is queued. A device operation that cleared
   * the queue leaves Levels(1, 1): fifteen checks.
   */
  lemma LevelChecksExactly(c: nat, p: nat, n: nat)
    requires c <= 15 && (p == 0 ==> c == 0)
    ensures n < 16 * p - c ==>
              (c + n) / 16 < p && DrainLevels(Levels(c, p), n) == Levels((c + n) % 16, p - (c + n) / 16)
    ensures n >= 16 * p - c ==> DrainLevels(Levels(c, p), n) == Levels(0, 0)
  {
    ChecksRunDown(c, p, n);
    hide DrainLevels;
  }

  // ---------- The manager's state ----------

  class LevelMonitor {
    var spk_decay_timer: int
    var mic_decay_timer: int
    var spkPending: nat      // queued MSG_START_SPK_MONITOR
    var micPending: nat      // queued MSG_START_MIC_MONITOR
    var levelPending: nat    // queued MSG_MONITOR_LEVEL
    var checkCount: nat

    ghost predicate Valid()
      reads this
    {
      Spk().Valid() && Mic().Valid() && checkCount <= MAX_TIME_LEVEL_DETECTION
    }

    ghost function Spk(): Chain
      reads this
    {
      Chain(spk_decay_timer, spkPending)
    }

    ghost function Mic(): Chain
      reads this
    {
      Chain(mic_decay_timer, micPending)
    }

    ghost function Level(): Levels
      reads this
    {
      Levels(checkCount, levelPending)
    }

    constructor ()
      ensures Valid() && Spk() == Mic() == Chain(0, 0) && Level() == Levels(0, 0)
    {
      spk_decay_timer, mic_decay_timer, spkPending, micPending, levelPending, checkCount := 0, 0, 0, 0, 0, 0;
    }

    method PostGetSpeakerVolLvl()
      requires Valid()
      modifies this`spk_decay_timer, this`spkPending
      ensures Valid() && Spk() == Poll(old(Spk()))
    {
      if spk_decay_timer == 0 {
        spk_decay_timer := DECAY_POLL_INTERVAL;
        spkPending := spkPending + 1;
      }
    }

    method PostGetMicVolLvl()
      requires Valid()
      modifies this`mic_decay_timer, this`micPending
      ensures Valid() && Mic() == Poll(old(Mic()))
    {
      if mic_decay_timer == 0 {
        mic_decay_timer := DECAY_POLL_INTERVAL;
        micPending := micPending + 1;
      }
    }

    method PostStopSpeakerVolume()
      requires Valid()
      modifies this`spk_decay_timer
      ensures Valid() && Spk() == Stop(old(Spk()))
    {
      spk_decay_timer := 0;
    }

    method PostStopMicVolume()
      requires Valid()
      modifies this`mic_decay_timer
      ensures Valid() && Mic() == Stop(old(Mic()))
    {
      mic_decay_timer := 0;
    }

    method GetSpeakerSettings()
      requires 0 <= spk_decay_timer && spk_decay_timer % POLL_INTERVAL == 0
      modifies this`spk_decay_timer, this`spkPending
      ensures Spk() == Settings(old(Spk()))
    {
      if spk_decay_timer != 0 {
        spkPending := spkPending + 1;
        spk_decay_timer := spk_decay_timer - POLL_INTERVAL;
      }
    }

    method GetMicSettings()
      requires 0 <= mic_decay_timer && mic_decay_timer % POLL_INTERVAL == 0
      modifies this`mic_decay_timer, this`micPending
      ensures Mic() == Settings(old(Mic()))
    {
      if mic_decay_timer != 0 {
        micPending := micPending + 1;
        mic_decay_timer := mic_decay_timer - POLL_INTERVAL;
      }
    }

    /** The MSG_START_SPK_MONITOR case: each message lowers what is owed by exactly one. */
    method HandleSpkMonitor()
      requires Valid() && spkPending > 0
      modifies this`spk_decay_timer, this`spkPending
      ensures Valid() && Spk() == Handle(old(Spk())) && Spk().Rank() == old(Spk().Rank()) - 1
    {
      StepConserves(Spk(), HandleOp);
      spkPending := spkPending - 1;
      GetSpeakerSettings();
    }

    method HandleMicMonitor()
      requires Valid() && micPending > 0
      modifies this`mic_decay_timer, this`micPending
      ensures Valid() && Mic() == Handle(old(Mic())) && Mic().Rank() == old(Mic().Rank()) - 1
    {
      StepConserves(Mic(), HandleOp);
      micPending := micPending - 1;
      GetMicSettings();
    }

    method PlatformPreDeviceOperation()
      requires Valid()
      modifies this
      ensures Valid() && Spk() == Clear(old(Spk())) && Mic() == Clear(old(Mic()))
      ensures Level() == old(Level()).(pending := 0)
    {
      micPending := 0;
      mic_decay_timer := 0;
      spkPending := 0;
      spk_decay_timer := 0;
      levelPending := 0;
    }

    /** A check that finds the count at its maximum arms both pollers and ends the chain; others go on with it. */
    method MonitorSpeakerMic()
      requires Valid()
      modifies this
      ensures Valid() && Level() == Check(old(Level()))
      ensures if old(checkCount) == 15
              then Spk() == Arm(old(Spk())) && Mic() == Arm(old(Mic()))
              else Spk() == old(Spk()) && Mic() == old(Mic())
    {
      StepConserves(Spk(), ArmOp);
      StepConserves(Mic(), ArmOp);
      if MAX_TIME_LEVEL_DETECTION == checkCount {
        if spk_decay_timer == 0 {
          spk_decay_timer := DECAY_POLL_INTERVAL;
          GetSpeakerSettings();
        }
        if mic_decay_timer == 0 {
          mic_decay_timer := DECAY_POLL_INTERVAL;
          GetMicSettings();
        }
        checkCount := 0;
      } else {
        checkCount := checkCount + 1;
        levelPending := levelPending + 1;
      }
    }

    /** The MSG_MONITOR_LEVEL case. */
    method HandleMonitorLevel()
      requires Valid() && levelPending > 0
      modifies this
      ensures Valid() && Level() == HandleLevel(old(Level()))
      ensures if old(checkCount) == 15
              then Spk() == Arm(old(Spk())) && Mic() == Arm(old(Mic()))
              else Spk() == old(Spk()) && Mic() == old(Mic())
    {
      levelPending := levelPending - 1;
      MonitorSpeakerMic();
    }

    /** After platformPreDeviceOperation this leaves one message, and with it fifteen checks, to come. */
    method PlatformPostDeviceOperation()
      requires Valid()
      modifies this
      ensures Valid() && Spk() == old(Spk()) && Mic() == old(Mic())
      ensures Level() == Levels(1, old(levelPending) + 1)
    {
      checkCount := 0;
      MonitorSpeakerMic();
    }
  }
}
