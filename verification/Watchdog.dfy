/**
 The dark-port watchdog: one pass per timer fire, with a state file between passes. A pass
 probes the port, counts dark probes, starts the unit once enough were seen, and then holds
 off further starts for a cooldown.
 */
module Watchdog {
  import opened Base

  datatype Status = Alive | Hung | Dark

  // A JSON string field: a time the date parser reads, another non-empty text, or the empty text.
  datatype Stamp = At(ms: int) | Unreadable | Empty

  // The state file's JSON: unparseable, or the fields the parser looks at. None: absent or of
  // another type (for the count also: not finite).
  datatype Content = Corrupt | Fields(count: Option<int>, firstDarkAt: Option<Stamp>, lastRecoveryAt: Option<Stamp>)

  datatype DarkState = DarkState(count: int, firstDarkAt: Stamp, lastRecoveryAt: Option<Stamp>)

  datatype Config = Config(confirmProbes: int, cooldownS: int)

  // What one pass may meet: its probe, its clock reads in order, whether the start command
  // succeeds, and the probe after it.
  datatype Fire = Fire(probe: Status, firstAt: int, checkedAt: int, starts: bool, attemptedAt: int, followUp: Status)

  datatype Outcome =
    | NoActionAlive
    | NoActionHung
    | Counted(count: int)
    | Suppressed(count: int)
    | Restarted(count: int, recovered: bool)
    | RestartFailed(count: int)

  function ParseState(file: Option<Content>): Option<DarkState> {
    if file.None? || file.value.Corrupt? || file.value.count.None? then None
    else
      var f := file.value;
      Some(DarkState(f.count.value, if f.firstDarkAt.Some? then f.firstDarkAt.value else At(0), f.lastRecoveryAt))
  }

  function Print(s: DarkState): Option<Content> {
    Some(Fields(Some(s.count), Some(s.firstDarkAt), s.lastRecoveryAt))
  }

  // The empty text counts as no time at all.
  function Truthy(last: Option<Stamp>): Option<Stamp> {
    if last == Some(Empty) then None else last
  }

  function LastOf(previous: Option<DarkState>): Option<Stamp> {
    if previous.Some? then Truthy(previous.value.lastRecoveryAt) else None
  }

  predicate InCooldown(c: Config, last: Option<Stamp>, now: int) {
    last.Some? && last.value.At? && now - last.value.ms < c.cooldownS * 1000
  }

  function CountState(previous: Option<DarkState>, f: Fire): DarkState {
    DarkState(if previous.Some? then previous.value.count + 1 else 1,
              if previous.Some? then previous.value.firstDarkAt else At(f.firstAt),
              LastOf(previous))
  }

  datatype Result = Result(file: Option<Content>, outcome: Outcome)

  function Pass(c: Config, file: Option<Content>, f: Fire): Result {
    match f.probe
    case Alive => Result(None, NoActionAlive)
    case Hung => Result(file, NoActionHung)
    case Dark =>
      var counted := CountState(ParseState(file), f);
      if counted.count < c.confirmProbes then Result(Print(counted), Counted(counted.count))
      else if InCooldown(c, counted.lastRecoveryAt, f.checkedAt) then Result(Print(counted), Suppressed(counted.count))
      else if !f.starts then Result(Print(counted), RestartFailed(counted.count))
      else if f.followUp.Alive? then Result(None, Restarted(counted.count, true))
      else Result(Print(counted.(lastRecoveryAt := Some(At(f.attemptedAt)))), Restarted(counted.count, false))
  }

  class Recovery {
    const config: Config
    var stateFile: Option<Content>

    constructor (config: Config, stateFile: Option<Content>)
      ensures this.config == config && this.stateFile == stateFile
    {
      this.config := config;
      this.stateFile := stateFile;
    }

    method RunWatchdogRecovery(f: Fire) returns (outcome: Outcome)
      modifies this
      ensures Result(stateFile, outcome) == Pass(config, old(stateFile), f)
    {
      if f.probe.Alive? {
        stateFile := None;
        return NoActionAlive;
      }
      if f.probe.Hung? {
        return NoActionHung;
      }
      var previous := ParseState(stateFile);
      var count := (if previous.Some? then previous.value.count else 0) + 1;
      var firstDarkAt := if previous.Some? then previous.value.firstDarkAt else At(f.firstAt);
      stateFile := Print(DarkState(count, firstDarkAt, LastOf(previous)));
      if count < config.confirmProbes {
        return Counted(count);
      }
      var lastRecoveryAt := LastOf(previous);
      if lastRecoveryAt.Some? {
        if lastRecoveryAt.value.At? && f.checkedAt - lastRecoveryAt.value.ms < config.cooldownS * 1000 {
          return Suppressed(count);
        }
      }
      if !f.starts {
        return RestartFailed(count);
      }
      stateFile := Print(DarkState(count, firstDarkAt, Some(At(f.attemptedAt))));
      if f.followUp.Alive? {
        stateFile := None;
        return Restarted(count, true);
      }
      outcome := Restarted(count, false);
    }
  }

  // ---------------------------------------------------------------------------
  // Runs
  // ---------------------------------------------------------------------------

  function FileAfter(c: Config, file: Option<Content>, fires: seq<Fire>): Option<Content> {
    if fires == [] then file
    else Pass(c, FileAfter(c, file, fires[..|fires| - 1]), fires[|fires| - 1]).file
  }

  function LastOutcome(c: Config, file: Option<Content>, fires: seq<Fire>): Outcome
    requires fires != []
  {
    Pass(c, FileAfter(c, file, fires[..|fires| - 1]), fires[|fires| - 1]).outcome
  }

  // A pass saw the port alive, at its probe or after its start.
  predicate SawAlive(o: Outcome) {
    o.NoActionAlive? || (o.Restarted? && o.recovered)
  }

  // Dark probes since the port was last seen alive.
  function DarkStreak(c: Config, file: Option<Content>, fires: seq<Fire>): nat {
    if fires == [] || SawAlive(LastOutcome(c, file, fires)) then 0
    else DarkStreak(c, file, fires[..|fires| - 1]) + if fires[|fires| - 1].probe.Dark? then 1 else 0
  }

  // When the unit was started, successfully, since the port was last seen alive.
  function StartTimes(c: Config, file: Option<Content>, fires: seq<Fire>): seq<int> {
    if fires == [] || SawAlive(LastOutcome(c, file, fires)) then []
    else
      StartTimes(c, file, fires[..|fires| - 1]) +
      if LastOutcome(c, file, fires).Restarted? then [fires[|fires| - 1].attemptedAt] else []
  }

  predicate Ordered(f: Fire) {
    f.firstAt <= f.checkedAt <= f.attemptedAt
  }

  // The clock does not run backwards, within a pass or between passes.
  ghost predicate Monotone(fires: seq<Fire>) {
    && (forall i | 0 <= i < |fires| :: Ordered(fires[i]))
    && (forall i, j | 0 <= i < j < |fires| :: fires[i].attemptedAt <= fires[j].firstAt)
  }

  // There was no state file, or some pass has seen the port alive since.
  predicate Settled(c: Config, file: Option<Content>, fires: seq<Fire>) {
    if fires == [] then file.None?
    else SawAlive(LastOutcome(c, file, fires)) || Settled(c, file, fires[..|fires| - 1])
  }

  /** The file then holds exactly the dark streak; there is none without one. */
  lemma {:induction false} StoredCountIsStreak(c: Config, file: Option<Content>, fires: seq<Fire>)
    requires Settled(c, file, fires)
    ensures var now, streak := FileAfter(c, file, fires), DarkStreak(c, file, fires);
            && (now.None? <==> streak == 0)
            && (streak > 0 ==> ParseState(now).Some? && ParseState(now).value.count == streak)
  {
    if fires != [] && !SawAlive(LastOutcome(c, file, fires)) {
      StoredCountIsStreak(c, file, fires[..|fires| - 1]);
    }
  }

  // The count a state file starts from.
  function CountIn(file: Option<Content>): int {
    if ParseState(file).Some? then ParseState(file).value.count else 0
  }

  /** A leftover file, until the port is seen alive, counts on from its own number. */
  lemma {:induction false} LeftoverCountsOn(c: Config, file: Option<Content>, fires: seq<Fire>)
    requires !Settled(c, file, fires)
    ensures var now, streak := FileAfter(c, file, fires), DarkStreak(c, file, fires);
            if streak == 0 then now == file
            else ParseState(now).Some? && CountIn(now) == CountIn(file) + streak
  {
    if fires != [] {
      LeftoverCountsOn(c, file, fires[..|fires| - 1]);
    }
  }

  /** A start, successful or not, is only issued after enough dark probes without an alive one. */
  lemma StartsAreConfirmed(c: Config, file: Option<Content>, fires: seq<Fire>)
    requires fires != [] && Settled(c, file, fires[..|fires| - 1])
    requires LastOutcome(c, file, fires).Restarted? || LastOutcome(c, file, fires).RestartFailed?
    ensures DarkStreak(c, file, fires[..|fires| - 1]) + 1 >= c.confirmProbes
    ensures LastOutcome(c, file, fires).count == DarkStreak(c, file, fires[..|fires| - 1]) + 1
  {
    StoredCountIsStreak(c, file, fires[..|fires| - 1]);
  }

  // The run without its hung passes.
  function WithoutHung(fires: seq<Fire>): seq<Fire> {
    if fires == [] then []
    else WithoutHung(fires[..|fires| - 1]) + if fires[|fires| - 1].probe.Hung? then [] else [fires[|fires| - 1]]
  }

  // One more pass.
  lemma RunOn(c: Config, file: Option<Content>, front: seq<Fire>, f: Fire)
    ensures var res, fires := Pass(c, FileAfter(c, file, front), f), front + [f];
            && FileAfter(c, file, fires) == res.file && LastOutcome(c, file, fires) == res.outcome
            && DarkStreak(c, file, fires) == (if SawAlive(res.outcome) then 0
                 else DarkStreak(c, file, front) + if f.probe.Dark? then 1 else 0)
            && StartTimes(c, file, fires) == (if SawAlive(res.outcome) then []
                 else StartTimes(c, file, front) + if res.outcome.Restarted? then [f.attemptedAt] else [])
  {
    assert (front + [f])[..|front|] == front;
  }

  /** Passes that find the port hung, wherever they fall in a run, change nothing at all. */
  lemma {:induction false} HungChangesNothing(c: Config, file: Option<Content>, fires: seq<Fire>)
    ensures FileAfter(c, file, WithoutHung(fires)) == FileAfter(c, file, fires)
    ensures DarkStreak(c, file, WithoutHung(fires)) == DarkStreak(c, file, fires)
    ensures StartTimes(c, file, WithoutHung(fires)) == StartTimes(c, file, fires)
  {
    if fires != [] {
      var front, f := fires[..|fires| - 1], fires[|fires| - 1];
      var kept := WithoutHung(front);
      HungChangesNothing(c, file, front);
      RunOn(c, file, front, f);
      RunOn(c, file, kept, f);
      assert fires == front + [f];
      assert WithoutHung(fires) == if f.probe.Hung? then kept else kept + [f];
    }
  }

  // The file remembers the latest of the start times.
  lemma {:induction false} FileHoldsLastStart(c: Config, file: Option<Content>, fires: seq<Fire>)
    ensures var times := StartTimes(c, file, fires);
            times != [] ==>
              && ParseState(FileAfter(c, file, fires)).Some?
              && ParseState(FileAfter(c, file, fires)).value.lastRecoveryAt == Some(At(times[|times| - 1]))
  {
    if fires != [] {
      FileHoldsLastStart(c, file, fires[..|fires| - 1]);
    }
  }

  lemma {:induction false} StartTimesBefore(c: Config, file: Option<Content>, fires: seq<Fire>, later: int)
    requires forall i | 0 <= i < |fires| :: fires[i].attemptedAt <= later
    ensures forall t | t in StartTimes(c, file, fires) :: t <= later
  {
    if fires != [] {
      StartTimesBefore(c, file, fires[..|fires| - 1], later);
    }
  }

  /**
   Whatever the state file held at first, and whatever the probes, clocks and start commands
   do: two successful starts without an alive port between them are at least the cooldown
   apart.
   */
  lemma {:induction false} StartsAreSpaced(c: Config, file: Option<Content>, fires: seq<Fire>)
    requires Monotone(fires)
    ensures var times := StartTimes(c, file, fires);
            forall i | 0 <= i < |times| - 1 :: times[i + 1] - times[i] >= c.cooldownS * 1000
  {
    if fires != [] {
      var front := fires[..|fires| - 1];
      StartsAreSpaced(c, file, front);
      FileHoldsLastStart(c, file, front);
    }
  }

  /** Hence few starts fit into any stretch of time without an alive port. */
  lemma {:induction false} StartsInWindow(c: Config, file: Option<Content>, fires: seq<Fire>, i: nat, j: nat)
    requires Monotone(fires) && i <= j < |StartTimes(c, file, fires)|
    ensures var times := StartTimes(c, file, fires);
            times[j] - times[i] >= (j - i) * (c.cooldownS * 1000)
    decreases j
  {
    if i < j {
      StartsAreSpaced(c, file, fires);
      StartsInWindow(c, file, fires, i, j - 1);
      var times, d := StartTimes(c, file, fires), c.cooldownS * 1000;
      assert times[j - 1 + 1] - times[j - 1] >= d;
      assert (j - i) * d == (j - 1 - i) * d + d;
    }
  }

  /**
   What a dark pass does, in terms of the run before it: it counts until enough dark probes were
   seen; then it holds off exactly while the cooldown of the latest start lasts; otherwise it
   starts the unit.
   */
  lemma DarkPassDecides(c: Config, file: Option<Content>, front: seq<Fire>, f: Fire)
    requires Settled(c, file, front) && f.probe.Dark?
    ensures var n, times := DarkStreak(c, file, front) + 1, StartTimes(c, file, front);
            var held := times != [] && f.checkedAt - times[|times| - 1] < c.cooldownS * 1000;
            LastOutcome(c, file, front + [f]) ==
            if n < c.confirmProbes then Counted(n)
            else if held then Suppressed(n)
            else if !f.starts then RestartFailed(n)
            else Restarted(n, f.followUp.Alive?)
  {
    RunOn(c, file, front, f);
    StoredCountIsStreak(c, file, front);
    FileHoldsLastStart(c, file, front);
    if StartTimes(c, file, front) == [] {
      NoTimesNoCooldown(c, file, front);
    }
  }

  // A pass that finds the port alive or hung reports just that.
  lemma OtherPassDecides(c: Config, file: Option<Content>, front: seq<Fire>, f: Fire)
    requires !f.probe.Dark?
    ensures LastOutcome(c, file, front + [f]) == if f.probe.Alive? then NoActionAlive else NoActionHung
  {
    RunOn(c, file, front, f);
  }

  lemma {:induction false} NoTimesNoCooldown(c: Config, file: Option<Content>, fires: seq<Fire>)
    requires Settled(c, file, fires) && StartTimes(c, file, fires) == []
    ensures LastOf(ParseState(FileAfter(c, file, fires))) == None
  {
    if fires != [] && !SawAlive(LastOutcome(c, file, fires)) {
      NoTimesNoCooldown(c, file, fires[..|fires| - 1]);
    }
  }

  // When the current dark streak began.
  function StreakStart(c: Config, file: Option<Content>, fires: seq<Fire>): Option<int> {
    if fires == [] || SawAlive(LastOutcome(c, file, fires)) then None
    else
      var earlier := StreakStart(c, file, fires[..|fires| - 1]);
      if earlier.None? && fires[|fires| - 1].probe.Dark? then Some(fires[|fires| - 1].firstAt) else earlier
  }

  /** The file remembers when the streak began. */
  lemma {:induction false} StoredStartOfStreak(c: Config, file: Option<Content>, fires: seq<Fire>)
    requires Settled(c, file, fires)
    ensures var now, start := FileAfter(c, file, fires), StreakStart(c, file, fires);
            && (start.None? <==> now.None?)
            && (start.Some? ==> ParseState(now).Some? && ParseState(now).value.firstDarkAt == At(start.value))
  {
    if fires != [] && !SawAlive(LastOutcome(c, file, fires)) {
      StoredStartOfStreak(c, file, fires[..|fires| - 1]);
    }
  }

  /**
   A leftover file counts on, and holds a confirmed dark pass off only by a readable, recent
   enough time.
   */
  lemma LeftoverDecides(c: Config, n: int, first: Option<Stamp>, last: Option<Stamp>, f: Fire)
    requires f.probe.Dark? && n + 1 >= c.confirmProbes
    ensures var o := LastOutcome(c, Some(Fields(Some(n), first, last)), [f]);
            && !o.NoActionAlive? && !o.NoActionHung? && o.count == n + 1
            && (o.Suppressed? <==> exists ms :: last == Some(At(ms)) && f.checkedAt - ms < c.cooldownS * 1000)
  {
    assert [f][..0] == [];
    if last.Some? && last.value.At? {
      assert last == Some(At(last.value.ms));
    }
  }

  /** An unreadable file, or one without a count, is as good as none. */
  lemma UnreadableIsAbsent(c: Config, file: Option<Content>, f: Fire)
    requires file == Some(Corrupt) || (file.Some? && file.value.Fields? && file.value.count.None?)
    requires f.probe.Dark?
    ensures FileAfter(c, file, [f]) == FileAfter(c, None, [f]) && LastOutcome(c, file, [f]) == LastOutcome(c, None, [f])
  {
    assert [f][..0] == [];
  }

  // No start succeeds: no cooldown is ever recorded.
  lemma {:induction false} NoStartNoCooldown(c: Config, file: Option<Content>, fires: seq<Fire>)
    requires Settled(c, file, fires) && forall i | 0 <= i < |fires| :: !fires[i].starts
    ensures LastOf(ParseState(FileAfter(c, file, fires))) == None
  {
    if fires != [] && !SawAlive(LastOutcome(c, file, fires)) {
      NoStartNoCooldown(c, file, fires[..|fires| - 1]);
    }
  }

  /**
   While the start command keeps failing, every dark pass from the confirming one on tries
   again: failures never buy a cooldown.
   */
  lemma FailuresAreRetried(c: Config, file: Option<Content>, fires: seq<Fire>)
    requires fires != [] && fires[|fires| - 1].probe.Dark? && Settled(c, file, fires[..|fires| - 1])
    requires forall i | 0 <= i < |fires| :: !fires[i].starts
    ensures LastOutcome(c, file, fires) ==
            var n := DarkStreak(c, file, fires);
            if n < c.confirmProbes then Counted(n) else RestartFailed(n)
  {
    var front := fires[..|fires| - 1];
    NoStartNoCooldown(c, file, front);
    StoredCountIsStreak(c, file, front);
  }
}
