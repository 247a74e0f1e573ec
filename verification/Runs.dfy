/** Whole runs of the simulator, from an empty memory to the statistics printed at the end. */
module Runs {
  import opened Trace
  import opened VirtualMemory
  import opened Schedules
  import opened Belady
  import opened Conservative
  import opened Accounting
  import opened Simulator

  ghost function StatisticsOf(memory: Memory): Statistics {
    Statistics(memory.accesses, memory.faults, memory.writes, memory.output)
  }

  /** What the statistics say of the trace: an access for each line, and another while `M` is in force; an outcome for
      each branch run; a fault for each outcome that is no hit; and a write for each dirty eviction. */
  ghost predicate AddsUp(lines: seq<Line>, result: Statistics) {
    var printed := multiset(result.output);
    && result.accesses == |lines| + ModifyLines(lines, |lines|)
    && |result.output| == BranchesRun(lines, |lines|)
    && result.faults == |result.output| - printed[Outcome.Hit]
    && result.writes == printed[EvictDirty]
  }

  lemma NoScheduleBeatsOpt(n: Positive, lines: seq<Line>)
    ensures forall m: nat, schedule :: m <= n && IsSchedule(Listed(lines), m, schedule) ==>
              Faults(Opt, n, lines) <= ScheduleFaults(Listed(lines), schedule, 0, |lines|)
  {
    forall m: nat, schedule | m <= n && IsSchedule(Listed(lines), m, schedule)
      ensures Faults(Opt, n, lines) <= ScheduleFaults(Listed(lines), schedule, 0, |lines|)
    {
      OptIsOptimal(n, m, lines, schedule);
    }
  }

  lemma ClockIsWithinFactor(n: Positive, lines: seq<Line>)
    ensures forall schedule :: IsSchedule(Listed(lines), n, schedule) ==>
              Faults(Clock, n, lines) <= n * ScheduleFaults(Listed(lines), schedule, 0, |lines|)
  {
    forall schedule | IsSchedule(Listed(lines), n, schedule)
      ensures Faults(Clock, n, lines) <= n * ScheduleFaults(Listed(lines), schedule, 0, |lines|)
    {
      ClockIsCompetitive(n, lines, schedule);
    }
  }

  /** `opt`: no schedule in as many frames or fewer that serves every line faults less. */
  method RunOpt(nFrames: Positive, lines: seq<Line>) returns (result: Statistics)
    requires InTable(lines)
    ensures result == StatisticsOf(After(Opt, nFrames, lines, |lines|)) && AddsUp(lines, result)
    ensures forall m: nat, schedule :: m <= nFrames && IsSchedule(Listed(lines), m, schedule) ==>
              result.faults <= ScheduleFaults(Listed(lines), schedule, 0, |lines|)
  {
    var simulation := new Simulation(nFrames);
    RunAddsUp(Opt, nFrames, lines);
    ghost var run := RunThrough(Opt, nFrames, lines, |lines|);
    simulation.TraceByOpt(lines, run);
    result := simulation.Report();
    NoScheduleBeatsOpt(nFrames, lines);
  }

  /** `clock`: no schedule in as many frames that serves every line faults less than a share of one in `nFrames`. */
  method RunClock(nFrames: Positive, lines: seq<Line>) returns (result: Statistics)
    requires InTable(lines)
    ensures result == StatisticsOf(After(Clock, nFrames, lines, |lines|)) && AddsUp(lines, result)
    ensures forall schedule :: IsSchedule(Listed(lines), nFrames, schedule) ==>
              result.faults <= nFrames * ScheduleFaults(Listed(lines), schedule, 0, |lines|)
  {
    var simulation := new Simulation(nFrames);
    RunAddsUp(Clock, nFrames, lines);
    ghost var run := RunThrough(Clock, nFrames, lines, |lines|);
    simulation.TraceByClock(lines, run);
    result := simulation.Report();
    ClockIsWithinFactor(nFrames, lines);
  }

  /** `nru`. */
  method RunNru(nFrames: Positive, refresh: Positive, lines: seq<Line>) returns (result: Statistics)
    requires InTable(lines)
    ensures result == StatisticsOf(After(Nru(refresh), nFrames, lines, |lines|)) && AddsUp(lines, result)
  {
    var simulation := new Simulation(nFrames);
    RunAddsUp(Nru(refresh), nFrames, lines);
    ghost var run := RunThrough(Nru(refresh), nFrames, lines, |lines|);
    simulation.TraceByNru(refresh, lines, run);
    result := simulation.Report();
  }
}
