/** Reindex calls and background runs of any instances, interleaved at every change of
    the shared status map (internal/service/index.go). */
module Runs {
  import opened Indexer

  /** Between Reindex marking a run and the goroutine starting, a run is Pending. */
  datatype Phase = Pending | Working | Finished

  /** What became of an emission, and the chunks stored for it if it was written. */
  datatype Fate = Fate(outcome: Outcome, chunks: nat)

  /** A background run: what it has added to the counters so far, the emissions it is
      done with, and whether one is under way. */
  datatype Run = Run(inst: string, phase: Phase, tally: Counts, fates: seq<Fate>, emitting: bool)

  /** A status record, and which run it was made for. */
  datatype Status = Status(running: bool, counts: Counts, run: nat)

  datatype Sys = Sys(status: map<string, Status>, runs: seq<Run>)

  const INIT := Sys(map[], [])

  /** AddItem begins an emission.  AddOutcome ends it: addEmptyText, addSkipped,
      addFailed, addChunks, or nothing for a text without chunks. */
  datatype Step =
    | Reindex(inst: string)
    | Launch(i: nat)
    | AddItem(i: nat)
    | AddOutcome(i: nat, fate: Fate)
    | AddPruned(i: nat)
    | Finish(i: nat)

  predicate Enabled(s: Sys, step: Step) {
    match step
    case Reindex(_) => true
    case Launch(i) => i < |s.runs| && s.runs[i].phase.Pending?
    case AddItem(i) => i < |s.runs| && s.runs[i].phase.Working? && !s.runs[i].emitting
    case AddOutcome(i, _) => i < |s.runs| && s.runs[i].phase.Working? && s.runs[i].emitting
    case AddPruned(i) => i < |s.runs| && s.runs[i].phase.Working? && !s.runs[i].emitting
    case Finish(i) => i < |s.runs| && s.runs[i].phase.Working? && !s.runs[i].emitting
  }

  predicate Running(s: Sys, inst: string) {
    inst in s.status && s.status[inst].running
  }

  /** A run's counter update: it goes to whatever status its instance has then. */
  ghost function Bump(s: Sys, i: nat, r: Run, f: Counts -> Counts): Sys
    requires i < |s.runs|
  {
    Sys(if r.inst in s.status then s.status[r.inst := s.status[r.inst].(counts := f(s.status[r.inst].counts))] else s.status,
        s.runs[i := r.(tally := f(r.tally))])
  }

  ghost function Next(s: Sys, step: Step): Sys
    requires Enabled(s, step)
  {
    match step
    case Reindex(inst) =>
      if Running(s, inst) then s
      else Sys(s.status[inst := Status(true, NOTHING, |s.runs|)], s.runs + [Run(inst, Pending, NOTHING, [], false)])
    case Launch(i) => s.(runs := s.runs[i := s.runs[i].(phase := Working)])
    case AddItem(i) => Bump(s, i, s.runs[i].(emitting := true), (c: Counts) => c.(items := c.items + 1))
    case AddOutcome(i, f) =>
      Bump(s, i, s.runs[i].(emitting := false, fates := s.runs[i].fates + [f]), c => Tally(c, f.outcome, f.chunks))
    case AddPruned(i) => Bump(s, i, s.runs[i], (c: Counts) => c.(pruned := c.pruned + 1))
    case Finish(i) =>
      var r := s.runs[i];
      Sys(if r.inst in s.status then s.status[r.inst := s.status[r.inst].(running := false)] else s.status,
          s.runs[i := r.(phase := Finished)])
  }

  ghost function Count(fates: seq<Fate>, o: Outcome): nat {
    if fates == [] then 0
    else Count(fates[..|fates| - 1], o) + if fates[|fates| - 1].outcome == o then 1 else 0
  }

  /** The chunks stored for the emissions that were written. */
  ghost function Stored(fates: seq<Fate>): nat {
    if fates == [] then 0
    else Stored(fates[..|fates| - 1]) + if fates[|fates| - 1].outcome.Written? then fates[|fates| - 1].chunks else 0
  }

  /** A run's tally adds up, counting the emission under way. */
  ghost predicate AddsUp(r: Run) {
    && r.tally.items == |r.fates| + (if r.emitting then 1 else 0)
    && r.tally.skipped == Count(r.fates, Skipped) && r.tally.emptyText == Count(r.fates, EmptyText)
    && r.tally.failed == Count(r.fates, Failed) && r.tally.chunks == Stored(r.fates)
    && (r.emitting ==> r.phase.Working?)
  }

  /** Each status is that of its instance's newest run; every older run has finished;
      every run's tally adds up. */
  ghost predicate Inv(s: Sys) {
    && (forall inst :: inst in s.status ==>
          var st := s.status[inst];
          && st.run < |s.runs| && s.runs[st.run].inst == inst && st.counts == s.runs[st.run].tally
          && (st.running <==> !s.runs[st.run].phase.Finished?))
    && (forall i :: 0 <= i < |s.runs| ==>
          && s.runs[i].inst in s.status && i <= s.status[s.runs[i].inst].run
          && (!s.runs[i].phase.Finished? ==> s.status[s.runs[i].inst].run == i))
    && (forall i :: 0 <= i < |s.runs| ==> AddsUp(s.runs[i]))
  }

  /** An unfinished run writes to its own record only. */
  lemma OwnRecord(s: Sys, s': Sys, i: nat, r: Run, st: Status)
    requires Inv(s) && i < |s.runs| && !s.runs[i].phase.Finished? && r.inst == s.runs[i].inst
    requires s'.runs == s.runs[i := r] && s'.status == s.status[r.inst := st]
    requires st.run == i && st.counts == r.tally && (st.running <==> !r.phase.Finished?) && AddsUp(r)
    ensures Inv(s')
  {
    hide AddsUp;
  }

  lemma ReindexKeepsInv(s: Sys, inst: string)
    requires Inv(s)
    ensures Inv(Next(s, Reindex(inst)))
  {
    hide AddsUp;
    NothingAddsUp(inst);
  }

  lemma NothingAddsUp(inst: string)
    ensures AddsUp(Run(inst, Pending, NOTHING, [], false))
  {
  }

  /** Every step of a run keeps its tally adding up. */
  lemma StepAddsUp(s: Sys, step: Step)
    requires Enabled(s, step) && !step.Reindex? && AddsUp(s.runs[step.i])
    ensures AddsUp(Next(s, step).runs[step.i])
  {
    if step.AddOutcome? {
      assert (s.runs[step.i].fates + [step.fate])[..|s.runs[step.i].fates|] == s.runs[step.i].fates;
    }
  }

  lemma StepKeepsInv(s: Sys, step: Step)
    requires Inv(s) && Enabled(s, step)
    ensures Inv(Next(s, step))
  {
    if step.Reindex? {
      ReindexKeepsInv(s, step.inst);
    } else {
      hide Tally, Inv, AddsUp;
      OwnsRecord(s, step.i);
      StepAddsUp(s, step);
      var inst, s' := s.runs[step.i].inst, Next(s, step);
      assert s.status[inst := s.status[inst]] == s.status;
      OwnRecord(s, s', step.i, s'.runs[step.i], s'.status[inst]);
    }
  }

  lemma OwnsRecord(s: Sys, i: nat)
    requires Inv(s) && i < |s.runs| && !s.runs[i].phase.Finished?
    ensures var inst := s.runs[i].inst;
            inst in s.status && s.status[inst].run == i && s.status[inst].running && s.status[inst].counts == s.runs[i].tally
            && AddsUp(s.runs[i])
  {
    hide AddsUp;
  }

  ghost predicate Behaviour(ss: seq<Sys>, steps: seq<Step>) {
    && |ss| == |steps| + 1 && ss[0] == INIT
    && forall n :: 0 <= n < |steps| ==> Enabled(ss[n], steps[n]) && ss[n + 1] == Next(ss[n], steps[n])
  }

  lemma {:induction false} InvForever(ss: seq<Sys>, steps: seq<Step>, n: nat)
    requires Behaviour(ss, steps) && n < |ss|
    ensures Inv(ss[n])
  {
    hide Next, Inv;
    if n == 0 {
      InitOk();
    } else {
      InvForever(ss, steps, n - 1);
      StepKeepsInv(ss[n - 1], steps[n - 1]);
    }
  }

  lemma InitOk()
    ensures Inv(INIT)
  {
  }

  /** In every interleaving at most one run of an instance is unfinished. */
  lemma AtMostOneRun(ss: seq<Sys>, steps: seq<Step>, n: nat, i: nat, j: nat)
    requires Behaviour(ss, steps) && n < |ss| && i < |ss[n].runs| && j < |ss[n].runs|
    requires !ss[n].runs[i].phase.Finished? && !ss[n].runs[j].phase.Finished?
    requires ss[n].runs[i].inst == ss[n].runs[j].inst
    ensures i == j
  {
    InvForever(ss, steps, n);
  }

  /** Running is true exactly while a run of the instance is unfinished. */
  lemma RunningMeansUnfinished(ss: seq<Sys>, steps: seq<Step>, n: nat, inst: string)
    requires Behaviour(ss, steps) && n < |ss|
    ensures Running(ss[n], inst)
       <==> exists i :: 0 <= i < |ss[n].runs| && ss[n].runs[i].inst == inst && !ss[n].runs[i].phase.Finished?
  {
    InvForever(ss, steps, n);
  }

  /** The counters an instance shows are those of its newest run alone: no other run,
      of this or another instance, ever adds to them. */
  lemma CountersAreOneRuns(ss: seq<Sys>, steps: seq<Step>, n: nat, i: nat)
    requires Behaviour(ss, steps) && n < |ss| && i < |ss[n].runs|
    requires forall j :: i < j < |ss[n].runs| ==> ss[n].runs[j].inst != ss[n].runs[i].inst
    ensures ss[n].runs[i].inst in ss[n].status
    ensures ss[n].status[ss[n].runs[i].inst].counts == ss[n].runs[i].tally
  {
    InvForever(ss, steps, n);
  }

  lemma {:induction false} OutcomesPartition(fates: seq<Fate>)
    ensures |fates| == Count(fates, Skipped) + Count(fates, EmptyText) + Count(fates, Failed)
                       + Count(fates, Written) + Count(fates, Chunkless)
  {
    if fates != [] { OutcomesPartition(fates[..|fates| - 1]); }
  }

  /** In every interleaving, when a run has finished its items are those skipped, empty,
      failed, written and chunked to nothing, and its chunk count is the chunks stored
      for the written ones. */
  lemma FinishedRunsAddUp(ss: seq<Sys>, steps: seq<Step>, n: nat, i: nat)
    requires Behaviour(ss, steps) && n < |ss| && i < |ss[n].runs| && ss[n].runs[i].phase.Finished?
    ensures var c, fates := ss[n].runs[i].tally, ss[n].runs[i].fates;
            && c.items == c.skipped + c.emptyText + c.failed + Count(fates, Written) + Count(fates, Chunkless)
            && c.skipped == Count(fates, Skipped) && c.emptyText == Count(fates, EmptyText)
            && c.failed == Count(fates, Failed) && c.chunks == Stored(fates)
  {
    InvForever(ss, steps, n);
    OutcomesPartition(ss[n].runs[i].fates);
  }
}
