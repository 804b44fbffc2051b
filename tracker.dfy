/**
 * The per-cycle decision for each sampled `dotnet` process and the "already
 * alerted" set it maintains, stated as functions. Step is the body of the
 * `foreach`, Cycle one pass over the processes sampled in a cycle, Session a
 * finite run of cycles of the endless polling loop. The imperative loop in
 * module Monitor is proved equal to Cycle; the lemmas below say what Cycle
 * and Session do to each process id.
 */
module Tracker {
  import opened MemoryLimit

  /**
   * One process as sampled this cycle: its id, its private memory in bytes,
   * and the verdict the worker probe gives for it
   * (WorkerProbe.IsRoslynWorker on the output of the command-line query for
   * that id). The loop consults the verdict only when the process is over
   * the limit; each consultation is a ProbeCommandLine event.
   */
  datatype Sample = Sample(id: int, privateMemory: int64, isWorker: bool)

  /**
   * The two settings the monitor takes from its command line that matter to a
   * cycle. The third, `checkDelayInMs`, only paces the loop and is left out.
   */
  datatype Config = Config(limitInGb: int64, shouldKill: bool)

  /**
   * The side effects of a cycle, in order: running the command-line query for
   * a process, showing the notification for it, killing it.
   */
  datatype Event = ProbeCommandLine(id: int) | Notify(id: int, killing: bool) | Kill(id: int)

  /** The alerted set after some work, and the events that work emitted. */
  datatype Outcome = Outcome(flagged: set<int>, events: seq<Event>)

  /**
   * The memory test of the alert branch, against the wrapped `long` limit.
   * For a gigabyte count small enough not to wrap, it is a strict comparison
   * with `limitInGb * 1024^3` bytes.
   */
  predicate OverLimit(p: Sample, cfg: Config)
    ensures -ExactGbBound <= cfg.limitInGb as int < ExactGbBound ==>
      (OverLimit(p, cfg) <==> p.privateMemory as int > cfg.limitInGb as int * BytesPerGb)
  {
    p.privateMemory > CalculatedLimit(cfg.limitInGb)
  }

  /** Over the limit and a Roslyn worker: the condition of the alert branch. */
  predicate IsOffender(p: Sample, cfg: Config)
    ensures -ExactGbBound <= cfg.limitInGb as int < ExactGbBound ==>
      (IsOffender(p, cfg) <==> p.isWorker && p.privateMemory as int > cfg.limitInGb as int * BytesPerGb)
  {
    OverLimit(p, cfg) && p.isWorker
  }

  /**
   * One iteration of the `foreach` over the sampled processes. Only the
   * process's own id can change membership; it ends in the set exactly when
   * the process offends and either was already there or is not killed. The
   * events are all about that id, and there are none when it is under the
   * limit.
   */
  function Step(flagged: set<int>, p: Sample, cfg: Config): (r: Outcome)
    ensures r.flagged - {p.id} == flagged - {p.id}
    ensures p.id in r.flagged <==> IsOffender(p, cfg) && (p.id in flagged || !cfg.shouldKill)
    ensures forall i :: 0 <= i < |r.events| ==> r.events[i].id == p.id
    ensures r.events == [] <==> !OverLimit(p, cfg)
  {
    if !OverLimit(p, cfg) then
      Outcome(flagged - {p.id}, [])
    else if !p.isWorker then
      Outcome(flagged - {p.id}, [ProbeCommandLine(p.id)])
    else if p.id in flagged then
      Outcome(flagged, [ProbeCommandLine(p.id)])
    else if cfg.shouldKill then
      Outcome(flagged, [ProbeCommandLine(p.id), Notify(p.id, true), Kill(p.id)])
    else
      Outcome(flagged + {p.id}, [ProbeCommandLine(p.id), Notify(p.id, false)])
  }

  /**
   * One cycle: the samples taken in order, the set threaded through. Ids
   * outside the snapshot keep their membership, and each sample yields at
   * most three events.
   */
  function Cycle(flagged: set<int>, samples: seq<Sample>, cfg: Config): (r: Outcome)
    ensures flagged - Ids(samples) <= r.flagged <= flagged + Ids(samples)
    ensures |r.events| <= 3 * |samples|
    decreases |samples|
  {
    if samples == [] then
      Outcome(flagged, [])
    else
      var first := Step(flagged, samples[0], cfg);
      var rest := Cycle(first.flagged, samples[1..], cfg);
      Outcome(rest.flagged, first.events + rest.events)
  }

  /**
   * A run of cycles, each one starting from the set the previous one left.
   * With killing on, the set never grows over the run.
   */
  function Session(flagged: set<int>, cycles: seq<seq<Sample>>, cfg: Config): (r: Outcome)
    ensures cfg.shouldKill ==> r.flagged <= flagged
    decreases |cycles|
  {
    if cycles == [] then
      Outcome(flagged, [])
    else
      var first := Cycle(flagged, cycles[0], cfg);
      var rest := Session(first.flagged, cycles[1..], cfg);
      assert cfg.shouldKill ==> first.flagged <= flagged by {
        if cfg.shouldKill {
          KillingNeverGrowsSet(flagged, cycles[0], cfg);
        }
      }
      Outcome(rest.flagged, first.events + rest.events)
  }

  function Ids(samples: seq<Sample>): set<int>
  {
    set p | p in samples :: p.id
  }

  /** Process ids are unique within one snapshot of the process table. */
  predicate DistinctIds(samples: seq<Sample>)
  {
    forall i, j :: 0 <= i < j < |samples| ==> samples[i].id != samples[j].id
  }

  /** The events about process `id`, in order. */
  function EventsFor(events: seq<Event>, id: int): seq<Event>
  {
    if events == [] then []
    else (if events[0].id == id then [events[0]] else []) + EventsFor(events[1..], id)
  }

  /** The number of notifications among `events`. */
  function NotifyCount(events: seq<Event>): nat
  {
    if events == [] then 0
    else (if events[0].Notify? then 1 else 0) + NotifyCount(events[1..])
  }

  lemma {:induction false} EventsForConcat(a: seq<Event>, b: seq<Event>, id: int)
    ensures EventsFor(a + b, id) == EventsFor(a, id) + EventsFor(b, id)
  {
    if a != [] {
      assert (a + b)[1..] == a[1..] + b;
      EventsForConcat(a[1..], b, id);
    } else {
      assert a + b == b;
    }
  }

  lemma {:induction false} NotifyCountConcat(a: seq<Event>, b: seq<Event>)
    ensures NotifyCount(a + b) == NotifyCount(a) + NotifyCount(b)
  {
    if a != [] {
      assert (a + b)[1..] == a[1..] + b;
      NotifyCountConcat(a[1..], b);
    } else {
      assert a + b == b;
    }
  }

  /** A sequence of events all about `id` is its own filter for `id`, and empty for any other id. */
  lemma {:induction false} EventsAllAbout(events: seq<Event>, id: int)
    requires forall i :: 0 <= i < |events| ==> events[i].id == id
    ensures EventsFor(events, id) == events
    ensures forall q :: q != id ==> EventsFor(events, q) == []
  {
    if events != [] {
      EventsAllAbout(events[1..], id);
    }
  }

  /** A step touches only its own process: no other id changes membership or has events. */
  lemma StepIsLocal(flagged: set<int>, p: Sample, cfg: Config)
    ensures forall q :: q != p.id ==> (q in Step(flagged, p, cfg).flagged <==> q in flagged)
    ensures forall q :: q != p.id ==> EventsFor(Step(flagged, p, cfg).events, q) == []
    ensures EventsFor(Step(flagged, p, cfg).events, p.id) == Step(flagged, p, cfg).events
  {
    EventsAllAbout(Step(flagged, p, cfg).events, p.id);
  }

  /** What a step does to its own process depends on the set only through that process's membership. */
  lemma StepDependsOnOwnMembership(f1: set<int>, f2: set<int>, p: Sample, cfg: Config)
    requires p.id in f1 <==> p.id in f2
    ensures Step(f1, p, cfg).events == Step(f2, p, cfg).events
    ensures p.id in Step(f1, p, cfg).flagged <==> p.id in Step(f2, p, cfg).flagged
  {
  }

  /** `id` is sampled in `samples` as an over-limit Roslyn worker. */
  ghost predicate OffendsIn(samples: seq<Sample>, id: int, cfg: Config)
  {
    exists j :: 0 <= j < |samples| && samples[j].id == id && IsOffender(samples[j], cfg)
  }

  /** Every sample after the first is a sample of the whole snapshot. */
  lemma TailIds(samples: seq<Sample>)
    requires samples != []
    ensures Ids(samples[1..]) <= Ids(samples)
    ensures DistinctIds(samples) ==> samples[0].id !in Ids(samples[1..]) && DistinctIds(samples[1..])
  {
  }

  /**
   * An id that is not sampled in a cycle keeps its membership and has no
   * events: entries of processes that exited are never purged.
   */
  lemma {:induction false} CycleKeepsUnsampled(flagged: set<int>, samples: seq<Sample>, cfg: Config, id: int)
    requires id !in Ids(samples)
    ensures id in Cycle(flagged, samples, cfg).flagged <==> id in flagged
    ensures EventsFor(Cycle(flagged, samples, cfg).events, id) == []
    decreases |samples|
  {
    if samples != [] {
      var first := Step(flagged, samples[0], cfg);
      assert samples[0] in samples;
      StepIsLocal(flagged, samples[0], cfg);
      TailIds(samples);
      CycleKeepsUnsampled(first.flagged, samples[1..], cfg, id);
      EventsForConcat(first.events, Cycle(first.flagged, samples[1..], cfg).events, id);
    }
  }

  /**
   * With distinct ids, what a cycle does to a sampled process is exactly
   * what that process's own step does from the set the cycle started with.
   */
  lemma {:induction false} CycleActsPerSample(flagged: set<int>, samples: seq<Sample>, cfg: Config, j: int)
    requires DistinctIds(samples) && 0 <= j < |samples|
    ensures samples[j].id in Cycle(flagged, samples, cfg).flagged
        <==> samples[j].id in Step(flagged, samples[j], cfg).flagged
    ensures EventsFor(Cycle(flagged, samples, cfg).events, samples[j].id)
         == Step(flagged, samples[j], cfg).events
    decreases |samples|
  {
    var id := samples[j].id;
    var first := Step(flagged, samples[0], cfg);
    var rest := Cycle(first.flagged, samples[1..], cfg);
    StepIsLocal(flagged, samples[0], cfg);
    EventsForConcat(first.events, rest.events, id);
    TailIds(samples);
    if j == 0 {
      CycleKeepsUnsampled(first.flagged, samples[1..], cfg, id);
    } else {
      assert samples[1..][j - 1] == samples[j];
      CycleActsPerSample(first.flagged, samples[1..], cfg, j - 1);
      StepDependsOnOwnMembership(first.flagged, flagged, samples[j], cfg);
    }
  }

  /**
   * A sampled process that is not over the limit, or not a worker, ends the
   * cycle outside the set (whether or not it was in it) and is neither
   * notified nor killed; its command line is queried only when it is over
   * the limit.
   */
  lemma CycleClearsNonOffender(flagged: set<int>, samples: seq<Sample>, cfg: Config, j: int)
    requires DistinctIds(samples) && 0 <= j < |samples|
    requires !IsOffender(samples[j], cfg)
    ensures samples[j].id !in Cycle(flagged, samples, cfg).flagged
    ensures EventsFor(Cycle(flagged, samples, cfg).events, samples[j].id)
         == if OverLimit(samples[j], cfg) then [ProbeCommandLine(samples[j].id)] else []
  {
    CycleActsPerSample(flagged, samples, cfg, j);
  }

  /** An offender that is already in the set stays there, and is not notified or killed again. */
  lemma CycleSuppressesRepeatAlert(flagged: set<int>, samples: seq<Sample>, cfg: Config, j: int)
    requires DistinctIds(samples) && 0 <= j < |samples|
    requires IsOffender(samples[j], cfg) && samples[j].id in flagged
    ensures samples[j].id in Cycle(flagged, samples, cfg).flagged
    ensures EventsFor(Cycle(flagged, samples, cfg).events, samples[j].id) == [ProbeCommandLine(samples[j].id)]
  {
    CycleActsPerSample(flagged, samples, cfg, j);
  }

  /**
   * An offender not yet in the set is notified exactly once, with the kill
   * flag; with killing on it is then killed and not recorded, otherwise it
   * is recorded and not killed.
   */
  lemma CycleAlertsNewOffender(flagged: set<int>, samples: seq<Sample>, cfg: Config, j: int)
    requires DistinctIds(samples) && 0 <= j < |samples|
    requires IsOffender(samples[j], cfg) && samples[j].id !in flagged
    ensures EventsFor(Cycle(flagged, samples, cfg).events, samples[j].id)
         == [ProbeCommandLine(samples[j].id), Notify(samples[j].id, cfg.shouldKill)]
            + (if cfg.shouldKill then [Kill(samples[j].id)] else [])
    ensures samples[j].id in Cycle(flagged, samples, cfg).flagged <==> !cfg.shouldKill
  {
    CycleActsPerSample(flagged, samples, cfg, j);
  }

  /**
   * Every event of a cycle is about a sampled process that was over the
   * limit; notifications and kills only about ones that are also workers;
   * each notification carries the kill setting, and kills happen only with
   * killing on.
   */
  ghost predicate Explained(e: Event, samples: seq<Sample>, cfg: Config)
  {
    && (e.Notify? ==> e.killing == cfg.shouldKill)
    && (e.Kill? ==> cfg.shouldKill)
    && exists j :: 0 <= j < |samples| && samples[j].id == e.id && OverLimit(samples[j], cfg)
                   && (e.ProbeCommandLine? || samples[j].isWorker)
  }

  lemma {:induction false} CycleEventsExplained(flagged: set<int>, samples: seq<Sample>, cfg: Config)
    ensures forall i :: 0 <= i < |Cycle(flagged, samples, cfg).events| ==>
              Explained(Cycle(flagged, samples, cfg).events[i], samples, cfg)
    decreases |samples|
  {
    if samples != [] {
      var first := Step(flagged, samples[0], cfg);
      var rest := Cycle(first.flagged, samples[1..], cfg);
      CycleEventsExplained(first.flagged, samples[1..], cfg);
      var all := first.events + rest.events;
      forall i | 0 <= i < |all| ensures Explained(all[i], samples, cfg) {
        if i < |first.events| {
          assert all[i] == first.events[i];
          assert all[i].id == samples[0].id;
        } else {
          var e := rest.events[i - |first.events|];
          assert all[i] == e;
          var k :| 0 <= k < |samples[1..]| && samples[1..][k].id == e.id && OverLimit(samples[1..][k], cfg)
                   && (e.ProbeCommandLine? || samples[1..][k].isWorker);
          assert samples[k + 1] == samples[1..][k];
        }
      }
    }
  }

  /** With killing on, a cycle never adds to the set. */
  lemma {:induction false} KillingNeverGrowsSet(flagged: set<int>, samples: seq<Sample>, cfg: Config)
    requires cfg.shouldKill
    ensures Cycle(flagged, samples, cfg).flagged <= flagged
    decreases |samples|
  {
    if samples != [] {
      KillingNeverGrowsSet(Step(flagged, samples[0], cfg).flagged, samples[1..], cfg);
    }
  }

  /** A memory value exactly at the limit is not over it; one byte more is. */
  lemma LimitIsStrict(p: Sample, cfg: Config)
    requires -ExactGbBound <= cfg.limitInGb as int < ExactGbBound
    ensures p.privateMemory as int == cfg.limitInGb as int * BytesPerGb ==> !OverLimit(p, cfg)
    ensures p.privateMemory as int == cfg.limitInGb as int * BytesPerGb + 1 ==> OverLimit(p, cfg)
  {
  }

  /**
   * In one cycle an offender is notified once if it was not in the set and
   * not at all if it was; afterwards it is in the set unless it was killed.
   */
  lemma CycleNotifiesNewOffenderOnce(flagged: set<int>, samples: seq<Sample>, cfg: Config, j: int)
    requires DistinctIds(samples) && 0 <= j < |samples| && IsOffender(samples[j], cfg)
    ensures NotifyCount(EventsFor(Cycle(flagged, samples, cfg).events, samples[j].id))
         == if samples[j].id in flagged then 0 else 1
    ensures samples[j].id in Cycle(flagged, samples, cfg).flagged <==> samples[j].id in flagged || !cfg.shouldKill
  {
    var id := samples[j].id;
    if id in flagged {
      CycleSuppressesRepeatAlert(flagged, samples, cfg, j);
    } else {
      CycleAlertsNewOffender(flagged, samples, cfg, j);
      var tail: seq<Event> := if cfg.shouldKill then [Kill(id)] else [];
      var mine := [ProbeCommandLine(id), Notify(id, cfg.shouldKill)] + tail;
      assert NotifyCount(tail) == 0;
      assert mine[1..] == [Notify(id, cfg.shouldKill)] + tail;
      assert mine[1..][1..] == tail;
    }
  }

  /**
   * Over a run of cycles in each of which `id` is sampled as an offender: if
   * it starts in the set it is never notified; otherwise it is notified once
   * and then tracked, or, with killing on, notified and killed again in every
   * cycle it is still sampled in.
   */
  lemma {:induction false} SessionAlertsOncePerRun(flagged: set<int>, cycles: seq<seq<Sample>>, cfg: Config, id: int)
    requires forall c :: 0 <= c < |cycles| ==> DistinctIds(cycles[c]) && OffendsIn(cycles[c], id, cfg)
    ensures NotifyCount(EventsFor(Session(flagged, cycles, cfg).events, id))
         == if id in flagged then 0 else if cfg.shouldKill then |cycles| else if cycles == [] then 0 else 1
    ensures id in Session(flagged, cycles, cfg).flagged <==> id in flagged || (!cfg.shouldKill && cycles != [])
    decreases |cycles|
  {
    if cycles != [] {
      assert DistinctIds(cycles[0]) && OffendsIn(cycles[0], id, cfg);
      var j :| 0 <= j < |cycles[0]| && cycles[0][j].id == id && IsOffender(cycles[0][j], cfg);
      var first := Cycle(flagged, cycles[0], cfg);
      var rest := Session(first.flagged, cycles[1..], cfg);
      CycleNotifiesNewOffenderOnce(flagged, cycles[0], cfg, j);
      assert forall c :: 0 <= c < |cycles[1..]| ==> cycles[1..][c] == cycles[c + 1];
      SessionAlertsOncePerRun(first.flagged, cycles[1..], cfg, id);
      EventsForConcat(first.events, rest.events, id);
      NotifyCountConcat(EventsFor(first.events, id), EventsFor(rest.events, id));
    }
  }

  /**
   * A process that was under the limit (or not a worker) in one cycle and is
   * an offender in the next is notified afresh in the next.
   */
  lemma RealertAfterRecovery(flagged: set<int>, before: seq<Sample>, after: seq<Sample>, cfg: Config, i: int, j: int)
    requires DistinctIds(before) && 0 <= i < |before| && !IsOffender(before[i], cfg)
    requires DistinctIds(after) && 0 <= j < |after| && after[j].id == before[i].id && IsOffender(after[j], cfg)
    ensures EventsFor(Cycle(Cycle(flagged, before, cfg).flagged, after, cfg).events, after[j].id)
         == [ProbeCommandLine(after[j].id), Notify(after[j].id, cfg.shouldKill)]
            + (if cfg.shouldKill then [Kill(after[j].id)] else [])
  {
    CycleClearsNonOffender(flagged, before, cfg, i);
    CycleAlertsNewOffender(Cycle(flagged, before, cfg).flagged, after, cfg, j);
  }

  /** Ids absent from every cycle of a run keep their membership. */
  lemma {:induction false} SessionKeepsUnsampled(flagged: set<int>, cycles: seq<seq<Sample>>, cfg: Config, id: int)
    requires forall c :: 0 <= c < |cycles| ==> id !in Ids(cycles[c])
    ensures id in Session(flagged, cycles, cfg).flagged <==> id in flagged
    decreases |cycles|
  {
    if cycles != [] {
      CycleKeepsUnsampled(flagged, cycles[0], cfg, id);
      assert forall c :: 0 <= c < |cycles[1..]| ==> cycles[1..][c] == cycles[c + 1];
      SessionKeepsUnsampled(Cycle(flagged, cycles[0], cfg).flagged, cycles[1..], cfg, id);
    }
  }

  /**
   * An entry whose process vanished before dropping under the limit stays in
   * the set; a later process that reuses the id and offends is not notified.
   */
  lemma ReusedIdInheritsStaleEntry(flagged: set<int>, gap: seq<seq<Sample>>, later: seq<Sample>, cfg: Config, j: int)
    requires DistinctIds(later) && 0 <= j < |later| && IsOffender(later[j], cfg)
    requires forall c :: 0 <= c < |gap| ==> later[j].id !in Ids(gap[c])
    requires later[j].id in flagged
    ensures NotifyCount(EventsFor(Cycle(Session(flagged, gap, cfg).flagged, later, cfg).events, later[j].id)) == 0
  {
    SessionKeepsUnsampled(flagged, gap, cfg, later[j].id);
    CycleSuppressesRepeatAlert(Session(flagged, gap, cfg).flagged, later, cfg, j);
  }

  /**
   * A 2 GB limit without killing, one worker over four cycles: alerted and
   * recorded, then quiet while still over, cleared once under, and alerted
   * again when over once more.
   */
  lemma OverUnderOverScenario()
    ensures var cfg := Config(2, false);
            var c1 := Cycle({}, [Sample(100, 3000000000, true)], cfg);
            var c2 := Cycle(c1.flagged, [Sample(100, 3100000000, true)], cfg);
            var c3 := Cycle(c2.flagged, [Sample(100, 1000000000, true)], cfg);
            var c4 := Cycle(c3.flagged, [Sample(100, 3000000000, true)], cfg);
            && c1 == Outcome({100}, [ProbeCommandLine(100), Notify(100, false)])
            && c2 == Outcome({100}, [ProbeCommandLine(100)])
            && c3 == Outcome({}, [])
            && c4 == Outcome({100}, [ProbeCommandLine(100), Notify(100, false)])
  {
  }
}
