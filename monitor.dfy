/**
 * The monitor loop: the set of already-alerted process ids as a mutable
 * field, and the cycle as a loop over the sampled processes that adds to and
 * removes from it in place, skipping ahead with `continue` as the original
 * does. Each method is proved to leave exactly the state and events that
 * Tracker.Cycle and Tracker.Session specify.
 */
module Monitor {
  import opened MemoryLimit
  import opened Tracker

  class Watchdog {
    const config: Config
    /** Ids of offending workers that were notified and not killed. */
    var exceeded: set<int>

    /** The set starts empty when the monitor starts. */
    constructor (config: Config)
      ensures this.config == config && exceeded == {}
    {
      this.config := config;
      exceeded := {};
    }

    /**
     * One pass over the processes sampled this cycle, returning the side
     * effects in the order they happen.
     */
    method RunCycle(samples: seq<Sample>) returns (events: seq<Event>)
      modifies this
      ensures exceeded == Cycle(old(exceeded), samples, config).flagged
      ensures events == Cycle(old(exceeded), samples, config).events
    {
      events := [];
      ghost var total := Cycle(exceeded, samples, config);
      for i := 0 to |samples|
        invariant Cycle(exceeded, samples[i..], config).flagged == total.flagged
        invariant events + Cycle(exceeded, samples[i..], config).events == total.events
      {
        var process := samples[i];
        ghost var before := events;
        ghost var step := Step(exceeded, process, config);
        CycleUnfolds(exceeded, samples, i, config);
        ghost var rest := Cycle(step.flagged, samples[i + 1..], config);
        assert before + (step.events + rest.events) == (before + step.events) + rest.events;
        var memoryUsage := process.privateMemory;
        var calculatedLimit := CalculatedLimit(config.limitInGb);
        // `&&` short-circuits: the command line is queried only over the limit.
        var offending := false;
        if memoryUsage > calculatedLimit {
          events := events + [ProbeCommandLine(process.id)];
          offending := process.isWorker;
        }
        if offending {
          if process.id in exceeded {
            assert events == before + step.events;
            continue;
          }
          events := events + [Notify(process.id, config.shouldKill)];
          if config.shouldKill {
            events := events + [Kill(process.id)];
            assert events == before + step.events;
            continue;
          }
          exceeded := exceeded + {process.id};
        } else {
          exceeded := exceeded - {process.id};
        }
        assert exceeded == step.flagged && events == before + step.events;
      }
    }

    /** Peeling the sample at `i` off the cycle over `samples[i..]`. */
    static lemma CycleUnfolds(flagged: set<int>, samples: seq<Sample>, i: int, config: Config)
      requires 0 <= i < |samples|
      ensures var step := Step(flagged, samples[i], config);
              var rest := Cycle(step.flagged, samples[i + 1..], config);
              Cycle(flagged, samples[i..], config) == Outcome(rest.flagged, step.events + rest.events)
    {
    }

    static lemma SessionUnfolds(flagged: set<int>, cycles: seq<seq<Sample>>, c: int, config: Config)
      requires 0 <= c < |cycles|
      ensures var first := Cycle(flagged, cycles[c], config);
              var rest := Session(first.flagged, cycles[c + 1..], config);
              Session(flagged, cycles[c..], config) == Outcome(rest.flagged, first.events + rest.events)
    {
      assert cycles[c..][0] == cycles[c] && cycles[c..][1..] == cycles[c + 1..];
    }

    /** A finite stretch of the endless polling loop: one RunCycle per snapshot. */
    method Watch(cycles: seq<seq<Sample>>) returns (events: seq<Event>)
      modifies this
      ensures exceeded == Session(old(exceeded), cycles, config).flagged
      ensures events == Session(old(exceeded), cycles, config).events
    {
      ghost var total := Session(exceeded, cycles, config);
      events := [];
      for c := 0 to |cycles|
        invariant Session(exceeded, cycles[c..], config).flagged == total.flagged
        invariant events + Session(exceeded, cycles[c..], config).events == total.events
      {
        ghost var before := events;
        ghost var first := Cycle(exceeded, cycles[c], config);
        SessionUnfolds(exceeded, cycles, c, config);
        ghost var rest := Session(first.flagged, cycles[c + 1..], config);
        var cycleEvents := RunCycle(cycles[c]);
        events := events + cycleEvents;
        assert before + (first.events + rest.events) == events + rest.events;
      }
    }
  }
}
