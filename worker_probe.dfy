/**
 * The worker test: a `dotnet` process is a Roslyn worker when the output of
 * the command-line query for its id contains the executable name of the
 * worker. The query itself (spawning `wmic` and reading its output) is not
 * modelled; its result is the optional output text, `None` when no query
 * process could be started. The loop in module Monitor consumes the verdict
 * of this test as Tracker.Sample's `isWorker`.
 */
module WorkerProbe {
  import opened Wrappers
  import opened Text

  const WorkerMarker: string := "JetBrains.Roslyn.Worker.exe"

  /**
   * The worker test on the query's output: true exactly when there is
   * output and the marker occurs in it; no output counts as "not a worker".
   */
  function IsRoslynWorker(output: Option<string>): (r: bool)
    ensures r <==> output.Some? && IsSubstring(WorkerMarker, output.value)
  {
    match output
    case None => false
    case Some(text) => Contains(text, WorkerMarker)
  }

  /** Output that carries the marker anywhere, such as a full launch command line, passes the test. */
  lemma MarkerAnywhereIsWorker(before: string, after: string)
    ensures IsRoslynWorker(Some(before + WorkerMarker + after))
  {
    var text := before + WorkerMarker + after;
    assert text[|before|..|before| + |WorkerMarker|] == WorkerMarker;
    assert OccursAt(text, WorkerMarker, |before|);
  }
}
