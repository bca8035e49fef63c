/**
 * How the build script turns failures into operator-visible diagnostics:
 * the error handler installed by the `gulp.src` override for plugin errors,
 * and the `server:build` task's report of the Go compiler's error stream.
 */
module Diagnostics {
  import opened Lines

  import opened Events

  /**
   * The plumber error handler of the `gulp.src` override: it first logs
   * `Error (<plugin>): <message>` with the whole message, then raises a
   * notification titled `Error (<plugin>)` that carries only the message's
   * first line.
   */
  function ReportPluginError(plugin: string, message: string): (events: seq<Output>)
    ensures |events| == 2 && events[0].Log? && events[1].Notify?
    ensures events[1].notification.TextNotification?
    ensures events[1].notification.title == "Error (" + plugin + ")"
    ensures events[0].line == events[1].notification.title + ": " + message
    ensures var text := events[1].notification.text;
            && text <= message && '\n' !in text
            && (|text| == |message| || message[|text|] == '\n')
  {
    var title := "Error (" + plugin + ")";
    [Log(title + ": " + message), Notify(TextNotification(title, FirstLine(message)))]
  }

  const GoInstallTitle := "Error (go install)"
  const GoInstallPrefix := "Error (go install): "

  /**
   * `server:build` after `go install` has run with the given error stream:
   * when the stream is not empty, each of its non-empty lines is logged in
   * order behind the `Error (go install): ` prefix, and then one
   * notification carries the list of those lines. An empty stream reports
   * nothing. The task returns normally either way.
   */
  method ReportBuildErrors(stderr: string) returns (events: seq<Output>)
    ensures stderr == [] ==> events == []
    ensures stderr != [] ==> |events| == |NonEmptyLines(stderr)| + 1
    ensures stderr != [] ==> events[|events| - 1] == Notify(LinesNotification(GoInstallTitle, NonEmptyLines(stderr)))
    ensures forall i :: 0 <= i < |events| - 1 ==> events[i] == Log(GoInstallPrefix + NonEmptyLines(stderr)[i])
  {
    events := [];
    if |stderr| > 0 {
      var lines := NonEmptyLines(stderr);
      for l := 0 to |lines|
        invariant |events| == l
        invariant forall i :: 0 <= i < l ==> events[i] == Log(GoInstallPrefix + lines[i])
      {
        events := events + [Log(GoInstallPrefix + lines[l])];
      }
      events := events + [Notify(LinesNotification(GoInstallTitle, lines))];
    }
  }
}
