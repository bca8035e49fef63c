/**
 * What the build script makes visible to the operator, as one stream of
 * events in the order it emits them.
 */
module Events {

  /** A desktop notification raised through node-notifier. */
  datatype Notification =
    | TextNotification(title: string, text: string)
    | LinesNotification(title: string, lines: seq<string>)

  /**
   * A livereload notification for a path, a line logged with `util.log`,
   * text written raw with `process.stdout.write`, or a desktop notification.
   */
  datatype Output =
    | Reload(path: string)
    | Log(line: string)
    | Write(text: string)
    | Notify(notification: Notification)

  /** One `Log` per line, in order. */
  function LogAll(lines: seq<string>): seq<Output>
  {
    if lines == [] then [] else [Log(lines[0])] + LogAll(lines[1..])
  }

  lemma {:induction false} LogAllAppend(a: seq<string>, b: seq<string>)
    ensures LogAll(a + b) == LogAll(a) + LogAll(b)
  {
    if a != [] {
      assert (a + b)[1..] == a[1..] + b;
      LogAllAppend(a[1..], b);
    } else {
      assert a + b == b;
    }
  }
}
