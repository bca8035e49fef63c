/**
 * The application-server handling of `server:spawn`: the script keeps one
 * module-level `server` handle, kills it if it is set, overwrites it with a
 * freshly spawned child, arms a one-shot livereload of `/` on the child's
 * first stdout data, logs the non-empty lines of every stdout chunk and
 * writes stderr chunks through unchanged.
 */
module Server {
  import opened Seqs
  import opened Lines
  import opened Events

  /** Logging the non-empty lines of one more line adds a `Log` exactly when that line is not empty. */
  lemma LogNonEmptyStep(lines: seq<string>, l: nat)
    requires l < |lines|
    ensures LogAll(Filter(IsNonEmpty, lines[..l + 1]))
         == LogAll(Filter(IsNonEmpty, lines[..l])) + if |lines[l]| > 0 then [Log(lines[l])] else []
  {
    var line := lines[l];
    assert lines[..l + 1] == lines[..l] + [line];
    FilterAppend(IsNonEmpty, lines[..l], [line]);
    assert Filter(IsNonEmpty, [line]) == if |line| > 0 then [line] else [];
    assert LogAll(Filter(IsNonEmpty, [line])) == if |line| > 0 then [Log(line)] else [];
    LogAllAppend(Filter(IsNonEmpty, lines[..l]), Filter(IsNonEmpty, [line]));
  }

  /** A handle returned by `child_process.spawn`. */
  class ChildProcess {
    /** `kill()` has been called on this handle. */
    var killed: bool
    /** The handle's stdout still holds the `once('data')` reload listener. */
    var reloadArmed: bool
    /** How many stdout `data` events the handle has delivered. */
    ghost var chunksSeen: nat

    /** A process just started: not killed, no listener registered, no output yet. */
    constructor ()
      ensures !killed && !reloadArmed && chunksSeen == 0
    {
      killed := false;
      reloadArmed := false;
      chunksSeen := 0;
    }

    /** `kill()`: the termination signal is sent; its delivery is left to the operating system. */
    method Kill()
      modifies this
      ensures killed
      ensures reloadArmed == old(reloadArmed) && chunksSeen == old(chunksSeen)
    {
      killed := true;
    }
  }

  /** The script's module-level `server` variable and everything it has emitted. */
  class Supervisor {
    /** The current server process, `null` until the first `server:spawn`. */
    var server: ChildProcess?
    /** Everything emitted so far, oldest first. */
    var output: seq<Output>
    /** Every handle `server:spawn` has stored in `server`, oldest first. */
    ghost var spawned: seq<ChildProcess>

    /**
     * `server` is the last handle spawned, the handles are distinct, every
     * handle but the current one has been killed, and a handle's reload
     * listener is still armed exactly while it has delivered no stdout data.
     */
    ghost predicate Valid()
      reads this, spawned
    {
      && (server == null <==> spawned == [])
      && (server != null ==> server == spawned[|spawned| - 1])
      && (forall i, j :: 0 <= i < j < |spawned| ==> spawned[i] != spawned[j])
      && (forall i :: 0 <= i < |spawned| - 1 ==> spawned[i].killed)
      && (forall i :: 0 <= i < |spawned| ==> (spawned[i].reloadArmed <==> spawned[i].chunksSeen == 0))
    }

    /** No handle that was ever current is left un-killed, except the current one. */
    ghost predicate AtMostOneLive()
      reads this, spawned
    {
      forall c :: c in spawned && !c.killed ==> c == server
    }

    lemma ValidHasAtMostOneLive()
      requires Valid()
      ensures AtMostOneLive()
    {
      forall c | c in spawned && !c.killed
        ensures c == server
      {
        var i :| 0 <= i < |spawned| && spawned[i] == c;
      }
    }

    /** The script at load time: `var server = null`. */
    constructor ()
      ensures Valid()
      ensures server == null && output == [] && spawned == []
    {
      server := null;
      output := [];
      spawned := [];
    }

    /**
     * `server:spawn`: kill the current handle if there is one, store a
     * freshly spawned child in `server` and arm its one-shot reload.
     * Nothing is emitted.
     */
    method Spawn()
      requires Valid()
      modifies this, spawned
      ensures Valid() && AtMostOneLive()
      ensures old(server) != null ==> old(server).killed
      ensures server != null && fresh(server)
      ensures !server.killed && server.reloadArmed && server.chunksSeen == 0
      ensures spawned == old(spawned) + [server]
      ensures output == old(output)
      ensures forall c :: c in old(spawned) ==>
        && c.reloadArmed == old(c.reloadArmed) && c.chunksSeen == old(c.chunksSeen)
        && (c != old(server) ==> c.killed == old(c.killed))
    {
      if server != null {
        server.Kill();
      }
      var child := new ChildProcess();
      child.reloadArmed := true;
      server := child;
      spawned := spawned + [child];
      ValidHasAtMostOneLive();
    }

    /**
     * The `once('data')` listener on a child's stdout: on the child's first
     * chunk it reloads `/` and unregisters itself; later chunks find it gone.
     */
    method ReloadOnFirstData(child: ChildProcess)
      requires Valid() && child in spawned
      modifies this, child
      ensures Valid()
      ensures server == old(server) && spawned == old(spawned)
      ensures child.killed == old(child.killed) && !child.reloadArmed
      ensures child.chunksSeen == old(child.chunksSeen) + 1
      ensures output == old(output) + if old(child.chunksSeen) == 0 then [Reload("/")] else []
    {
      if child.reloadArmed {
        child.reloadArmed := false;
        output := output + [Reload("/")];
      }
      child.chunksSeen := child.chunksSeen + 1;
    }

    /** Logs each non-empty one of `lines`, in order, and changes nothing else. */
    method LogLines(lines: seq<string>)
      modifies this
      ensures output == old(output) + LogAll(Filter(IsNonEmpty, lines))
      ensures server == old(server) && spawned == old(spawned)
    {
      for l := 0 to |lines|
        invariant output == old(output) + LogAll(Filter(IsNonEmpty, lines[..l]))
        invariant server == old(server) && spawned == old(spawned)
      {
        LogNonEmptyStep(lines, l);
        if |lines[l]| > 0 {
          output := output + [Log(lines[l])];
        }
      }
      assert lines[..|lines|] == lines;
    }

    /** The `on('data')` listener on a child's stdout: each non-empty line of the chunk is logged, in order. */
    method LogChunk(chunk: string)
      modifies this
      ensures output == old(output) + LogAll(NonEmptyLines(chunk))
      ensures server == old(server) && spawned == old(spawned)
    {
      LogLines(Split(chunk));
    }

    /**
     * A stdout `data` event of a spawned child (the current one or an older
     * one whose stream is still open): the two listeners run in the order
     * they were registered.
     */
    method OnStdout(child: ChildProcess, chunk: string)
      requires Valid() && child in spawned
      modifies this, child
      ensures Valid()
      ensures server == old(server) && spawned == old(spawned)
      ensures child.killed == old(child.killed) && !child.reloadArmed
      ensures child.chunksSeen == old(child.chunksSeen) + 1
      ensures output == old(output)
        + (if old(child.chunksSeen) == 0 then [Reload("/")] else [])
        + LogAll(NonEmptyLines(chunk))
    {
      ReloadOnFirstData(child);
      LogChunk(chunk);
    }

    /** A stderr `data` event: the chunk is written through unchanged. */
    method OnStderr(chunk: string)
      modifies this
      ensures output == old(output) + [Write(chunk)]
      ensures server == old(server) && spawned == old(spawned)
    {
      output := output + [Write(chunk)];
    }
  }

  /**
   * Two restarts in a row: the first server's first chunk reloads the page
   * and is logged; the second spawn kills the first server and arms a new
   * reload, and leaves the first server's spent listener spent, so a late
   * chunk from it reloads nothing.
   */
  method RestartScenario()
  {
    var s := new Supervisor();
    s.Spawn();
    var first := s.server;
    s.OnStdout(first, "ok");
    SplitNewlineFreePrefix("ok", "");
    assert "ok" + "" == "ok";
    assert NonEmptyLines("ok") == ["ok"];
    assert s.output == [Reload("/"), Log("ok")];
    s.Spawn();
    assert first.killed && s.server != first && s.server.reloadArmed;
    assert first.chunksSeen == 1 && !first.reloadArmed;
    var before := s.output;
    s.OnStdout(first, "");
    assert s.output == before + LogAll(NonEmptyLines(""));
  }
}
