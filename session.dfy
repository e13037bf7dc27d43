/**
 * The app's session controller (`ProcessApp`): which process is tracked,
 * the shared pause flag, the cancellation token of the running watcher, the
 * snapshot of the process table and the picker's filter state, and the
 * handlers that change them.
 *
 * Cancellation tokens are numbered in the order they are created; `issued`
 * is how many exist and `cancelled` which of them have been cancelled. A
 * token that exists and is not cancelled is live: its watcher may still be
 * running. The object invariant is that the only live token is the one the
 * app holds, so at most one watcher holds an un-cancelled token. A cancelled
 * watcher may still be running until it next checks its token.
 */
module Session {

  import opened Wrappers
  import opened ClockFormat
  import opened ProcessFilter
  import opened Watcher

  type TokenId = nat

  /** What a selection starts: a watcher for `pid` that listens to `token`. */
  datatype Spawn = Spawn(pid: Pid, token: TokenId)

  class ProcessApp {
    /** The duration text, shared with the watchers. */
    const display: SharedText
    var paused: bool
    var token: Option<TokenId>
    var tracked: Option<Pid>
    var trackedName: string
    /** The process table as last refreshed: each pid with its name. */
    var system: map<Pid, string>
    var processFilter: string
    var filtered: map<Pid, string>

    /** Tokens 0 .. issued - 1 have been created. */
    var issued: nat
    var cancelled: set<TokenId>

    ghost function Live(): set<TokenId>
      reads this
    {
      set t | 0 <= t < issued && t !in cancelled
    }

    ghost function Held(): set<TokenId>
      reads this
    {
      if token.Some? then {token.value} else {}
    }

    /** Every token named exists, and the live tokens are exactly the one the app holds. */
    ghost predicate Valid()
      reads this
    {
      (token.Some? ==> token.value < issued) &&
      (forall t | t in cancelled :: t < issued) &&
      Live() == Held()
    }

    /** At most one token, and so at most one watcher's token, is un-cancelled. */
    lemma AtMostOneLive()
      requires Valid()
      ensures |Live()| <= 1
    {
    }

    /**
     * `ProcessApp::new`: nothing tracked, not paused, no token, the
     * placeholder shown, and `snapshot` as the first reading of the process
     * table.
     */
    constructor (snapshot: map<Pid, string>)
      ensures Valid() && fresh(display)
      ensures display.text == Placeholder
      ensures !paused && token == None && tracked == None && trackedName == ""
      ensures system == snapshot && processFilter == "" && filtered == map[]
      ensures Live() == {}
    {
      display := new SharedText(Placeholder);
      paused := false;
      token := None;
      tracked := None;
      trackedName := "";
      system := snapshot;
      processFilter := "";
      filtered := map[];
      issued := 0;
      cancelled := {};
      new;
      assert Live() == {};
    }

    /** Cancels and drops the held token, if there is one (`stop_and_join_thread`). */
    method StopAndJoinThread()
      requires Valid()
      modifies this
      ensures Valid()
      ensures token == None && Live() == {}
      ensures cancelled == old(cancelled) + old(Held()) && issued == old(issued)
      ensures paused == old(paused) && tracked == old(tracked) && trackedName == old(trackedName)
      ensures system == old(system) && processFilter == old(processFilter) && filtered == old(filtered)
    {
      if token.Some? {
        cancelled := cancelled + {token.value};
      }
      token := None;
    }

    /**
     * Clicking the listed process `pid` in the picker. Clicking the process
     * already tracked does nothing. Otherwise the old watcher's token is
     * cancelled and dropped, the pause flag is cleared, `pid` becomes the
     * tracked process with its listed name, and one new token is created and
     * held: it is then the only live token, and the watcher started for `pid`
     * listens to it. The duration text is left as it is.
     */
    method SelectProcess(pid: Pid) returns (spawn: Option<Spawn>)
      requires Valid() && pid in filtered
      modifies this
      ensures Valid()
      ensures display.text == old(display.text)
      ensures system == old(system) && processFilter == old(processFilter) && filtered == old(filtered)
      ensures old(tracked) == Some(pid) ==>
                spawn == None && paused == old(paused) && token == old(token) &&
                tracked == old(tracked) && trackedName == old(trackedName) &&
                issued == old(issued) && cancelled == old(cancelled)
      ensures old(tracked) != Some(pid) ==>
                spawn == Some(Spawn(pid, old(issued))) &&
                !paused && tracked == Some(pid) && trackedName == old(filtered)[pid] &&
                token == Some(old(issued)) && issued == old(issued) + 1 &&
                cancelled == old(cancelled) + old(Held()) &&
                Live() == {old(issued)}
    {
      if tracked != Some(pid) {
        StopAndJoinThread();
        paused := false;
        tracked := Some(pid);
        trackedName := filtered[pid];
        var id := issued;
        issued := issued + 1;
        token := Some(id);
        spawn := Some(Spawn(pid, id));
        assert id in Live();
      } else {
        spawn := None;
      }
    }

    /** The pause button flips the shared flag, whether or not a process is tracked. */
    method TogglePause()
      requires Valid()
      modifies this
      ensures Valid()
      ensures paused == !old(paused)
      ensures token == old(token) && tracked == old(tracked) && trackedName == old(trackedName)
      ensures issued == old(issued) && cancelled == old(cancelled)
      ensures system == old(system) && processFilter == old(processFilter) && filtered == old(filtered)
    {
      paused := !paused;
    }

    /**
     * The stop button: nothing is tracked any more, the name is cleared and
     * no token is left live. The last duration text stays displayed.
     */
    method Stop()
      requires Valid()
      modifies this
      ensures Valid()
      ensures tracked == None && trackedName == "" && token == None && Live() == {}
      ensures cancelled == old(cancelled) + old(Held()) && issued == old(issued)
      ensures paused == old(paused)
      ensures system == old(system) && processFilter == old(processFilter) && filtered == old(filtered)
      ensures display.text == old(display.text)
    {
      tracked := None;
      trackedName := "";
      StopAndJoinThread();
    }

    /**
     * Dropping the app cancels the held token, so no token is left
     * un-cancelled; a watcher still running stops at its next check.
     */
    method Drop()
      requires Valid()
      modifies this
      ensures Live() == {}
      ensures cancelled == old(cancelled) + old(Held()) && issued == old(issued) && token == old(token)
      ensures paused == old(paused) && tracked == old(tracked) && trackedName == old(trackedName)
      ensures system == old(system) && processFilter == old(processFilter) && filtered == old(filtered)
    {
      if token.Some? {
        cancelled := cancelled + {token.value};
      }
    }

    /**
     * The select button: the process table is refreshed to `table`, the
     * filter is cleared and every process of the table is listed.
     */
    method OpenSelector(table: map<Pid, string>)
      requires Valid()
      modifies this
      ensures Valid()
      ensures system == table && processFilter == "" && filtered == table
      ensures paused == old(paused) && token == old(token) && tracked == old(tracked)
      ensures trackedName == old(trackedName) && issued == old(issued) && cancelled == old(cancelled)
    {
      system := table;
      processFilter := "";
      filtered := FilterProcesses(system, processFilter);
      EmptyFilterKeepsAll(system);
    }

    /**
     * Typing `filter` into the picker's filter box lists the matching
     * processes of the table as last refreshed; the table itself is not
     * read again.
     */
    method EditFilter(filter: string)
      requires Valid()
      modifies this
      ensures Valid()
      ensures system == old(system)
      ensures processFilter == filter && filtered == FilterProcesses(system, filter)
      ensures paused == old(paused) && token == old(token) && tracked == old(tracked)
      ensures trackedName == old(trackedName) && issued == old(issued) && cancelled == old(cancelled)
    {
      processFilter := filter;
      filtered := FilterProcesses(system, processFilter);
    }
  }
}
