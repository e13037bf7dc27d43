/**
 * The background watcher loop (`process_watcher_async`) as an imperative
 * method. Its loop variables are locals, as in the source; the only state it
 * changes outside itself is the text buffer it shares with the app, which it
 * overwrites in place on every running sample.
 *
 * The scheduler's interval, the probe of the operating system and the
 * concurrent writers of the pause flag and the cancellation token are
 * replaced by the sequence of `Tick` inputs the loop sees, one per tick.
 */
module Watcher {

  import opened Wrappers
  import opened ClockFormat
  import opened Accumulator

  /** The duration text shared by the app and its watcher. */
  class SharedText {
    var text: string

    constructor (initial: string)
      ensures text == initial
    {
      text := initial;
    }
  }

  /**
   * The body of the watcher's loop for one tick: `exit` says it returns;
   * otherwise the new loop variables, the text left in `display` and the
   * repaint request are those of `Advance`.
   */
  method WatchTick(w: Watch, t: Tick, display: SharedText)
    returns (exit: bool, next: Watch, repaint: bool)
    modifies display
    ensures exit <==> Advance(w, t).Exit?
    ensures exit ==> display.text == old(display.text)
    ensures !exit ==> var s := Advance(w, t);
                      next == s.watch && repaint == s.repaint &&
                      display.text == (if s.text.Some? then s.text.value else old(display.text))
  {
    var duration, lastUpdate, lastSeconds := w.duration, w.lastUpdate, w.lastSeconds;
    exit, repaint := false, false;
    // Cancellation is taken before the tick (biased selection).
    if t.cancelled {
      CancelledTick(w, t);
      exit := true;
    } else if !t.paused {
      match t.probe
      case Absent =>
        // The process no longer exists.
        AbsentTick(w, t);
        exit := true;
      case Run =>
        RunningTick(w, t);
        var now := t.now;
        duration := duration + SaturatingSince(now, lastUpdate);
        lastUpdate := now;
        var totalSecs := Seconds(duration);
        var hours := totalSecs / 3600;
        var minutes := (totalSecs % 3600) / 60;
        var seconds := totalSecs % 60;
        display.text := FormatHms(hours, minutes, seconds);
        repaint := totalSecs != lastSeconds;
        lastSeconds := totalSecs;
      case Other =>
        NotRunningTick(w, t);
    } else {
      // Paused: re-anchor so that paused time is never credited.
      PausedTick(w, t);
      lastUpdate := t.now;
    }
    next := Watch(duration, lastUpdate, lastSeconds);
  }

  /**
   * Runs the watcher from instant `start` over `ticks`, writing into
   * `display`. It returns its final loop variables, how many ticks it took,
   * whether it returned (cancelled, or the process disappeared) and how many
   * repaints it requested; all of them, and the final text, are those of
   * `Loop`.
   */
  method WatchProcess(start: nat, ticks: seq<Tick>, display: SharedText)
    returns (final: Watch, consumed: nat, exited: bool, repaints: nat)
    modifies display
    ensures var r := Loop(Begin(start), ticks);
            final == r.watch && consumed == r.consumed && exited == r.exited && repaints == r.repaints &&
            display.text == (if r.text.Some? then r.text.value else old(display.text))
  {
    var w := Begin(start);
    repaints := 0;
    ghost var written: Option<string> := None;
    var i := 0;
    while i < |ticks|
      invariant 0 <= i <= |ticks|
      invariant Loop(Begin(start), ticks[..i]) == Trace(w, i, false, written, repaints)
      invariant display.text == if written.Some? then written.value else old(display.text)
    {
      LoopStep(Begin(start), ticks, i);
      var exit, next, repaint := WatchTick(w, ticks[i], display);
      if exit {
        assert ticks[..i + 1] + ticks[i + 1..] == ticks;
        LoopAfterExit(Begin(start), ticks[..i + 1], ticks[i + 1..]);
        final, consumed, exited := w, i + 1, true;
        return;
      }
      ghost var s := Advance(w, ticks[i]);
      if s.text.Some? {
        written := s.text;
      }
      if repaint {
        repaints := repaints + 1;
      }
      w := next;
      i := i + 1;
    }
    assert ticks[..i] == ticks;
    final, consumed, exited := w, i, false;
  }
}
