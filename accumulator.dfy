/**
 * The per-tick update rule of the process watcher, over abstract time.
 *
 * The watcher keeps three loop variables: the accumulated running time
 * (`duration`, in milliseconds), the instant it last accounted from
 * (`lastUpdate`) and the whole-second count it last rendered
 * (`lastSeconds`). Each tick sees whether cancellation is pending, whether
 * the shared pause flag is set, the current instant and what probing the
 * tracked pid reports. `Advance` is one tick; `Loop` is the loop over a
 * sequence of ticks, stopping at the first tick that ends the watcher.
 */
module Accumulator {

  import opened Wrappers
  import opened ClockFormat

  /** What probing the tracked pid reports: gone, running, or any other status. */
  datatype Probe = Absent | Run | Other

  /** The inputs seen by one tick of the watcher. */
  datatype Tick = Tick(cancelled: bool, paused: bool, now: nat, probe: Probe)

  /** The watcher's loop variables; times and `duration` are in milliseconds. */
  datatype Watch = Watch(duration: nat, lastUpdate: nat, lastSeconds: nat)

  /**
   * The result of one tick: the watcher returns, or it goes on with new loop
   * variables, possibly having written a new text and requested a repaint.
   */
  datatype Step = Exit | Next(watch: Watch, text: Option<string>, repaint: bool)

  const MillisPerSecond: nat := 1000

  /** `Instant::saturating_duration_since`: zero when `now` is before `earlier`. */
  function SaturatingSince(now: nat, earlier: nat): (d: nat)
    ensures now <= earlier + d && d <= now
    ensures d == 0 || earlier + d == now
  {
    if now >= earlier then now - earlier else 0
  }

  /** `Duration::as_secs`: whole seconds, the fraction dropped. */
  function Seconds(duration: nat): (secs: nat)
    ensures secs * MillisPerSecond <= duration < (secs + 1) * MillisPerSecond
  {
    duration / MillisPerSecond
  }

  /** The loop variables when the watcher starts at instant `start`. */
  function Begin(start: nat): (w: Watch)
    ensures w.duration == 0 && w.lastUpdate == start
    ensures w.lastSeconds == Seconds(w.duration)
  {
    Watch(0, start, 0)
  }

  /**
   * One tick of the watcher's loop. It returns exactly on a pending
   * cancellation or an unpaused tick on an absent process; only a running
   * sample writes a text or can ask for a repaint, and a tick that writes
   * nothing credits nothing and keeps the remembered count.
   */
  function Advance(w: Watch, t: Tick): (r: Step)
    ensures r.Exit? <==> t.cancelled || (!t.paused && t.probe == Absent)
    ensures r.Next? ==> r.watch.duration >= w.duration
    ensures r.Next? ==> (r.text.Some? <==> !t.paused && t.probe == Run)
    ensures r.Next? && r.repaint ==> r.text.Some?
    ensures r.Next? && r.text.None? ==>
              r.watch.duration == w.duration && r.watch.lastSeconds == w.lastSeconds
  {
    if t.cancelled then Exit
    else if t.paused then Next(w.(lastUpdate := t.now), None, false)
    else match t.probe
      case Absent => Exit
      case Other => Next(w, None, false)
      case Run =>
        var d := w.duration + SaturatingSince(t.now, w.lastUpdate);
        var secs := Seconds(d);
        Next(Watch(d, t.now, secs), Some(Render(secs)), secs != w.lastSeconds)
  }

  /** A pending cancellation is taken before anything else: the watcher returns. */
  lemma CancelledTick(w: Watch, t: Tick)
    requires t.cancelled
    ensures Advance(w, t) == Exit
  {
  }

  /**
   * A paused tick does not probe: whatever the process does, it credits
   * nothing, writes nothing and only moves the anchor to the tick's instant.
   */
  lemma PausedTick(w: Watch, t: Tick)
    requires !t.cancelled && t.paused
    ensures Advance(w, t) == Next(w.(lastUpdate := t.now), None, false)
  {
  }

  /** An unpaused tick on a process that no longer exists ends the watcher. */
  lemma AbsentTick(w: Watch, t: Tick)
    requires !t.cancelled && !t.paused && t.probe == Absent
    ensures Advance(w, t) == Exit
  {
  }

  /**
   * An unpaused tick on a process that exists but is not running changes
   * nothing at all, not even the anchor.
   */
  lemma NotRunningTick(w: Watch, t: Tick)
    requires !t.cancelled && !t.paused && t.probe == Other
    ensures Advance(w, t) == Next(w, None, false)
  {
  }

  /**
   * A running sample credits the time since the anchor (zero if the clock
   * went back), re-anchors at the tick's instant, writes the rendering of
   * the new whole-second count, and asks for a repaint exactly when that
   * text differs from the rendering of the count it last remembered.
   */
  lemma RunningTick(w: Watch, t: Tick)
    requires !t.cancelled && !t.paused && t.probe == Run
    ensures var r := Advance(w, t);
            r.Next? &&
            r.watch.duration == w.duration + SaturatingSince(t.now, w.lastUpdate) &&
            r.watch.duration >= w.duration &&
            r.watch.lastUpdate == t.now &&
            r.watch.lastSeconds == Seconds(r.watch.duration) &&
            r.text == Some(Render(r.watch.lastSeconds)) &&
            (r.repaint <==> r.text.value != Render(w.lastSeconds))
  {
    var r := Advance(w, t);
    RenderInjective(r.watch.lastSeconds, w.lastSeconds);
  }

  /**
   * The first running sample of a watcher, under a second after its start,
   * writes `00:00:00` over whatever the buffer held (the placeholder, or the
   * last session's final text) and still requests no repaint: the remembered
   * count starts at zero, and the repaint test compares counts, not texts.
   */
  lemma FirstSampleUnderASecond(start: nat, now: nat)
    requires now < start + MillisPerSecond
    ensures Loop(Begin(start), [Tick(false, false, now, Run)]) ==
            Trace(Watch(SaturatingSince(now, start), now, 0), 1, false, Some("00:00:00"), 0)
    ensures Render(0) != Placeholder
  {
    var t := Tick(false, false, now, Run);
    assert [t][..0] == [];
    assert Render(0) == "00:00:00";
  }

  /** Where the loop stands after a sequence of ticks. */
  datatype Trace = Trace(watch: Watch, consumed: nat, exited: bool, text: Option<string>, repaints: nat)

  /** The loop with one more tick: nothing once the watcher has returned, else one `Advance`. */
  function Extend(prev: Trace, t: Tick): Trace {
    if prev.exited then prev
    else match Advance(prev.watch, t)
      case Exit => prev.(consumed := prev.consumed + 1, exited := true)
      case Next(w, txt, repaint) =>
        Trace(w, prev.consumed + 1, false,
              if txt.Some? then txt else prev.text,
              prev.repaints + if repaint then 1 else 0)
  }

  /**
   * The loop over `ticks` from loop variables `w0`: `consumed` ticks were
   * taken, `exited` says the last of them ended the watcher, `text` is the
   * last text written and `repaints` counts the repaint requests.
   */
  function Loop(w0: Watch, ticks: seq<Tick>): (r: Trace)
    ensures r.consumed <= |ticks| && r.repaints <= r.consumed
    ensures !r.exited ==> r.consumed == |ticks|
    ensures r.watch.duration >= w0.duration
    decreases |ticks|
  {
    if ticks == [] then Trace(w0, 0, false, None, 0)
    else Extend(Loop(w0, ticks[..|ticks| - 1]), ticks[|ticks| - 1])
  }

  /** Once the watcher has returned, later ticks change nothing. */
  lemma {:induction false} LoopAfterExit(w0: Watch, ticks: seq<Tick>, more: seq<Tick>)
    requires Loop(w0, ticks).exited
    ensures Loop(w0, ticks + more) == Loop(w0, ticks)
    decreases |more|
  {
    if more != [] {
      var all := ticks + more;
      assert all[..|all| - 1] == ticks + more[..|more| - 1];
      LoopAfterExit(w0, ticks, more[..|more| - 1]);
    } else {
      assert ticks + more == ticks;
    }
  }

  /**
   * A tick that ends the watcher (a pending cancellation, or an unpaused tick
   * on an absent process) is the last one taken: the result of the whole
   * sequence is the state before it, with that tick consumed.
   */
  lemma StopsAtEndingTick(w0: Watch, ticks: seq<Tick>, k: nat)
    requires k < |ticks|
    requires !Loop(w0, ticks[..k]).exited
    requires ticks[k].cancelled || (!ticks[k].paused && ticks[k].probe == Absent)
    ensures var before := Loop(w0, ticks[..k]);
            Loop(w0, ticks) == before.(consumed := k + 1, exited := true)
  {
    var head := ticks[..k + 1];
    assert head[..k] == ticks[..k];
    assert head + ticks[k + 1..] == ticks;
    LoopAfterExit(w0, head, ticks[k + 1..]);
  }

  /** Taking the ticks up to `i` and then tick `i` is taking the ticks up to `i + 1`. */
  lemma LoopStep(w0: Watch, ticks: seq<Tick>, i: nat)
    requires i < |ticks|
    ensures Loop(w0, ticks[..i + 1]) == Extend(Loop(w0, ticks[..i]), ticks[i])
  {
    assert ticks[..i + 1][..i] == ticks[..i];
  }

  /** The loop's account of a first stretch of ticks followed by a second one. */
  function Combine(first: Trace, second: Trace): Trace {
    Trace(second.watch, first.consumed + second.consumed, second.exited,
          if second.text.Some? then second.text else first.text,
          first.repaints + second.repaints)
  }

  /**
   * The loop is compositional: taking `a` and then `b` is taking `b` from the
   * loop variables `a` left, as long as the watcher did not return during `a`.
   */
  lemma {:induction false} LoopAppend(w0: Watch, a: seq<Tick>, b: seq<Tick>)
    requires !Loop(w0, a).exited
    ensures Loop(w0, a + b) == Combine(Loop(w0, a), Loop(Loop(w0, a).watch, b))
    decreases |b|
  {
    if b == [] {
      assert a + b == a;
    } else {
      var ab := a + b;
      var init, last := b[..|b| - 1], b[|b| - 1];
      var wa := Loop(w0, a).watch;
      assert ab[..|ab| - 1] == a + init && ab[|ab| - 1] == last;
      LoopLast(w0, ab);
      LoopLast(wa, b);
      LoopAppend(w0, a, init);
      ExtendCombine(Loop(w0, a), Loop(wa, init), last);
    }
  }

  /** A non-empty sequence of ticks is its prefix followed by its last tick. */
  lemma LoopLast(w0: Watch, ticks: seq<Tick>)
    requires ticks != []
    ensures Loop(w0, ticks) == Extend(Loop(w0, ticks[..|ticks| - 1]), ticks[|ticks| - 1])
  {
  }

  /** One more tick after a combined account is one more tick of its second part. */
  lemma ExtendCombine(first: Trace, second: Trace, t: Tick)
    ensures Extend(Combine(first, second), t) == Combine(first, Extend(second, t))
  {
  }

  /** Tick instants never go back, and none is earlier than the starting anchor. */
  ghost predicate Monotone(anchor: nat, ticks: seq<Tick>) {
    (|ticks| > 0 ==> anchor <= ticks[0].now) &&
    (forall i :: 0 < i < |ticks| ==> ticks[i - 1].now <= ticks[i].now)
  }

  /** The instant of the latest tick, or `anchor` when there is none. */
  function Latest(anchor: nat, ticks: seq<Tick>): nat {
    if ticks == [] then anchor else ticks[|ticks| - 1].now
  }

  /** With monotone instants the anchor stays between the start and the latest tick. */
  lemma {:induction false} AnchorBounds(w0: Watch, ticks: seq<Tick>)
    requires Monotone(w0.lastUpdate, ticks)
    ensures w0.lastUpdate <= Loop(w0, ticks).watch.lastUpdate <= Latest(w0.lastUpdate, ticks)
    decreases |ticks|
  {
    if ticks != [] {
      var init := ticks[..|ticks| - 1];
      assert Monotone(w0.lastUpdate, init);
      AnchorBounds(w0, init);
    }
  }

  /**
   * The time discarded by paused ticks: each paused tick re-anchors, dropping
   * the time between the previous anchor and its own instant.
   */
  function Dropped(w0: Watch, ticks: seq<Tick>): nat
    decreases |ticks|
  {
    if ticks == [] then 0
    else
      var init := ticks[..|ticks| - 1];
      var prev := Loop(w0, init);
      var t := ticks[|ticks| - 1];
      Dropped(w0, init) +
        if !prev.exited && !t.cancelled && t.paused
        then SaturatingSince(t.now, prev.watch.lastUpdate) else 0
  }

  /**
   * Conservation of time: every millisecond between the starting anchor and
   * the final anchor is either credited to the duration (it ended in a
   * running sample) or dropped by a pause, and none is counted twice.
   */
  lemma {:induction false} Conservation(w0: Watch, ticks: seq<Tick>)
    requires Monotone(w0.lastUpdate, ticks)
    ensures var r := Loop(w0, ticks);
            r.watch.duration + Dropped(w0, ticks) == w0.duration + (r.watch.lastUpdate - w0.lastUpdate)
    decreases |ticks|
  {
    if ticks != [] {
      var init := ticks[..|ticks| - 1];
      assert Monotone(w0.lastUpdate, init);
      Conservation(w0, init);
      AnchorBounds(w0, init);
      assert Loop(w0, init).watch.lastUpdate <= ticks[|ticks| - 1].now;
    }
  }

  /** The duration gained never exceeds the wall-clock time the ticks span. */
  lemma NeverOverCredits(w0: Watch, ticks: seq<Tick>)
    requires Monotone(w0.lastUpdate, ticks)
    ensures Loop(w0, ticks).watch.duration - w0.duration <= Latest(w0.lastUpdate, ticks) - w0.lastUpdate
  {
    Conservation(w0, ticks);
    AnchorBounds(w0, ticks);
  }

  /**
   * Uninterrupted running: when every tick is an unpaused, uncancelled
   * running sample, the duration grows by exactly the span from the start
   * anchor to the latest tick, and the watcher is still going.
   */
  lemma {:induction false} AllRunning(w0: Watch, ticks: seq<Tick>)
    requires Monotone(w0.lastUpdate, ticks)
    requires forall i :: 0 <= i < |ticks| ==> !ticks[i].cancelled && !ticks[i].paused && ticks[i].probe == Run
    ensures var r := Loop(w0, ticks);
            !r.exited && r.watch.lastUpdate == Latest(w0.lastUpdate, ticks) &&
            r.watch.duration == w0.duration + (Latest(w0.lastUpdate, ticks) - w0.lastUpdate)
    decreases |ticks|
  {
    if ticks != [] {
      var init := ticks[..|ticks| - 1];
      assert Monotone(w0.lastUpdate, init);
      AllRunning(w0, init);
    }
  }

  /**
   * A stretch of paused ticks credits nothing and writes nothing; it only
   * moves the anchor to the instant of the latest of them.
   */
  lemma {:induction false} PausedStretch(w0: Watch, ticks: seq<Tick>)
    requires forall i :: 0 <= i < |ticks| ==> !ticks[i].cancelled && ticks[i].paused
    ensures Loop(w0, ticks) ==
            Trace(w0.(lastUpdate := Latest(w0.lastUpdate, ticks)), |ticks|, false, None, 0)
    decreases |ticks|
  {
    if ticks != [] {
      PausedStretch(w0, ticks[..|ticks| - 1]);
    }
  }

  /**
   * No drift on resume: after a stretch of paused ticks, the first running
   * sample credits only the time since the last paused tick, however long
   * the pause lasted.
   */
  lemma ResumeCreditsOnlySinceLastPausedTick(w0: Watch, paused: seq<Tick>, t: Tick)
    requires |paused| > 0
    requires forall i :: 0 <= i < |paused| ==> !paused[i].cancelled && paused[i].paused
    requires !t.cancelled && !t.paused && t.probe == Run
    ensures Loop(w0, paused + [t]).watch.duration ==
            w0.duration + SaturatingSince(t.now, paused[|paused| - 1].now)
  {
    var all := paused + [t];
    assert all[..|all| - 1] == paused;
    PausedStretch(w0, paused);
  }

  /**
   * A stretch of unpaused ticks on a process that is present but not running
   * changes nothing at all: not the duration, not the anchor, not the text.
   */
  lemma {:induction false} NotRunningStretch(w0: Watch, ticks: seq<Tick>)
    requires forall i :: 0 <= i < |ticks| ==> !ticks[i].cancelled && !ticks[i].paused && ticks[i].probe == Other
    ensures Loop(w0, ticks) == Trace(w0, |ticks|, false, None, 0)
    decreases |ticks|
  {
    if ticks != [] {
      NotRunningStretch(w0, ticks[..|ticks| - 1]);
    }
  }

  /**
   * Because non-running samples do not re-anchor, the next running sample
   * credits the whole gap back to the anchor taken before them.
   */
  lemma GapBeforeRunIsCredited(w0: Watch, others: seq<Tick>, t: Tick)
    requires forall i :: 0 <= i < |others| ==> !others[i].cancelled && !others[i].paused && others[i].probe == Other
    requires !t.cancelled && !t.paused && t.probe == Run
    ensures Loop(w0, others + [t]).watch.duration == w0.duration + SaturatingSince(t.now, w0.lastUpdate)
  {
    var all := others + [t];
    assert all[..|all| - 1] == others;
    NotRunningStretch(w0, others);
  }

  /**
   * Whatever has been written is the rendering of the last whole-second
   * count, and that count is the one of the current duration.
   */
  lemma {:induction false} TextShowsLastSeconds(w0: Watch, ticks: seq<Tick>)
    ensures var r := Loop(w0, ticks);
            r.text.Some? ==> r.text.value == Render(r.watch.lastSeconds) &&
                             r.watch.lastSeconds == Seconds(r.watch.duration)
    decreases |ticks|
  {
    if ticks != [] {
      var init := ticks[..|ticks| - 1];
      TextShowsLastSeconds(w0, init);
      var prev := Loop(w0, init);
      var t := ticks[|ticks| - 1];
      if !prev.exited && !t.cancelled && !t.paused && t.probe == Run {
        RunningTick(prev.watch, t);
      }
    }
  }

  /**
   * A pause/resume cycle: a stretch of running samples, a stretch of paused
   * ticks of any length, then one running sample. The duration gained is
   * the span of the running stretch plus the time since the last paused
   * tick; nothing of the pause is credited, and nothing before it twice.
   */
  lemma PauseResumeCycle(w0: Watch, running: seq<Tick>, paused: seq<Tick>, t: Tick)
    requires Monotone(w0.lastUpdate, running)
    requires forall i :: 0 <= i < |running| ==> !running[i].cancelled && !running[i].paused && running[i].probe == Run
    requires |paused| > 0
    requires forall i :: 0 <= i < |paused| ==> !paused[i].cancelled && paused[i].paused
    requires !t.cancelled && !t.paused && t.probe == Run
    ensures Loop(w0, running + paused + [t]).watch.duration ==
            w0.duration + (Latest(w0.lastUpdate, running) - w0.lastUpdate) +
            SaturatingSince(t.now, paused[|paused| - 1].now)
  {
    AllRunning(w0, running);
    var first := Loop(w0, running);
    assert running + paused + [t] == running + (paused + [t]);
    LoopAppend(w0, running, paused + [t]);
    ResumeCreditsOnlySinceLastPausedTick(first.watch, paused, t);
  }
}
