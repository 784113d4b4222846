/**
 * The frame store and the flipbook preview of src/app.js as a state machine.
 *
 * `frames` is the module-level array that addFrame pushes to and removeFrame
 * pops from. `isPlaying` is the play/stop flag. Each `setTimeout` that
 * showNextFrame schedules is kept, oldest first, in `pending` as the index it
 * will be called with; a Tick is one such timer firing. The walk reads the
 * same `frames` array it was started on, so frames added or removed during
 * playback are seen by the next tick. `shown` is the frame the canvas shows.
 */
module Animation {
  import opened Wrappers

  /** A captured frame: the opaque data URL returned by `canvas.toDataURL()`. */
  type Frame = string

  datatype State = State(frames: seq<Frame>, isPlaying: bool, pending: seq<nat>, shown: Option<Frame>)

  const INITIAL: State := State([], false, [], None)

  /** refreshCanvas: the most recent frame, or a cleared canvas when there is none. */
  function LastFrame(frames: seq<Frame>): (r: Option<Frame>)
    ensures r.None? <==> frames == []
    ensures r.Some? ==> r.value == frames[|frames| - 1]
  {
    if |frames| > 0 then Some(frames[|frames| - 1]) else None
  }

  /** refreshCanvas: the canvas shows the newest frame, or is cleared; nothing else changes. */
  function RefreshCanvas(s: State): (r: State)
    ensures r.frames == s.frames && r.isPlaying == s.isPlaying && r.pending == s.pending
    ensures r.shown.None? <==> s.frames == []
    ensures r.shown.Some? ==> r.shown.value == s.frames[|s.frames| - 1]
  {
    s.(shown := LastFrame(s.frames))
  }

  /** addFrame: the snapshot drawn on the canvas is pushed as the newest frame. */
  function AddFrame(s: State, f: Frame): (r: State)
    ensures |r.frames| == |s.frames| + 1 && r.frames[..|s.frames|] == s.frames && r.frames[|s.frames|] == f
    ensures r.shown == LastFrame(r.frames) == Some(f)
    ensures r.isPlaying == s.isPlaying && r.pending == s.pending
  {
    s.(frames := s.frames + [f], shown := Some(f))
  }

  /** removeFrame: `frames.pop()` (nothing on an empty store), then refreshCanvas. */
  function RemoveFrame(s: State): (r: State)
    ensures s.frames == [] ==> r.frames == []
    ensures s.frames != [] ==> r.frames + [s.frames[|s.frames| - 1]] == s.frames
    ensures r.shown == LastFrame(r.frames)
    ensures r.isPlaying == s.isPlaying && r.pending == s.pending
  {
    var kept := if s.frames == [] then [] else s.frames[..|s.frames| - 1];
    assert s.frames != [] ==> kept + [s.frames[|s.frames| - 1]] == s.frames;
    RefreshCanvas(s.(frames := kept))
  }

  /** showNextFrame(index): show frame index and schedule index + 1, or end the walk. */
  function ShowNextFrame(s: State, index: nat): (r: State)
    ensures r.frames == s.frames
    ensures r.isPlaying <==> index < |s.frames| && s.isPlaying
    ensures r.isPlaying ==> r.shown == Some(s.frames[index]) && r.pending == s.pending + [index + 1]
    ensures !r.isPlaying ==> r.shown == LastFrame(s.frames) && r.pending == s.pending
  {
    if index < |s.frames| && s.isPlaying then
      s.(shown := Some(s.frames[index]), pending := s.pending + [index + 1])
    else
      RefreshCanvas(s.(isPlaying := false))
  }

  /**
   * The click handler of the play button. It starts playback only when stopped
   * and there is a frame to show (otherwise the walk ends at once); when
   * playing it stops.
   */
  function TogglePlay(s: State): (r: State)
    ensures r.isPlaying <==> !s.isPlaying && s.frames != []
    ensures r.frames == s.frames
    ensures !s.isPlaying && s.frames != [] ==> r.shown == Some(s.frames[0]) && r.pending == s.pending + [1]
    ensures s.isPlaying || s.frames == [] ==> r.shown == LastFrame(s.frames) && r.pending == s.pending
  {
    if !s.isPlaying then ShowNextFrame(s.(isPlaying := true), 0)
    else RefreshCanvas(s.(isPlaying := false))
  }

  /**
   * The oldest pending timer fires: it continues the walk it belongs to one
   * frame further, or ends it; with no timer pending nothing happens.
   */
  function Tick(s: State): (r: State)
    ensures r.frames == s.frames
    ensures s.pending == [] ==> r == s
    ensures s.pending != [] ==>
      var i := s.pending[0];
      if i < |s.frames| && s.isPlaying then
        r == s.(shown := Some(s.frames[i]), pending := s.pending[1..] + [i + 1])
      else
        r == s.(isPlaying := false, pending := s.pending[1..], shown := LastFrame(s.frames))
  {
    if s.pending == [] then s
    else ShowNextFrame(s.(pending := s.pending[1..]), s.pending[0])
  }

  function Ticks(s: State, k: nat): State {
    if k == 0 then s else Tick(Ticks(s, k - 1))
  }

  /** Removing right after capturing restores the store and shows the previous newest frame again. */
  lemma AddThenRemove(s: State, f: Frame)
    ensures AddFrame(s, f).frames == s.frames + [f]
    ensures RemoveFrame(AddFrame(s, f)).frames == s.frames
    ensures RemoveFrame(AddFrame(s, f)).shown == LastFrame(s.frames)
  {
    assert (s.frames + [f])[..|s.frames|] == s.frames;
  }

  /**
   * A playback run from a stopped store with no timers pending shows frames
   * 0, 1, 2, ... in order, one per tick, while the index is below the length;
   * the tick after the last frame clears isPlaying and ends the walk.
   */
  lemma {:induction false} PlaybackRun(frames: seq<Frame>, shown: Option<Frame>, k: nat)
    requires frames != [] && k <= |frames|
    ensures var s := Ticks(TogglePlay(State(frames, false, [], shown)), k);
      if k < |frames| then s == State(frames, true, [k + 1], Some(frames[k]))
      else s == State(frames, false, [], LastFrame(frames))
  {
    if k > 0 {
      PlaybackRun(frames, shown, k - 1);
    }
  }

  /** After the walk has ended, further ticks change nothing. */
  lemma {:induction false} WalkStaysEnded(s: State, k: nat)
    requires s.pending == []
    ensures Ticks(s, k) == s
  {
    if k > 0 {
      WalkStaysEnded(s, k - 1);
    }
  }

  /** Playing with no frames ends at once: nothing is scheduled and the canvas is cleared. */
  lemma PlayEmptyStore(shown: Option<Frame>, pending: seq<nat>)
    ensures TogglePlay(State([], false, pending, shown)) == State([], false, pending, None)
  {
  }

  /** Stopping a single walk: its next tick ends it and shows the newest frame. */
  lemma StopEndsWalk(frames: seq<Frame>, shown: Option<Frame>, next: nat)
    ensures Tick(TogglePlay(State(frames, true, [next], shown))) == State(frames, false, [], LastFrame(frames))
  {
  }

  /**
   * Stopping and restarting before the old timer fires leaves two walks: the
   * old one is not cancelled, because its next call sees isPlaying true again.
   */
  lemma RestartKeepsOldWalk(frames: seq<Frame>, shown: Option<Frame>, next: nat)
    requires frames != [] && next < |frames|
    ensures var s := TogglePlay(TogglePlay(State(frames, true, [next], shown)));
      s.isPlaying && s.pending == [next, 1]
      && Tick(s) == State(frames, true, [1, next + 1], Some(frames[next]))
  {
  }
}
