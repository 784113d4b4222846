/**
 * The application state of src/app.js as an object: the `frames` array, the
 * `isPlaying` flag, the timers showNextFrame has scheduled and the frame on
 * the canvas, with the click handlers and the save routine as methods.
 */
module App {
  import opened Wrappers
  import opened SavePath
  import opened DataUrl
  import opened Staging
  import Animation

  /** What one call of saveVideo does: the directory it creates, the files it writes, the encoder's input and output. */
  datatype Export = Export(tempDir: string, writes: seq<FileWrite>, input: string, output: string)

  class Studio {
    var frames: seq<Animation.Frame>
    var isPlaying: bool
    var pending: seq<nat>
    var shown: Option<Animation.Frame>

    function Snapshot(): Animation.State
      reads this
    {
      Animation.State(frames, isPlaying, pending, shown)
    }

    constructor ()
      ensures Snapshot() == Animation.INITIAL
    {
      frames, isPlaying, pending, shown := [], false, [], None;
    }

    method RefreshCanvas()
      modifies this
      ensures Snapshot() == Animation.RefreshCanvas(old(Snapshot()))
    {
      if |frames| > 0 {
        shown := Some(frames[|frames| - 1]);
      } else {
        shown := None;
      }
    }

    /** addFrame: `frames.push(canvas.toDataURL())`, with the snapshot as f. */
    method AddFrame(f: Animation.Frame)
      modifies this
      ensures frames == old(frames) + [f] && isPlaying == old(isPlaying) && pending == old(pending)
      ensures Snapshot() == Animation.AddFrame(old(Snapshot()), f)
    {
      shown := Some(f);
      frames := frames + [f];
    }

    /** removeFrame: `frames.pop()`, then refreshCanvas. */
    method RemoveFrame()
      modifies this
      ensures Snapshot() == Animation.RemoveFrame(old(Snapshot()))
    {
      if |frames| > 0 {
        frames := frames[..|frames| - 1];
      }
      RefreshCanvas();
    }

    method ShowNextFrame(index: nat)
      modifies this
      ensures Snapshot() == Animation.ShowNextFrame(old(Snapshot()), index)
    {
      if index < |frames| && isPlaying {
        shown := Some(frames[index]);
        pending := pending + [index + 1];
      } else {
        isPlaying := false;
        RefreshCanvas();
      }
    }

    /** The play button's click handler. */
    method TogglePlay()
      modifies this
      ensures Snapshot() == Animation.TogglePlay(old(Snapshot()))
    {
      if !isPlaying {
        isPlaying := true;
        ShowNextFrame(0);
      } else {
        isPlaying := false;
        RefreshCanvas();
      }
    }

    /** The oldest scheduled `setTimeout(showNextFrame, ..., index + 1)` fires. */
    method Tick()
      modifies this
      ensures Snapshot() == Animation.Tick(old(Snapshot()))
    {
      if pending != [] {
        var index := pending[0];
        pending := pending[1..];
        ShowNextFrame(index);
      }
    }

    /**
     * saveVideo(output), with n the value of `Math.floor(Math.random() * 1000000)`.
     * An empty output does nothing. Otherwise the parts of the split name the
     * staging directory and every frame's file; a path that does not split
     * contributes the text "undefined", as JavaScript's concatenation does.
     */
    method SaveVideo(output: string, n: nat) returns (plan: Option<Export>)
      requires n < 1000000
      ensures plan.None? <==> output == ""
      ensures plan.Some? ==>
        var fileName := FileName(output);
        var e := plan.value;
        e.tempDir == TempDir(Directory(output), n)
        && e.input == InputPattern(e.tempDir, fileName)
        && e.output == output
        && |e.writes| == |frames|
        && forall i :: 0 <= i < |frames| ==>
             e.writes[i] == FileWrite(StagedPath(e.tempDir, fileName, i), StripDataUrl(frames[i]))
    {
      if output == "" {
        return None;
      }
      var directory := Directory(output);
      var fileName := FileName(output);
      var tempDir := directory + "tmp-" + Suffix6(n) + "/";
      var writes: seq<FileWrite> := [];
      for i := 0 to |frames|
        invariant |writes| == i
        invariant forall j :: 0 <= j < i ==>
          writes[j] == FileWrite(StagedPath(tempDir, fileName, j), StripDataUrl(frames[j]))
      {
        var frameBase64Data := StripDataUrl(frames[i]);
        var tempPath := tempDir + fileName + "-" + Pad2(i) + ".png";
        writes := writes + [FileWrite(tempPath, frameBase64Data)];
      }
      var input := tempDir + fileName + "-%02d.png";
      plan := Some(Export(tempDir, writes, input, output));
    }
  }
}
