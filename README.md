# Animation tinkering station: frame store, preview walk and export naming

This project models the deterministic core of the stop-motion capture tool in
`src/app.js`: the in-memory frame store that the "add frame" and "remove
frame" buttons edit, the play/stop toggle and the timer-driven walk that shows
the frames one after another, and the names that saving an animation builds.
Saving splits the chosen output path with `^(.+\/)(.+)\.(.+)$`, creates a
temporary directory `<directory>tmp-<six digits>/`, writes every frame (its
data URL with the `data:image/...;base64,` prefix removed) to
`<tempDir><fileName>-<two digits>.png`, and hands the encoder the pattern
`<tempDir><fileName>-%02d.png`.

Modules, one per concept:

- `Wrappers`: `Option`, standing for JavaScript's `undefined`.
- `Decimal`: the decimal text of a non-negative number (`'0' + i`), `slice(-k)`,
  and fixed-width digit strings with their numeric value.
- `SavePath`: the regular-expression split, with its backtracking and greedy
  matching stated exactly (`.` does not match line terminators).
- `DataUrl`: the prefix removal of each frame's data URL.
- `Staging`: two-digit frame index, six-digit directory suffix, temporary
  directory, staged paths and the encoder's input pattern.
- `Animation`: the frame store and the preview as a state machine over values.
  Each `setTimeout` that `showNextFrame` schedules is a pending index; a `Tick`
  fires the oldest one.
- `App`: class `Studio`, the module-level state (`frames`, `isPlaying`, the
  pending timers, the frame on the canvas) with the click handlers and
  `saveVideo` as methods. Each state-changing method is proved to produce
  exactly the `Animation` function of its old state; `SaveVideo` runs the
  staging `for` loop and is proved against the `Staging` names.

The model follows the code as written, including where it checks nothing:

- A path that does not split is not rejected. JavaScript turns the
  `undefined` parts into the text `"undefined"`, so the staging directory
  becomes `undefinedtmp-NNNNNN/` and the files `undefined-NN.png`.
  `SavePath.Directory` and `SavePath.FileName` give exactly that text.
- An empty frame store is not rejected. The export still creates the
  directory and calls the encoder, with no files written.
- The index width is fixed at two digits. From frame 100 on, staged names
  collide with earlier ones (`Staging.StagedPathsDistinct`), and the encoder's
  `%02d` names a different file (`Staging.InputPatternAddressesFrames`).
- Stopping playback does not cancel the pending timer. If play is pressed again
  before that timer fires, two walks run at once
  (`Animation.RestartKeepsOldWalk`).

## Model

| member | source | states |
|---|---|---|
| `Decimal.ToText` | src/app.js:150 | The text of `'0' + i` after the `'0'`: at least one decimal digit, with no leading zero unless the number is 0 |
| `Decimal.ToTextLength` | src/app.js:150 | Numbers from 10 on have at least two digits, from 100 on at least three |
| `Decimal.ValueOfToText` | src/app.js:150 | The decimal text reads back as the number it was made from |
| `Decimal.SliceFromEnd` | src/app.js:145 | `slice(-k)` keeps the last k characters, or the whole string when it is shorter |
| `Decimal.SliceOfPadded` | src/app.js:145 | Prefixing at least k-1 zeros and keeping the last k characters gives the k low-order digits of the number |
| `Decimal.TailOfPadded` | src/app.js:145 | The last k characters of the zero-padded decimal form are the k low-order digits, whenever at least k-1 zeros were prefixed |
| `Decimal.PaddedSliceValue` | src/app.js:145 | The padded slice has exactly k characters, all digits, with value n mod 10^k |
| `Decimal.ValueOfFixed` | src/app.js:145 | The k low-order digits read back as the number modulo 10^k |
| `Decimal.FixedInjective` | src/app.js:145 | Two k-digit strings are equal exactly when the numbers agree modulo 10^k |
| `SavePath.LastDotSome` | src/app.js:141-142 | The '.' found is at a position in [1, j], and no '.' follows it up to j |
| `SavePath.LastDotNone` | src/app.js:141-142 | When no '.' is found there is none at any position in [1, j] |
| `SavePath.SplitNameSpec` | src/app.js:139-142 | `(.+)\.(.+)$`: name and extension are non-empty, join to the text with a '.', and no later '.' leaves a non-empty extension |
| `SavePath.SplitNameComplete` | src/app.js:139-142 | Any '.' with a character on each side lets `(.+)\.(.+)$` match, with a name reaching at least that '.' |
| `SavePath.SplitAtSome` | src/app.js:139-140 | The directory chosen ends in the last '/' (after at least one character) whose remainder splits into name and extension |
| `SavePath.SplitAtNone` | src/app.js:139-140 | No match means no '/' after the first character has a remainder that splits |
| `SavePath.SplitAtReaches` | src/app.js:139-140 | A '/' after the first character whose remainder splits is always found, or a later one is |
| `SavePath.SplitPath` | src/app.js:138-139 | Round trip: when the expression matches, directory + name + "." + extension is the path, the directory ends in '/' after at least one character, name and extension are non-empty; a path with a line terminator never matches |
| `SavePath.Directory` | src/app.js:139-145 | The captured directory is a '/'-terminated proper prefix of the path; with no match it is the text "undefined" |
| `SavePath.FileName` | src/app.js:139-150 | The captured name is the non-empty text right after the directory, followed by a '.'; with no match it is the text "undefined" |
| `SavePath.SplitAtGreedy` | src/app.js:138-142 | Backtracking from the end finds a match for every decomposition, with a directory at least as long, and a name at least as long when the directories agree |
| `SavePath.SplitPathGreedy` | src/app.js:138-142 | Every way the expression can match is found, and the result has the longest directory, then the longest name |
| `SavePath.SplitPathNoneIff` | src/app.js:138-139 | The split yields no parts exactly when the path has no directory/name.extension decomposition |
| `SavePath.SplitAtLastSeparators` | src/app.js:138-142 | With no '/' after position k and no '.' between position l and the last character, the directory ends at k and the extension starts after l |
| `SavePath.SplitMoviePath` | src/app.js:138-142 | `/tmp/out/movie.mp4` splits into `/tmp/out/`, `movie`, `mp4` |
| `SavePath.SplitDoubleExtension` | src/app.js:138-142 | `/d/a.tar.gz` splits into `/d/`, `a.tar`, `gz` |
| `SavePath.NoExtensionRejected` | src/app.js:138-139 | `/tmp/out/movie` does not match |
| `SavePath.RootFileRejected` | src/app.js:138-140 | `/movie.mp4` does not match, since `.+` needs a character before the '/' |
| `DataUrl.StripDataUrl` | src/app.js:149 | The result is a suffix of the frame; it equals the frame exactly when no png/jpg/jpeg data-URL prefix is present, and otherwise what was removed is one of those prefixes |
| `DataUrl.StripRemovesOnePrefix` | src/app.js:149 | Removing undoes prepending any one of the three prefixes, whatever the payload |
| `Staging.Pad2` | src/app.js:150 | `('0' + i).slice(-2)` is always exactly two decimal digits |
| `Staging.Pad2IsFixed` | src/app.js:150 | `('0' + i).slice(-2)` is the two low-order digits of i |
| `Staging.Pad2Pair` | src/app.js:150 | pad2 is the tens digit of i followed by its units digit |
| `Staging.Pad2Value` | src/app.js:150 | pad2 is two decimal digits whose value is i mod 100 |
| `Staging.Pad2Short` | src/app.js:150 | Below 10 pad2 is "0" and the digit; from 10 to 99 it is the decimal form itself |
| `Staging.Pad2Long` | src/app.js:150 | From 100 on the decimal form has at least three digits and pad2 keeps only its last two |
| `Staging.Pad2Collides` | src/app.js:150 | pad2 of i and of j are equal exactly when i and j agree modulo 100 |
| `Staging.Pad2MatchesPrintf` | src/app.js:150 | pad2 agrees with the encoder's `%02d` exactly for indices below 100 |
| `Staging.Suffix6` | src/app.js:145 | `('000000' + n).slice(-6)` is always exactly six decimal digits |
| `Staging.Suffix6Digits` | src/app.js:145 | The directory suffix is six decimal digits with value n mod 1000000, so exactly n for every value of the random draw |
| `Staging.TempDirCollides` | src/app.js:145 | Two temporary directories under one directory coincide exactly when the two draws are equal |
| `Staging.TempDir` | src/app.js:145 | The temporary directory extends the output's directory by one component: 11 more characters, ending in '/', with no other '/' |
| `Staging.StagedPath` | src/app.js:150 | Frame i's file is the stem tempDir + fileName + "-" followed by pad2(i) and ".png", 7 characters longer than tempDir + fileName |
| `Staging.InputPattern` | src/app.js:158 | The encoder's input is every staged path's stem followed by `%02d.png`, so it differs from a staged path only in the index field |
| `Staging.StagedPathCollides` | src/app.js:150 | Two frames' staged paths are equal exactly when their indices agree modulo 100 |
| `Staging.StagedPathsDistinct` | src/app.js:148-150 | The staged paths of frames 0..N-1 are pairwise distinct exactly when N <= 100 |
| `Staging.InputPatternAddressesFrames` | src/app.js:150-158 | Filling the input pattern's `%02d` with i, as the encoder does, gives frame i's staged file exactly when i < 100 |
| `Animation.LastFrame` | src/app.js:56-67 | The canvas shows the newest frame when there is one and is cleared otherwise |
| `Animation.AddThenRemove` | src/app.js:83-96 | Removing right after capturing restores the store and shows the previous newest frame |
| `Animation.RefreshCanvas` | src/app.js:56-67 | The canvas shows the newest frame, or is cleared when there is none; store, flag and timers are unchanged |
| `Animation.AddFrame` | src/app.js:83-91 | Capturing appends exactly f after the earlier frames, the canvas shows it as the newest frame, flag and timers are unchanged |
| `Animation.RemoveFrame` | src/app.js:93-96 | Removing takes only the newest frame, changes nothing on an empty store, then shows the new newest frame |
| `Animation.ShowNextFrame` | src/app.js:101-115 | While the index is in range and playing, the frame at the index is shown and index + 1 is scheduled; otherwise isPlaying is cleared and the newest frame shown, with nothing scheduled |
| `Animation.TogglePlay` | src/app.js:29-39 | The toggle starts playback (showing frame 0, scheduling index 1) only when stopped with frames present; otherwise it stops and shows the newest frame |
| `Animation.Tick` | src/app.js:108 | The oldest timer fires: its walk goes one index further while the index is in range and playing, and otherwise ends with isPlaying cleared; with no timer pending nothing changes |
| `Animation.PlaybackRun` | src/app.js:98-116 | From a stopped store, the k-th tick shows frame k for k below the length; the tick after the last frame ends the walk with isPlaying false |
| `Animation.WalkStaysEnded` | src/app.js:110-114 | With no timer pending, ticks change nothing |
| `Animation.PlayEmptyStore` | src/app.js:29-33 | Playing an empty store ends at once with a cleared canvas and nothing scheduled |
| `Animation.StopEndsWalk` | src/app.js:34-37 | After stop, the one pending timer ends the walk and shows the newest frame |
| `Animation.RestartKeepsOldWalk` | src/app.js:29-39 | Stop then play before the timer fires leaves two walks, and the old one keeps advancing |
| `App.Studio.constructor` | src/app.js:7-8 | Starts with no frames, stopped, nothing pending, blank canvas |
| `App.Studio.RefreshCanvas` | src/app.js:56-67 | The canvas becomes the newest frame, or blank |
| `App.Studio.AddFrame` | src/app.js:83-91 | `frames` gains f at the end; the flag and the timers are unchanged |
| `App.Studio.RemoveFrame` | src/app.js:93-96 | The new state is `Animation.RemoveFrame` of the old |
| `App.Studio.ShowNextFrame` | src/app.js:101-115 | The new state is `Animation.ShowNextFrame` of the old |
| `App.Studio.TogglePlay` | src/app.js:29-39 | The new state is `Animation.TogglePlay` of the old |
| `App.Studio.Tick` | src/app.js:108 | The new state is `Animation.Tick` of the old |
| `App.Studio.SaveVideo` | src/app.js:134-158 | Nothing happens for an empty path; otherwise one write per frame in index order, frame i to its staged path with its stripped payload, in the temporary directory under the split directory, and the `%02d` input pattern |

## Left out

- Camera access through `webkitGetUserMedia` and its error callback: device input. A frame is an opaque string.
- Canvas drawing, the mirroring transform, `toDataURL`, image `onload`, the canvas opacity and the button and icon classes: browser drawing and DOM state. Only the frame the canvas shows is kept.
- The save dialog and its promise: the chosen path is an input of `SaveVideo`; a cancelled dialog never calls it.
- `fs.mkdirSync`, the unawaited `fs.writeFile` calls, `unlinkSync` and `rmdirSync`: filesystem side effects. `SaveVideo`'s `Export` describes a run in which `fs.mkdirSync(tempDir)` (src/app.js:146) returns: when it throws (the directory already exists, for instance a `tmp-` directory left behind by an earlier run whose encoder never reached `end`, or a missing parent, or no permission), nothing after line 146 happens, so no file is written and no encoder is started. For a run that gets past it, `SaveVideo` returns the directory to create and the writes in the order they are issued; their completion order and the cleanup on the encoder's `end` event are not modelled.
- The `fluent-ffmpeg` call and its fixed options (`-r 4`, `-y`, `-r 30`, `-pix_fmt yuv420p`, `libx264`): an external process. Only its input pattern and output path are modelled.
- `Math.random`: a parameter `n` below 1000000 stands for `Math.floor(Math.random() * 1000000)`.
- `setTimeout` timing and the interval of 1000 / FRAME_RATE: each timer firing is one abstract tick, oldest first.
- The commented-out upload code.
