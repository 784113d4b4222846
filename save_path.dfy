/**
 * The split of the chosen output path by the regular expression
 * `^(.+\/)(.+)\.(.+)$` (src/app.js, saveVideo). JavaScript's `split` with a
 * capturing regular expression that matches the whole string yields
 * `["", directory, fileName, extension, ""]`; when it does not match it yields
 * `[output]`, so the three destructured parts are `undefined`.
 *
 * Backtracking with greedy `.+` picks the decomposition whose directory is
 * longest and, for that directory, whose file name is longest. The `.` of a
 * JavaScript regular expression matches any character but a line terminator.
 */
module SavePath {
  import opened Wrappers

  datatype Parts = Parts(dir: string, name: string, ext: string)

  predicate IsLineTerminator(c: char) {
    c == '\n' || c == '\r' || c == '\U{2028}' || c == '\U{2029}'
  }

  predicate SingleLine(s: string) {
    forall i :: 0 <= i < |s| ==> !IsLineTerminator(s[i])
  }

  /** The largest position L with 1 <= L <= j holding a '.', if any. */
  function LastDot(r: string, j: int): (dot: Option<nat>)
    requires j < |r|
    ensures dot.Some? ==> 1 <= dot.value <= j
    decreases j
  {
    if j < 1 then None else if r[j] == '.' then Some(j) else LastDot(r, j - 1)
  }

  /** What LastDot finds is a '.' in [1, j] with no '.' after it up to j. */
  lemma {:induction false} LastDotSome(r: string, j: int)
    requires j < |r| && LastDot(r, j).Some?
    ensures var l := LastDot(r, j).value;
      1 <= l <= j && r[l] == '.' && forall m :: l < m <= j ==> r[m] != '.'
    decreases j
  {
    if r[j] != '.' {
      LastDotSome(r, j - 1);
    }
  }

  /** When LastDot finds nothing there is no '.' in [1, j]. */
  lemma {:induction false} LastDotNone(r: string, j: int)
    requires j < |r| && LastDot(r, j).None?
    ensures forall m :: 1 <= m <= j ==> r[m] != '.'
    decreases j
  {
    if j >= 1 {
      LastDotNone(r, j - 1);
    }
  }

  /**
   * `(.+)\.(.+)$` on the text after the directory: the name runs up to the
   * last '.' that has at least one character before it and one after it.
   */
  function SplitName(r: string): Option<(string, string)> {
    if |r| < 3 then None
    else
      match LastDot(r, |r| - 2)
      case None => None
      case Some(l) => Some((r[..l], r[l + 1..]))
  }

  /** Name and extension are non-empty, join back with the '.', and no later '.' leaves an extension. */
  lemma SplitNameSpec(r: string)
    requires SplitName(r).Some?
    ensures var ne := SplitName(r).value;
      |ne.0| >= 1 && |ne.1| >= 1 && r == ne.0 + "." + ne.1
      && forall m :: |ne.0| < m <= |r| - 2 ==> r[m] != '.'
  {
    LastDotSome(r, |r| - 2);
    var l := LastDot(r, |r| - 2).value;
    assert r == r[..l] + "." + r[l + 1..];
  }

  /** Any '.' with a character on each side lets the name part match, and the name reaches it. */
  lemma SplitNameComplete(r: string, l: nat)
    requires 1 <= l <= |r| - 2 && r[l] == '.'
    ensures SplitName(r).Some? && |SplitName(r).value.0| >= l
  {
    if LastDot(r, |r| - 2).None? {
      LastDotNone(r, |r| - 2);
    } else {
      LastDotSome(r, |r| - 2);
    }
  }

  /**
   * `^(.+\/)` with backtracking: try the '/' at the largest position k <= j
   * (k >= 1, so the directory has a character before its last '/') whose
   * remainder splits into a name and an extension.
   */
  function SplitAt(s: string, j: int): (p: Option<Parts>)
    requires j < |s|
    decreases j
  {
    if j < 1 then None
    else if s[j] == '/' then
      match SplitName(s[j + 1..])
      case Some(ne) => Some(Parts(s[..j + 1], ne.0, ne.1))
      case None => SplitAt(s, j - 1)
    else SplitAt(s, j - 1)
  }

  /** Position k holds a '/' whose remainder the name part matches. */
  predicate SlashBeforeName(s: string, k: nat)
    requires k < |s|
  {
    s[k] == '/' && SplitName(s[k + 1..]).Some?
  }

  /** When SplitAt finds nothing, no '/' in [1, j] has a remainder that splits. */
  lemma {:induction false} SplitAtNone(s: string, j: int)
    requires j < |s| && SplitAt(s, j).None?
    ensures forall k :: 1 <= k <= j ==> !SlashBeforeName(s, k)
    decreases j
  {
    if j >= 1 {
      assert SplitAt(s, j) == SplitAt(s, j - 1);
      SplitAtNone(s, j - 1);
    }
  }

  /**
   * What SplitAt finds is the last '/' at a position in [1, j] whose remainder
   * splits: every later '/' has a remainder that does not.
   */
  lemma {:induction false} SplitAtSome(s: string, j: int)
    requires j < |s| && SplitAt(s, j).Some?
    ensures var p := SplitAt(s, j).value;
      2 <= |p.dir| <= j + 1 && p.dir == s[..|p.dir|]
      && s[|p.dir| - 1] == '/'
      && SplitName(s[|p.dir|..]) == Some((p.name, p.ext))
      && forall k :: |p.dir| <= k <= j ==> !SlashBeforeName(s, k)
    decreases j
  {
    if !(s[j] == '/' && SplitName(s[j + 1..]).Some?) {
      assert SplitAt(s, j) == SplitAt(s, j - 1);
      SplitAtSome(s, j - 1);
    }
  }

  /**
   * The three captured groups, or None when the expression does not match.
   * Round trip: the parts found concatenate back to the path, with the
   * separators, and a path spanning several lines never matches.
   */
  function SplitPath(s: string): (r: Option<Parts>)
    ensures !SingleLine(s) ==> r.None?
    ensures r.Some? ==> Decomposes(s, r.value)
  {
    if !SingleLine(s) then None
    else
      var r := SplitAt(s, |s| - 1);
      if r.None? then r
      else
        SplitAtSome(s, |s| - 1);
        SplitNameSpec(s[|r.value.dir|..]);
        JoinAt(s, r.value);
        r
  }

  /**
   * `${directory}`: the captured directory, a '/'-terminated prefix of the
   * path, or the text JavaScript gives `undefined`.
   */
  function Directory(output: string): (d: string)
    ensures SplitPath(output).None? ==> d == "undefined"
    ensures SplitPath(output).Some? ==> 2 <= |d| < |output| && d == output[..|d|] && d[|d| - 1] == '/'
  {
    match SplitPath(output)
    case Some(p) => DecompositionPositions(output, p); p.dir
    case None => "undefined"
  }

  /**
   * `fileName` as it is concatenated into the staged paths: the non-empty text
   * between the directory and the extension's '.', or "undefined".
   */
  function FileName(output: string): (f: string)
    ensures SplitPath(output).None? ==> f == "undefined"
    ensures SplitPath(output).Some? ==>
      var k := |SplitPath(output).value.dir|;
      1 <= |f| && k + |f| < |output| && f == output[k..k + |f|] && output[k + |f|] == '.'
  {
    match SplitPath(output)
    case Some(p) => DecompositionPositions(output, p); p.name
    case None => "undefined"
  }

  /** p is one way the expression can match s: directory + name + "." + extension. */
  ghost predicate Decomposes(s: string, p: Parts) {
    SingleLine(s)
    && |p.dir| >= 2 && p.dir[|p.dir| - 1] == '/'
    && |p.name| >= 1 && |p.ext| >= 1
    && p.dir + p.name + "." + p.ext == s
  }

  /** a is preferred over b by greedy matching: longer directory, then longer name. */
  predicate AtLeastAsGreedy(a: Parts, b: Parts) {
    |a.dir| > |b.dir| || (|a.dir| == |b.dir| && |a.name| >= |b.name|)
  }

  /** A '/'-terminated prefix followed by name "." ext is a decomposition. */
  lemma JoinAt(s: string, p: Parts)
    requires SingleLine(s) && 2 <= |p.dir| <= |s| && p.dir == s[..|p.dir|] && s[|p.dir| - 1] == '/'
    requires |p.name| >= 1 && |p.ext| >= 1 && s[|p.dir|..] == p.name + "." + p.ext
    ensures Decomposes(s, p)
  {
    var k := |p.dir|;
    assert s == s[..k] + s[k..];
    assert p.dir + p.name + "." + p.ext == s[..k] + (p.name + "." + p.ext);
    assert p.dir[k - 1] == s[k - 1];
  }

  /** A decomposition puts a '/' before a remainder that the name part matches. */
  lemma DecompositionRemainder(s: string, p: Parts)
    requires Decomposes(s, p)
    ensures s[..|p.dir|] == p.dir && s[|p.dir| - 1] == '/'
    ensures SplitName(s[|p.dir|..]).Some? && |SplitName(s[|p.dir|..]).value.0| >= |p.name|
    ensures SlashBeforeName(s, |p.dir| - 1)
  {
    var rest := p.name + "." + p.ext;
    assert s == p.dir + rest;
    assert s[|p.dir|..] == rest;
    assert rest[|p.name|] == '.';
    SplitNameComplete(rest, |p.name|);
    assert s[|p.dir| - 1 + 1..] == rest;
  }

  /** A '/' at position k whose remainder splits is found, or a later one is. */
  lemma SplitAtReaches(s: string, j: int, k: nat)
    requires j < |s| && 1 <= k <= j && SlashBeforeName(s, k)
    ensures SplitAt(s, j).Some? && |SplitAt(s, j).value.dir| >= k + 1
  {
    if SplitAt(s, j).None? {
      SplitAtNone(s, j);
    } else {
      SplitAtSome(s, j);
    }
  }

  /**
   * Every decomposition of s is matched, and the one that is returned is the
   * greediest of all.
   */
  lemma SplitPathGreedy(s: string, p: Parts)
    requires Decomposes(s, p)
    ensures SplitPath(s).Some? && AtLeastAsGreedy(SplitPath(s).value, p)
  {
    SplitAtGreedy(s, p);
  }

  /** The search from the last position finds a match at least as greedy as p. */
  lemma SplitAtGreedy(s: string, p: Parts)
    requires Decomposes(s, p)
    ensures SplitAt(s, |s| - 1).Some? && AtLeastAsGreedy(SplitAt(s, |s| - 1).value, p)
  {
    DecompositionRemainder(s, p);
    SplitAtReaches(s, |s| - 1, |p.dir| - 1);
    var q := SplitAt(s, |s| - 1).value;
    if |q.dir| == |p.dir| {
      SplitAtSome(s, |s| - 1);
    }
  }

  /** The expression fails exactly when the path has no decomposition at all. */
  lemma SplitPathNoneIff(s: string)
    ensures SplitPath(s).None? <==> forall p :: !Decomposes(s, p)
  {
    forall p | Decomposes(s, p) ensures SplitPath(s).Some? {
      SplitPathGreedy(s, p);
    }
  }

  /** The parts a matching decomposition determines from its positions. */
  lemma DecompositionPositions(s: string, q: Parts)
    requires Decomposes(s, q)
    ensures s[|q.dir| - 1] == '/' && s[|q.dir| + |q.name|] == '.'
    ensures q.dir == s[..|q.dir|] && q.name == s[|q.dir|..|q.dir| + |q.name|]
    ensures q.ext == s[|q.dir| + |q.name| + 1..]
  {
    assert s == q.dir + q.name + "." + q.ext;
  }

  /**
   * When the path holds no '/' after position k and no '.' between position l
   * and its last character, the directory ends at that last '/' and the
   * extension starts after that last '.'.
   */
  lemma SplitAtLastSeparators(s: string, k: nat, l: nat)
    requires SingleLine(s) && 1 <= k && k + 2 <= l <= |s| - 2
    requires s[k] == '/' && s[l] == '.'
    requires forall i :: k < i < |s| ==> s[i] != '/'
    requires forall i :: l < i < |s| - 1 ==> s[i] != '.'
    ensures SplitPath(s) == Some(Parts(s[..k + 1], s[k + 1..l], s[l + 1..]))
  {
    var p := Parts(s[..k + 1], s[k + 1..l], s[l + 1..]);
    assert s == p.dir + p.name + "." + p.ext;
    assert Decomposes(s, p);
    SplitPathGreedy(s, p);
    var q := SplitPath(s).value;
    DecompositionPositions(s, q);
    assert |q.dir| == k + 1;
    assert |q.dir| + |q.name| == l;
  }

  lemma SplitMoviePath()
    ensures SplitPath("/tmp/out/movie.mp4") == Some(Parts("/tmp/out/", "movie", "mp4"))
  {
    var s := "/tmp/out/movie.mp4";
    SplitAtLastSeparators(s, 8, 14);
    assert s[..9] == "/tmp/out/" && s[9..14] == "movie" && s[15..] == "mp4";
  }

  /** The name keeps every '.' but the last one. */
  lemma SplitDoubleExtension()
    ensures SplitPath("/d/a.tar.gz") == Some(Parts("/d/", "a.tar", "gz"))
  {
    var s := "/d/a.tar.gz";
    SplitAtLastSeparators(s, 2, 8);
    assert s[..3] == "/d/" && s[3..8] == "a.tar" && s[9..] == "gz";
  }

  /** A path without an extension does not match. */
  lemma NoExtensionRejected()
    ensures SplitPath("/tmp/out/movie") == None
  {
    var s := "/tmp/out/movie";
    if SplitPath(s).Some? {
      DecompositionPositions(s, SplitPath(s).value);
      assert false;
    }
  }

  /** A file directly under the root does not match: `.+` needs a character before the '/'. */
  lemma RootFileRejected()
    ensures SplitPath("/movie.mp4") == None
  {
    var s := "/movie.mp4";
    if SplitPath(s).Some? {
      DecompositionPositions(s, SplitPath(s).value);
      assert false;
    }
  }
}
