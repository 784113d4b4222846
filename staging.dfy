/**
 * The names saveVideo builds while staging frames for the encoder
 * (src/app.js): the six-digit temporary directory, the two-digit frame index,
 * one staged PNG path per frame and the `%02d` input pattern.
 */
module Staging {
  import opened Decimal

  /** One `fs.writeFile(path, data, 'base64', ...)` call, in the order they are issued. */
  datatype FileWrite = FileWrite(path: string, base64: string)

  /** `('0' + i).slice(-2)`: always exactly two decimal digits. */
  function Pad2(i: nat): (r: string)
    ensures |r| == 2 && AllDigits(r)
  {
    SliceFromEnd("0" + ToText(i), 2)
  }

  /** `('000000' + n).slice(-6)`: always exactly six decimal digits. */
  function Suffix6(n: nat): (r: string)
    ensures |r| == 6 && AllDigits(r)
  {
    SliceFromEnd("000000" + ToText(n), 6)
  }

  /**
   * `${directory}tmp-${suffix}/`: one new component of 11 characters under the
   * output's directory, ending in '/' with no other '/'.
   */
  function TempDir(directory: string, n: nat): (t: string)
    ensures |t| == |directory| + 11 && t[..|directory|] == directory && t[|t| - 1] == '/'
    ensures forall i :: |directory| <= i < |t| - 1 ==> t[i] != '/'
  {
    NewComponent(directory, Suffix6(n));
    directory + "tmp-" + Suffix6(n) + "/"
  }

  /** Appending "tmp-", six digits and '/' adds one component of 11 characters. */
  lemma NewComponent(directory: string, suffix: string)
    requires |suffix| == 6 && AllDigits(suffix)
    ensures var t := directory + "tmp-" + suffix + "/";
      |t| == |directory| + 11 && t[..|directory|] == directory && t[|t| - 1] == '/'
      && forall i :: |directory| <= i < |t| - 1 ==> t[i] != '/'
  {
    var t := directory + "tmp-" + suffix + "/";
    assert t == directory + ("tmp-" + suffix + "/");
    forall i | |directory| + 4 <= i < |t| - 1 ensures t[i] != '/' {
      assert t[i] == suffix[i - |directory| - 4];
    }
  }

  /**
   * `tempDir + fileName + '-' + pad2(i) + '.png'`: a file inside the temporary
   * directory, named by the output's name, a '-', two digits and ".png".
   */
  function StagedPath(tempDir: string, fileName: string, i: nat): (r: string)
    ensures |r| == |tempDir| + |fileName| + 7
    ensures r[..|tempDir| + |fileName| + 1] == tempDir + fileName + "-"
    ensures r[|r| - 6..] == Pad2(i) + ".png"
  {
    tempDir + fileName + "-" + Pad2(i) + ".png"
  }

  /**
   * `tempDir + fileName + '-%02d.png'`, the encoder's input: every staged path
   * with its two index digits replaced by `%02d`.
   */
  function InputPattern(tempDir: string, fileName: string): (r: string)
    ensures |r| == |tempDir| + |fileName| + 9 && r[|r| - 8..|r| - 4] == "%02d"
    ensures forall i: nat :: StagedPath(tempDir, fileName, i)[..|r| - 8] + "%02d.png" == r
  {
    assert (tempDir + fileName + "-") + "%02d.png" == tempDir + fileName + "-%02d.png";
    tempDir + fileName + "-%02d.png"
  }

  /** What C's `%02d` prints for a non-negative index: at least two digits, zero-filled. */
  function Printf02(i: nat): string {
    if i < 10 then "0" + ToText(i) else ToText(i)
  }

  lemma Pad2IsFixed(i: nat)
    ensures Pad2(i) == Fixed(i, 2)
  {
    assert "0" == Zeros(1);
    SliceOfPadded(i, 1, 2);
  }

  lemma Pad2Pair(i: nat)
    ensures Pad2(i) == [DigitChar((i / 10) % 10), DigitChar(i % 10)]
  {
    Pad2IsFixed(i);
    assert Fixed(i, 2) == Fixed(i / 10, 1) + [DigitChar(i % 10)];
    assert Fixed(i / 10, 1) == [DigitChar((i / 10) % 10)];
  }

  /** pad2 is two digits whose value is i mod 100. */
  lemma Pad2Value(i: nat)
    ensures |Pad2(i)| == 2 && AllDigits(Pad2(i)) && Value(Pad2(i)) == i % 100
  {
    Pad2IsFixed(i);
    ValueOfFixed(i, 2);
    assert Pow10(2) == 100;
  }

  /** Below 100 nothing is lost: "0" and the digit below 10, the number itself from 10 to 99. */
  lemma Pad2Short(i: nat)
    requires i <= 99
    ensures i <= 9 ==> Pad2(i) == "0" + ToText(i)
    ensures 10 <= i ==> Pad2(i) == ToText(i)
  {
    Pad2Pair(i);
    if 10 <= i {
      assert ToText(i) == ToText(i / 10) + [DigitChar(i % 10)];
      assert ToText(i / 10) == [DigitChar(i / 10)];
    }
  }

  /** From 100 on, pad2 silently keeps only the last two digits of the decimal form. */
  lemma Pad2Long(i: nat)
    requires i >= 100
    ensures |ToText(i)| >= 3 && Pad2(i) == ToText(i)[|ToText(i)| - 2..]
  {
    ToTextLength(i);
    var t := ToText(i);
    assert ("0" + t)[|"0" + t| - 2..] == t[|t| - 2..];
  }

  /** Two indices get the same pad2 exactly when they agree modulo 100. */
  lemma Pad2Collides(i: nat, j: nat)
    ensures Pad2(i) == Pad2(j) <==> i % 100 == j % 100
  {
    Pad2IsFixed(i);
    Pad2IsFixed(j);
    FixedInjective(i, j, 2);
    assert Pow10(2) == 100;
  }

  /** pad2 is what the encoder's `%02d` asks for exactly below 100. */
  lemma Pad2MatchesPrintf(i: nat)
    ensures Pad2(i) == Printf02(i) <==> i < 100
  {
    Pad2Value(i);
    if i <= 99 {
      Pad2Short(i);
    } else {
      ToTextLength(i);
    }
  }

  lemma SixZeros()
    ensures "000000" == Zeros(6)
  {
  }

  lemma SixDigitRange()
    ensures Pow10(6) == 1000000
  {
    assert Pow10(2) == 100;
    assert Pow10(4) == 100 * Pow10(2);
  }

  /** The suffix is six decimal digits whose value is n, for every n that Math.random can yield. */
  lemma Suffix6Digits(n: nat)
    ensures |Suffix6(n)| == 6 && AllDigits(Suffix6(n))
    ensures Value(Suffix6(n)) == n % 1000000
    ensures n < 1000000 ==> Value(Suffix6(n)) == n
  {
    SixZeros();
    PaddedSliceValue(n, 6, 6);
    SixDigitRange();
  }

  /** Two temporary directories under the same directory collide exactly when the random numbers do. */
  lemma TempDirCollides(directory: string, n: nat, m: nat)
    requires n < 1000000 && m < 1000000
    ensures TempDir(directory, n) == TempDir(directory, m) <==> n == m
  {
    Suffix6Digits(n);
    Suffix6Digits(m);
    if TempDir(directory, n) == TempDir(directory, m) {
      var a, b := TempDir(directory, n), TempDir(directory, m);
      assert Suffix6(n) == a[|directory| + 4..|directory| + 10];
      assert Suffix6(m) == b[|directory| + 4..|directory| + 10];
    }
  }

  lemma SamePrefixSuffix(a: string, p: string, q: string, b: string)
    requires |p| == |q| && a + p + b == a + q + b
    ensures p == q
  {
    assert p == (a + p + b)[|a|..|a| + |p|];
    assert q == (a + q + b)[|a|..|a| + |q|];
  }

  /** Staged paths in one directory for one name differ exactly when the indices differ modulo 100. */
  lemma StagedPathCollides(tempDir: string, fileName: string, i: nat, j: nat)
    ensures StagedPath(tempDir, fileName, i) == StagedPath(tempDir, fileName, j) <==> i % 100 == j % 100
  {
    Pad2Collides(i, j);
    Pad2Value(i);
    Pad2Value(j);
    var a := tempDir + fileName + "-";
    if StagedPath(tempDir, fileName, i) == StagedPath(tempDir, fileName, j) {
      SamePrefixSuffix(a, Pad2(i), Pad2(j), ".png");
    }
  }

  /** The staged paths of frames 0 .. count-1 are pairwise distinct exactly when there are at most 100. */
  lemma StagedPathsDistinct(tempDir: string, fileName: string, count: nat)
    ensures (forall i, j :: 0 <= i < j < count ==> StagedPath(tempDir, fileName, i) != StagedPath(tempDir, fileName, j))
            <==> count <= 100
  {
    if count <= 100 {
      forall i, j | 0 <= i < j < count
        ensures StagedPath(tempDir, fileName, i) != StagedPath(tempDir, fileName, j)
      {
        assert i % 100 == i && j % 100 == j;
        StagedPathCollides(tempDir, fileName, i, j);
      }
    } else {
      StagedPathCollides(tempDir, fileName, 0, 100);
    }
  }

  /**
   * The encoder reads frame i from the input pattern with `%02d` filled in for
   * i; that is the file staged for frame i exactly when i < 100.
   */
  lemma InputPatternAddressesFrames(tempDir: string, fileName: string, i: nat)
    ensures var pattern := InputPattern(tempDir, fileName);
      pattern[..|pattern| - 8] + Printf02(i) + ".png" == StagedPath(tempDir, fileName, i) <==> i < 100
  {
    Pad2MatchesPrintf(i);
    Pad2Value(i);
    var a := tempDir + fileName + "-";
    assert InputPattern(tempDir, fileName)[..|a|] == a;
    if StagedPath(tempDir, fileName, i) == a + Printf02(i) + ".png" {
      SamePrefixSuffix(a, Pad2(i), Printf02(i), ".png");
    }
  }
}
