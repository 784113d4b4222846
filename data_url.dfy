/**
 * `frame.replace(/^data:image\/(png|jpg|jpeg);base64,/, '')`: the base64
 * payload of a captured data URL (src/app.js, saveVideo).
 */
module DataUrl {

  const PNG_PREFIX: string := "data:image/png;base64,"
  const JPG_PREFIX: string := "data:image/jpg;base64,"
  const JPEG_PREFIX: string := "data:image/jpeg;base64,"

  predicate HasImagePrefix(s: string) {
    PNG_PREFIX <= s || JPG_PREFIX <= s || JPEG_PREFIX <= s
  }

  /** s without its leading prefix. */
  function Drop(s: string, prefix: string): (r: string)
    requires prefix <= s
    ensures |r| == |s| - |prefix| && s == prefix + r
  {
    s[|prefix|..]
  }

  /**
   * The anchored expression matches at most once, at the start, so at most
   * one prefix is removed and the rest of the string is left as it is.
   */
  function StripDataUrl(s: string): (r: string)
    ensures |r| <= |s| && r == s[|s| - |r|..]
    ensures r == s <==> !HasImagePrefix(s)
    ensures r != s ==> s[..|s| - |r|] in {PNG_PREFIX, JPG_PREFIX, JPEG_PREFIX}
  {
    if PNG_PREFIX <= s then Drop(s, PNG_PREFIX)
    else if JPG_PREFIX <= s then Drop(s, JPG_PREFIX)
    else if JPEG_PREFIX <= s then Drop(s, JPEG_PREFIX)
    else s
  }

  /** Stripping undoes the prepending of any one of the three prefixes, whatever follows it. */
  lemma StripRemovesOnePrefix(prefix: string, payload: string)
    requires prefix in {PNG_PREFIX, JPG_PREFIX, JPEG_PREFIX}
    ensures StripDataUrl(prefix + payload) == payload
  {
    var s := prefix + payload;
    assert s[..|prefix|] == prefix;
    if prefix == JPG_PREFIX {
      assert s[11] == 'j';
      assert !(PNG_PREFIX <= s);
    } else if prefix == JPEG_PREFIX {
      assert s[11] == 'j' && s[13] == 'e';
      assert !(PNG_PREFIX <= s) && !(JPG_PREFIX <= s);
    }
  }
}
