/** The few pieces of Python's `str` behaviour the pipeline relies on. */
module PyStr {

  /** The characters that `str.isspace()` accepts, i.e. what `str.strip()`
      without arguments removes. */
  predicate IsSpace(c: char) {
    ('\t' <= c <= '\r') || c == ' ' ||
    ('\U{1C}' <= c <= '\U{1F}') || c == '\U{85}' || c == '\U{A0}' ||
    c == '\U{1680}' || ('\U{2000}' <= c <= '\U{200A}') ||
    c == '\U{2028}' || c == '\U{2029}' || c == '\U{202F}' ||
    c == '\U{205F}' || c == '\U{3000}'
  }

  /** Neither the first nor the last character is whitespace. */
  predicate Stripped(s: string) {
    |s| == 0 || (!IsSpace(s[0]) && !IsSpace(s[|s| - 1]))
  }

  /** `s.rstrip()`: the longest prefix of `s` not ending in whitespace. */
  function RStrip(s: string): (r: string)
    ensures |r| <= |s| && r == s[..|r|]
    ensures forall k :: |r| <= k < |s| ==> IsSpace(s[k])
    ensures |r| == 0 || !IsSpace(r[|r| - 1])
  {
    if |s| > 0 && IsSpace(s[|s| - 1]) then RStrip(s[..|s| - 1]) else s
  }

  /** `s.lstrip()`: the longest suffix of `s` not starting with whitespace. */
  function LStrip(s: string): (r: string)
    ensures |r| <= |s| && r == s[|s| - |r|..]
    ensures forall k :: 0 <= k < |s| - |r| ==> IsSpace(s[k])
    ensures |r| == 0 || !IsSpace(r[0])
  {
    if |s| > 0 && IsSpace(s[0]) then LStrip(s[1..]) else s
  }

  /** `s.strip()`. */
  function Strip(s: string): (r: string)
    ensures Stripped(r)
    ensures forall c :: c in r ==> c in s
  {
    var t := RStrip(s);
    var r := LStrip(t);
    assert forall c :: c in r ==> c in t;
    r
  }

  /** `s.strip()` is `s` with exactly its leading and trailing whitespace cut off:
      a slice of `s` with only whitespace before and after it, and (by the
      contract of `Strip`) none at its own ends. */
  lemma StripIsTrim(s: string)
    ensures exists i, j :: (0 <= i <= j <= |s| && Strip(s) == s[i..j] &&
      (forall k :: 0 <= k < i ==> IsSpace(s[k])) &&
      (forall k :: j <= k < |s| ==> IsSpace(s[k])))
  {
    var t := RStrip(s);
    var r := LStrip(t);
    var i, j := |t| - |r|, |t|;
    assert Strip(s) == r;
    assert r == s[i..j] by {
      assert t == s[..j] && r == t[i..];
    }
    assert forall k :: 0 <= k < i ==> IsSpace(s[k]) by {
      forall k | 0 <= k < i ensures IsSpace(s[k]) {
        assert IsSpace(t[k]) && t[k] == s[k];
      }
    }
    assert forall k :: j <= k < |s| ==> IsSpace(s[k]);
  }

  /** Stripping changes a string exactly when it starts or ends with whitespace. */
  lemma StripIdentity(s: string)
    ensures Strip(s) == s <==> Stripped(s)
  {
    if Stripped(s) {
      assert RStrip(s) == s;
      assert LStrip(s) == s;
    }
  }

  /** A trailing newline is removed by `strip()` together with any other trailing whitespace. */
  lemma StripDropsNewline(s: string)
    ensures Strip(s + "\n") == Strip(s)
  {
    assert IsSpace('\n');
    assert (s + "\n")[..|s|] == s;
    assert RStrip(s + "\n") == RStrip(s);
  }

  /** `s.endswith(suffix)`. */
  predicate EndsWith(s: string, suffix: string) {
    |suffix| <= |s| && s[|s| - |suffix|..] == suffix
  }

  /** `sep.join(parts)`. */
  function Join(sep: string, parts: seq<string>): (r: string)
    ensures |parts| == 0 ==> r == ""
    ensures |parts| > 0 ==> |parts[0]| <= |r| && r[..|parts[0]|] == parts[0]
    ensures |parts| > 0 ==> EndsWith(r, parts[|parts| - 1])
  {
    if |parts| == 0 then ""
    else if |parts| == 1 then parts[0]
    else
      var rest := Join(sep, parts[1..]);
      var last := parts[|parts| - 1];
      var r := parts[0] + sep + rest;
      assert r[..|parts[0]|] == parts[0];
      assert parts[1..][|parts[1..]| - 1] == last;
      assert r[|r| - |last|..] == rest[|rest| - |last|..];
      r
  }
}
