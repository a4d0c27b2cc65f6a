/** Text helpers with the meaning of the Arduino `String` members the firmware
    calls: `endsWith`, `startsWith`, `toLowerCase` and `lastIndexOf`. */
module Strings {

  /** `s.startsWith(p)`. */
  predicate StartsWith(s: string, p: string) {
    |p| <= |s| && s[..|p|] == p
  }

  /** `s.endsWith(suffix)`. */
  predicate EndsWith(s: string, suffix: string) {
    |suffix| <= |s| && s[|s| - |suffix|..] == suffix
  }

  /** C `tolower` in the "C" locale: only 'A'..'Z' change. */
  function LowerChar(c: char): char {
    if 'A' <= c <= 'Z' then (c as int + 32) as char else c
  }

  /** `String::toLowerCase`, which lowers every character in place. */
  function ToLower(s: string): (r: string)
    ensures |r| == |s|
    ensures forall i :: 0 <= i < |s| ==> r[i] == LowerChar(s[i])
  {
    if s == [] then [] else [LowerChar(s[0])] + ToLower(s[1..])
  }

  /** `String::lastIndexOf(c)`: the last position holding `c`, or -1. */
  function LastIndexOf(s: string, c: char): (r: int)
    ensures -1 <= r < |s|
    ensures r == -1 <==> c !in s
    ensures 0 <= r ==> s[r] == c
    ensures forall j :: r < j < |s| ==> s[j] != c
  {
    if s == [] then -1
    else if s[|s| - 1] == c then |s| - 1
    else LastIndexOf(s[..|s| - 1], c)
  }

  /** The lower-cased suffix test used by the SD catalogue accepts exactly the
      names whose last four characters spell ".gif" in any mix of cases. */
  lemma LowerGifSuffix(s: string)
    ensures EndsWith(ToLower(s), ".gif") <==>
      |s| >= 4 && s[|s| - 4] == '.' &&
      (s[|s| - 3] == 'g' || s[|s| - 3] == 'G') &&
      (s[|s| - 2] == 'i' || s[|s| - 2] == 'I') &&
      (s[|s| - 1] == 'f' || s[|s| - 1] == 'F')
  {
    if |s| >= 4 {
      LowerGifChars(s);
    } else {
      assert |ToLower(s)| < |".gif"|;
    }
  }

  /** A name of at least four characters: the lowered name ends with ".gif"
      when its last four characters lower to '.', 'g', 'i' and 'f'. */
  lemma LowerGifChars(s: string)
    requires |s| >= 4
    ensures EndsWith(ToLower(s), ".gif") <==>
      s[|s| - 4] == '.' &&
      (s[|s| - 3] == 'g' || s[|s| - 3] == 'G') &&
      (s[|s| - 2] == 'i' || s[|s| - 2] == 'I') &&
      (s[|s| - 1] == 'f' || s[|s| - 1] == 'F')
  {
    var r := ToLower(s);
    var n := |s|;
    var c0, c1, c2, c3 := s[n - 4], s[n - 3], s[n - 2], s[n - 1];
    EndsWithFour(r, ".gif");
    assert ".gif"[0] == '.' && ".gif"[1] == 'g' && ".gif"[2] == 'i' && ".gif"[3] == 'f';
    assert r[n - 4] == LowerChar(c0);
    assert r[n - 3] == LowerChar(c1);
    assert r[n - 2] == LowerChar(c2);
    assert r[n - 1] == LowerChar(c3);
    LowerGifFour(c0, c1, c2, c3);
  }

  /** Four characters lower to ".gif" exactly when they spell it in some mix
      of cases. */
  lemma LowerGifFour(c0: char, c1: char, c2: char, c3: char)
    ensures LowerChar(c0) == '.' && LowerChar(c1) == 'g' && LowerChar(c2) == 'i' && LowerChar(c3) == 'f' <==>
      c0 == '.' && (c1 == 'g' || c1 == 'G') && (c2 == 'i' || c2 == 'I') && (c3 == 'f' || c3 == 'F')
  {
    LowerCharIs(c0, '.', '.');
    LowerCharIs(c1, 'g', 'G');
    LowerCharIs(c2, 'i', 'I');
    LowerCharIs(c3, 'f', 'F');
  }

  /** A four-character suffix, character by character. */
  lemma EndsWithFour(r: string, suffix: string)
    requires |suffix| == 4 && |r| >= 4
    ensures EndsWith(r, suffix) <==>
      r[|r| - 4] == suffix[0] && r[|r| - 3] == suffix[1] && r[|r| - 2] == suffix[2] && r[|r| - 1] == suffix[3]
  {
    var t := r[|r| - 4..];
    assert t == [r[|r| - 4], r[|r| - 3], r[|r| - 2], r[|r| - 1]];
    assert suffix == [suffix[0], suffix[1], suffix[2], suffix[3]];
  }

  lemma LowerCharIs(c: char, lower: char, upper: char)
    requires (lower == '.' && upper == '.') || ('a' <= lower <= 'z' && upper as int == lower as int - 32)
    ensures LowerChar(c) == lower <==> c == lower || c == upper
  {
  }

  /** Appending text after a '/' moves the last slash only if the text holds one. */
  lemma LastIndexOfAppend(p: string, tail: string, c: char)
    requires c !in tail
    ensures LastIndexOf(p + tail, c) == LastIndexOf(p, c)
  {
    var r := LastIndexOf(p + tail, c);
    var q := LastIndexOf(p, c);
    if q >= 0 {
      assert (p + tail)[q] == c;
    }
    if r >= 0 && r < |p| {
      assert p[r] == (p + tail)[r];
      forall j | r < j < |p| ensures p[j] != c {
        assert p[j] == (p + tail)[j];
      }
    }
  }

  /** A suffix of the appended text is a suffix of the whole. */
  lemma EndsWithAppend(p: string, tail: string, suffix: string)
    requires EndsWith(tail, suffix)
    ensures EndsWith(p + tail, suffix)
  {
    var n := p + tail;
    assert n[|n| - |suffix|..] == tail[|tail| - |suffix|..];
  }

  /** The last two characters of a name that ends with a suffix. */
  lemma EndsWithTail(s: string, t: string)
    requires |t| >= 2 && EndsWith(s, t)
    ensures s[|s| - 1] == t[|t| - 1] && s[|s| - 2] == t[|t| - 2]
  {
    assert s[|s| - |t|..][|t| - 1] == s[|s| - 1];
    assert s[|s| - |t|..][|t| - 2] == s[|s| - 2];
  }
}
