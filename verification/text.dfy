/** Character classes and substring tests shared by every rewrite rule. */
module Text {

  /** Python's `\s` on str patterns: exactly the characters for which
      `str.isspace()` holds. */
  predicate IsSpace(c: char)
  {
    || ('\t' <= c <= '\r')                  // tab, line feed, vertical tab, form feed, carriage return
    || ('\U{1C}' <= c <= '\U{1F}')          // file, group, record and unit separators
    || c == ' ' || c == '\U{85}' || c == '\U{A0}' || c == '\U{1680}'
    || ('\U{2000}' <= c <= '\U{200A}')
    || c == '\U{2028}' || c == '\U{2029}' || c == '\U{202F}' || c == '\U{205F}' || c == '\U{3000}'
  }

  predicate AllSpace(w: string)
  {
    forall k :: 0 <= k < |w| ==> IsSpace(w[k])
  }

  /** `t` occurs in `s` starting at index `i`. */
  predicate HasAt(s: string, i: nat, t: string)
  {
    i + |t| <= |s| && s[i..i + |t|] == t
  }

  /** Python's `t in s`. */
  predicate Contains(s: string, t: string)
  {
    exists i :: 0 <= i <= |s| && HasAt(s, i, t)
  }

  /** The end of the longest run of whitespace starting at `i`: what a
      greedy `\s*` consumes. */
  function SkipSpaces(s: string, i: nat): (j: nat)
    requires i <= |s|
    ensures i <= j <= |s|
    ensures AllSpace(s[i..j])
    ensures j < |s| ==> !IsSpace(s[j])
    decreases |s| - i
  {
    if i == |s| || !IsSpace(s[i]) then i
    else
      var j := SkipSpaces(s, i + 1);
      assert s[i..j] == [s[i]] + s[i + 1..j];
      j
  }

  /** The index of the first `c` at or after `i`, or `|s|` when there is none:
      where a greedy `[^c]*` stops. */
  function FindChar(s: string, i: nat, c: char): (j: nat)
    requires i <= |s|
    ensures i <= j <= |s|
    ensures c !in s[i..j]
    ensures j < |s| ==> s[j] == c
    decreases |s| - i
  {
    if i == |s| || s[i] == c then i
    else
      var j := FindChar(s, i + 1, c);
      assert s[i..j] == [s[i]] + s[i + 1..j];
      j
  }

  /** A whitespace run is determined by where it starts: it stops at the
      first character that is not whitespace. */
  lemma {:induction false} SpaceRunIsMaximal(s: string, i: nat, j: nat)
    requires i <= j < |s| && AllSpace(s[i..j]) && !IsSpace(s[j])
    ensures SkipSpaces(s, i) == j
    decreases j - i
  {
    if i < j {
      assert IsSpace(s[i..j][0]);
      assert s[i + 1..j] == s[i..j][1..];
      SpaceRunIsMaximal(s, i + 1, j);
    }
  }

  /** A run free of `c` followed by `c` ends exactly where `FindChar` stops. */
  lemma {:induction false} FindCharStopsAtFirst(s: string, i: nat, c: char, j: nat)
    requires i <= j < |s| && c !in s[i..j] && s[j] == c
    ensures FindChar(s, i, c) == j
    decreases j - i
  {
    if i < j {
      assert s[i] == s[i..j][0];
      assert s[i + 1..j] == s[i..j][1..];
      FindCharStopsAtFirst(s, i + 1, c, j);
    }
  }
}
