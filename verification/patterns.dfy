/** The four regular expressions of the rewrite rules, each re-expressed as
    a matcher that decides whether the pattern matches at a given index (what
    Python's `re` engine does at each position of a scan) and, if so, where
    the match ends and what replaces it. */
module Patterns {
  import opened Wrappers
  import opened Text
  import opened Scanner

  datatype Pattern =
    | Literal(pat: string, rep: string)  // a fixed token, replaced by a fixed token
    | DesignParam                         // `,\s*design:\s*FButtonCustomStyle\([^)]*\)`, deleted
    | Label                               // `label:\s*'([^']+)'`, rewrapped around its own text
    | LabelAs(body: string)               // the same pattern, rewrapped around a fixed text

  const DesignKey: string := "design:"
  const StyleCall: string := "FButtonCustomStyle("
  const LabelKey: string := "label:"

  /** The shortest design-parameter match: `,design:FButtonCustomStyle()`. */
  const DesignMinLength: nat := 28

  /** The replacement `label: const Text('<body>')`. */
  function Wrap(body: string): string
  {
    "label: const Text('" + body + "')"
  }

  /** `,\s*design:\s*FButtonCustomStyle\([^)]*\)` at `i`: the match runs to
      the first `)` after the opening parenthesis, and is deleted. */
  function DesignAt(s: string, i: nat): (h: Option<Hit>)
    ensures h.Some? ==> i + DesignMinLength <= h.value.end <= |s| && h.value.text == []
  {
    if i < |s| && s[i] == ',' then DesignKeyAt(s, SkipSpaces(s, i + 1)) else None
  }

  /** The rest of the pattern from `design:` on, at `j`. */
  function DesignKeyAt(s: string, j: nat): (h: Option<Hit>)
    ensures h.Some? ==> j + |DesignKey| + |StyleCall| + 1 <= h.value.end <= |s| && h.value.text == []
  {
    if HasAt(s, j, DesignKey) then StyleCallAt(s, SkipSpaces(s, j + |DesignKey|)) else None
  }

  /** The rest of the pattern from `FButtonCustomStyle(` on, at `k`: the
      match runs to the first `)` after the parenthesis. */
  function StyleCallAt(s: string, k: nat): (h: Option<Hit>)
    ensures h.Some? ==> k + |StyleCall| + 1 <= h.value.end <= |s| && h.value.text == []
  {
    if HasAt(s, k, StyleCall) then
      var m := FindChar(s, k + |StyleCall|, ')');
      if m < |s| then Some(Hit(m + 1, [])) else None
    else None
  }

  /** `label:\s*'([^']+)'` at `i`; the hit carries the captured group, the
      non-empty run of non-quote characters up to the first closing quote. */
  function LabelAt(s: string, i: nat): (h: Option<Hit>)
    ensures h.Some? ==> i < h.value.end <= |s| && 0 < |h.value.text|
  {
    if HasAt(s, i, LabelKey) then
      var j := SkipSpaces(s, i + |LabelKey|);
      if j < |s| && s[j] == '\'' then
        var m := FindChar(s, j + 1, '\'');
        if j + 1 < m < |s| then Some(Hit(m + 1, s[j + 1..m])) else None
      else None
    else None
  }

  /** Whether, and how, pattern `p` matches `s` at index `i`. No pattern of
      the rules matches the empty string, so no match starts at `|s|`. */
  function MatchAt(p: Pattern, s: string, i: nat): (h: Option<Hit>)
    ensures Fits(h, s, i)
  {
    match p
    case Literal(pat, rep) =>
      if 0 < |pat| && HasAt(s, i, pat) then Some(Hit(i + |pat|, rep)) else None
    case DesignParam => DesignAt(s, i)
    case Label =>
      var h := LabelAt(s, i);
      if h.Some? then Some(Hit(h.value.end, Wrap(h.value.text))) else None
    case LabelAs(body) =>
      var h := LabelAt(s, i);
      if h.Some? then Some(Hit(h.value.end, Wrap(body))) else None
  }

  /** The pattern as the scan sees it. */
  function MatcherOf(p: Pattern): Matcher
  {
    (s: string, i: nat) => MatchAt(p, s, i)
  }

  /** The parts of `,\s*design:\s*FButtonCustomStyle\([^)]*\)` laid out in
      `s` from `i`: the comma at `i`, whitespace up to `j`, `design:` at `j`,
      whitespace up to `k`, `FButtonCustomStyle(` at `k`, a run without `)`
      up to `m`, and `)` at `m`. */
  ghost predicate DesignShape(s: string, i: nat, j: nat, k: nat, m: nat)
  {
    && i < j && j + |DesignKey| <= k && k + |StyleCall| <= m < |s|
    && s[i] == ',' && AllSpace(s[i + 1..j])
    && HasAt(s, j, DesignKey) && AllSpace(s[j + |DesignKey|..k])
    && HasAt(s, k, StyleCall) && ')' !in s[k + |StyleCall|..m] && s[m] == ')'
  }

  /** Every design-parameter match has that shape and ends just past its `)`. */
  lemma DesignAtShape(s: string, i: nat) returns (j: nat, k: nat, m: nat)
    requires DesignAt(s, i).Some?
    ensures DesignShape(s, i, j, k, m) && DesignAt(s, i).value.end == m + 1
  {
    j := SkipSpaces(s, i + 1);
    k, m := DesignKeyShape(s, j);
  }

  lemma DesignKeyShape(s: string, j: nat) returns (k: nat, m: nat)
    requires DesignKeyAt(s, j).Some?
    ensures j + |DesignKey| <= k && k + |StyleCall| <= m < |s|
    ensures HasAt(s, j, DesignKey) && AllSpace(s[j + |DesignKey|..k])
    ensures HasAt(s, k, StyleCall) && ')' !in s[k + |StyleCall|..m] && s[m] == ')'
    ensures DesignKeyAt(s, j).value.end == m + 1
  {
    k := SkipSpaces(s, j + |DesignKey|);
    m := FindChar(s, k + |StyleCall|, ')');
  }

  /** Conversely, wherever that shape is laid out, the pattern matches and
      the match covers exactly the shape. */
  lemma DesignAtComplete(s: string, i: nat, j: nat, k: nat, m: nat)
    requires DesignShape(s, i, j, k, m)
    ensures DesignAt(s, i) == Some(Hit(m + 1, []))
  {
    FirstOfKey(s, j, DesignKey);
    SpaceRunIsMaximal(s, i + 1, j);
    DesignKeyComplete(s, j, k, m);
  }

  lemma DesignKeyComplete(s: string, j: nat, k: nat, m: nat)
    requires j + |DesignKey| <= k && k + |StyleCall| <= m < |s|
    requires HasAt(s, j, DesignKey) && AllSpace(s[j + |DesignKey|..k])
    requires HasAt(s, k, StyleCall) && ')' !in s[k + |StyleCall|..m] && s[m] == ')'
    ensures DesignKeyAt(s, j) == Some(Hit(m + 1, []))
  {
    FirstOfKey(s, k, StyleCall);
    SpaceRunIsMaximal(s, j + |DesignKey|, k);
    FindCharStopsAtFirst(s, k + |StyleCall|, ')', m);
    assert StyleCallAt(s, k) == Some(Hit(m + 1, []));
  }

  /** Where a key is laid out, its first character is. */
  lemma FirstOfKey(s: string, j: nat, key: string)
    requires 0 < |key| && HasAt(s, j, key)
    ensures j < |s| && s[j] == key[0]
  {
    assert s[j] == s[j..j + |key|][0];
  }

  /** The parts of `label:\s*'([^']+)'` laid out in `s` from `i`: `label:`
      at `i`, whitespace up to the quote at `j`, a non-empty run without
      quotes up to the closing quote at `m`. */
  ghost predicate LabelShape(s: string, i: nat, j: nat, m: nat)
  {
    && i + |LabelKey| <= j && j + 1 < m < |s|
    && HasAt(s, i, LabelKey) && AllSpace(s[i + |LabelKey|..j])
    && s[j] == '\'' && '\'' !in s[j + 1..m] && s[m] == '\''
  }

  /** Every label match has that shape; the captured group is the text
      strictly between the quotes. */
  lemma LabelAtShape(s: string, i: nat) returns (j: nat, m: nat)
    requires LabelAt(s, i).Some?
    ensures LabelShape(s, i, j, m)
    ensures LabelAt(s, i).value == Hit(m + 1, s[j + 1..m])
  {
    j := SkipSpaces(s, i + |LabelKey|);
    m := FindChar(s, j + 1, '\'');
  }

  /** Conversely, wherever that shape is laid out, the pattern matches there
      and captures exactly the quoted text. */
  lemma LabelAtComplete(s: string, i: nat, j: nat, m: nat)
    requires LabelShape(s, i, j, m)
    ensures LabelAt(s, i) == Some(Hit(m + 1, s[j + 1..m]))
  {
    SpaceRunIsMaximal(s, i + |LabelKey|, j);
    FindCharStopsAtFirst(s, j + 1, '\'', m);
  }

  /** A rewrap never reproduces the label match it replaces: right after
      `label:` the match holds `'` or whitespace other than a plain space,
      or a plain space followed by whitespace or `'`, where the rewrap holds
      ` c`. The result is an offset inside both at which they differ. */
  lemma RewrapDiffers(s: string, i: nat, body: string) returns (d: nat)
    requires LabelAt(s, i).Some?
    ensures i + d < LabelAt(s, i).value.end && d < |Wrap(body)| && Wrap(body)[d] != s[i + d]
  {
    var j, m := LabelAtShape(s, i);
    var w := Wrap(body);
    assert w[6] == ' ' && w[7] == 'c';
    if s[i + 6] != ' ' {
      d := 6;
    } else {
      d := 7;
      if j == i + 7 {
        assert s[i + 7] == '\'';
      } else {
        assert s[i + 6..j][1] == s[i + 7];
      }
    }
  }
}
