/** The four whole-text rules of fix_forui_batch.py. Each maps a file's text
    to the rewritten text and the number of matches it reports, and each
    counts with one scan (`str.count` or `re.findall`) and rewrites with
    another (`str.replace` or `re.sub`). */
module Rules {
  import opened Text
  import opened Scanner
  import opened Patterns
  import opened LiteralReplace

  /** A rule's result: the rewritten text and the count it reports. */
  datatype Rewritten = Rewritten(text: string, count: nat)

  const OnPressed: string := "onPressed:"
  const OnPress: string := "onPress:"

  /** The (old name, new name) pairs of the style rename, in the order they
      are applied. The dot is escaped in the source's patterns, so each old
      name is matched literally. */
  const StyleRenames: seq<(string, string)> := [
    ("FButtonStyle.primary", "Variant.primary"),
    ("FButtonStyle.outline", "Variant.outline"),
    ("FButtonStyle.destructive", "Variant.destructive")
  ]

  function LiteralM(pat: string, rep: string): Matcher
  {
    MatcherOf(Literal(pat, rep))
  }

  /** `fix_fbutton_onpressed`: every `onPressed:` becomes `onPress:` and
      every other character is copied. The count is the number of
      non-overlapping occurrences, none survives, and the text changes
      exactly when there was one. */
  function FixOnPressed(content: string): (r: Rewritten)
    ensures forall ms :: Tiles(LiteralM(OnPressed, OnPress), content, 0, ms) ==>
      r.count == |ms| && r.text == Splice(LiteralM(OnPressed, OnPress), content, 0, ms)
    ensures !Contains(r.text, OnPressed)
    ensures |r.text| + 2 * r.count == |content|
    ensures r.count == 0 <==> r.text == content
  {
    var m := LiteralM(OnPressed, OnPress);
    TilingIsTheScan(m, content);
    SubIsSplice(m, content, 0);
    OnPressedFenced();
    SubAvoids(OnPressed, OnPress, OnPressed, content, 0);
    LiteralLength(OnPressed, OnPress, content, 2);
    Rewritten(Sub(m, content, 0), |Matches(m, content, 0)|)
  }

  /** A whole-text literal replace that shortens each match by `d > 0`
      shortens the text by `d` per match, and leaves it unchanged exactly
      when there is no match. */
  lemma LiteralLength(pat: string, rep: string, content: string, d: nat)
    requires 0 < d && |rep| + d == |pat|
    ensures var m := LiteralM(pat, rep);
      && |Sub(m, content, 0)| + d * |Matches(m, content, 0)| == |content|
      && (Matches(m, content, 0) == [] <==> Sub(m, content, 0) == content)
  {
    var m := LiteralM(pat, rep);
    SubLength(pat, rep, content, 0, d);
    var c := |Matches(m, content, 0)|;
    if c == 0 {
      NoMatchesUnchanged(m, content, 0);
    } else {
      MulPositive(d, c);
    }
  }

  lemma OnPressedFenced()
    ensures NoOverhang(OnPress, OnPressed) && NoStraddle(OnPressed, OnPress)
  {
    assert OnPress[1..] == "nPress:";
    assert OnPressed[1..] == "nPressed:";
    Fenced(OnPressed, OnPress, 7);
  }

  /** The old style names, each of which every new name is fenced against. */
  lemma StyleRenamesFenced()
    ensures forall a, b :: 0 <= a < |StyleRenames| && 0 <= b < |StyleRenames| ==>
      NoOverhang(StyleRenames[b].1, StyleRenames[a].0) && NoStraddle(StyleRenames[a].0, StyleRenames[b].1)
  {
    forall a, b | 0 <= a < |StyleRenames| && 0 <= b < |StyleRenames|
      ensures NoOverhang(StyleRenames[b].1, StyleRenames[a].0) && NoStraddle(StyleRenames[a].0, StyleRenames[b].1)
    {
      var q, rep := StyleRenames[a].0, StyleRenames[b].1;
      assert q[0] == 'F' && 'F' !in rep;
      assert rep[0] == 'V' && 'V' !in q;
      Fenced(q, rep, 0);
    }
  }

  /** Applies each (old, new) literal rename in turn to the text left by the
      previous one, adding up the per-step match counts. */
  function RenameAll(renames: seq<(string, string)>, content: string): Rewritten
    decreases |renames|
  {
    if renames == [] then Rewritten(content, 0)
    else
      var m := LiteralM(renames[0].0, renames[0].1);
      var rest := RenameAll(renames[1..], Sub(m, content, 0));
      Rewritten(rest.text, |Matches(m, content, 0)| + rest.count)
  }

  /** The renames read declaratively: each step replaces the matches of the
      unique tiling of its old name in the text the previous step left, and
      the count is the sum of the tilings' sizes. */
  ghost function StyleSteps(renames: seq<(string, string)>, content: string): Rewritten
    decreases |renames|
  {
    if renames == [] then Rewritten(content, 0)
    else
      var m := LiteralM(renames[0].0, renames[0].1);
      TilingIsTheScan(m, content);
      var ms :| Tiles(m, content, 0, ms);
      var rest := StyleSteps(renames[1..], Splice(m, content, 0, ms));
      Rewritten(rest.text, |ms| + rest.count)
  }

  /** The scan-based renames are the declarative ones. */
  lemma {:induction false} StyleStepsIsRenameAll(renames: seq<(string, string)>, content: string)
    ensures RenameAll(renames, content) == StyleSteps(renames, content)
    decreases |renames|
  {
    if renames != [] {
      var m := LiteralM(renames[0].0, renames[0].1);
      TilingIsTheScan(m, content);
      SubIsSplice(m, content, 0);
      StyleStepsIsRenameAll(renames[1..], Sub(m, content, 0));
    }
  }

  /** `fix_fbuttonstyle`: `FButtonStyle.primary`, `.outline` and
      `.destructive` become `Variant.primary`, `.outline` and `.destructive`,
      in that order, each step on the previous step's output, and the count
      is the sum of the three steps' match counts. None of the old names
      survives, each reported match shortens the text by five characters,
      and the text changes exactly when something matched. */
  function FixButtonStyle(content: string): (r: Rewritten)
    ensures r == StyleSteps(StyleRenames, content)
    ensures forall n :: 0 <= n < |StyleRenames| ==> !Contains(r.text, StyleRenames[n].0)
    ensures |r.text| + 5 * r.count == |content|
    ensures r.count == 0 <==> r.text == content
  {
    StyleRenamesFenced();
    forall n | 0 <= n < |StyleRenames|
      ensures !Contains(RenameAll(StyleRenames, content).text, StyleRenames[n].0)
    {
      RenameAllAvoids(StyleRenames, content, StyleRenames[n].0);
    }
    RenameAllLength(StyleRenames, content);
    StyleStepsIsRenameAll(StyleRenames, content);
    RenameAll(StyleRenames, content)
  }

  /** After a sequence of fenced renames, none of the old names occurs, and
      no name absent from the input appears. */
  lemma {:induction false} RenameAllAvoids(renames: seq<(string, string)>, content: string, q: string)
    requires 0 < |q|
    requires forall n :: 0 <= n < |renames| ==> NoOverhang(renames[n].1, q) && NoStraddle(q, renames[n].1)
    requires (exists n :: 0 <= n < |renames| && renames[n].0 == q) || !Contains(content, q)
    ensures !Contains(RenameAll(renames, content).text, q)
    decreases |renames|
  {
    if renames != [] {
      var (pat, rep) := renames[0];
      var next := Sub(LiteralM(pat, rep), content, 0);
      if q == pat || !Contains(content, q) {
        SubAvoids(pat, rep, q, content, 0);
        RenameAllAvoids(renames[1..], next, q);
      } else {
        var n :| 0 <= n < |renames| && renames[n].0 == q;
        assert renames[1..][n - 1] == renames[n];
        RenameAllAvoids(renames[1..], next, q);
      }
    }
  }

  /** When every rename shortens its name by five characters, as the style
      renames do, the whole sequence shortens the text by five per reported
      match. */
  lemma {:induction false} RenameAllLength(renames: seq<(string, string)>, content: string)
    requires forall n :: 0 <= n < |renames| ==> |renames[n].1| + 5 == |renames[n].0|
    ensures var r := RenameAll(renames, content);
      |r.text| + 5 * r.count == |content| && (r.count == 0 <==> r.text == content)
    decreases |renames|
  {
    if renames != [] {
      var (pat, rep) := renames[0];
      var m := LiteralM(pat, rep);
      var next := Sub(m, content, 0);
      LiteralLength(pat, rep, content, 5);
      assert forall n :: 0 <= n < |renames[1..]| ==> renames[1..][n] == renames[n + 1];
      RenameAllLength(renames[1..], next);
    }
  }

  function DesignM(): Matcher
  {
    MatcherOf(DesignParam)
  }

  /** `remove_design_parameter`: deletes exactly the spans of the
      non-overlapping design-parameter matches and keeps every other
      character, in order; the count is the number of deleted spans. */
  function RemoveDesignParameter(content: string): (r: Rewritten)
    ensures forall ms :: Tiles(DesignM(), content, 0, ms) ==>
      r.count == |ms| && r.text == Splice(DesignM(), content, 0, ms)
    ensures forall q :: 0 <= q < |content| ==> TextOf(DesignM(), content, q) == []
    ensures |r.text| + DesignMinLength * r.count <= |content|
    ensures r.count == 0 <==> r.text == content
  {
    var m := DesignM();
    TilingIsTheScan(m, content);
    SubIsSplice(m, content, 0);
    DesignLength(content, 0);
    UnmatchedUnchanged(m, content);
    Rewritten(Sub(m, content, 0), |Matches(m, content, 0)|)
  }

  /** Each deleted span is at least `DesignMinLength` long. */
  lemma {:induction false} DesignLength(s: string, i: nat)
    requires i <= |s|
    ensures |Sub(DesignM(), s, i)| + DesignMinLength * |Matches(DesignM(), s, i)| <= |s| - i
    decreases |s| - i
  {
    if i < |s| {
      match DesignAt(s, i)
      case Some(h) =>
        DesignLength(s, h.end);
        var c := |Matches(DesignM(), s, h.end)|;
        assert DesignMinLength * (c + 1) == DesignMinLength * c + DesignMinLength;
      case None =>
        DesignLength(s, i + 1);
    }
  }

  function LabelM(): Matcher
  {
    MatcherOf(Label)
  }

  /** `fix_fbutton_label_string`: every non-overlapping `label: '<text>'`
      match is replaced by its rewrap, everything else is copied; the count
      is the number of matches. */
  function FixLabel(content: string): (r: Rewritten)
    ensures forall ms :: Tiles(LabelM(), content, 0, ms) ==>
      r.count == |ms| && r.text == Splice(LabelM(), content, 0, ms)
    ensures r.count == 0 <==> r.text == content
  {
    var m := LabelM();
    TilingIsTheScan(m, content);
    SubIsSplice(m, content, 0);
    LabelChangesIffMatched(content);
    Rewritten(Sub(m, content, 0), |Matches(m, content, 0)|)
  }

  /** The label substitution changes a text exactly when it matches in it. */
  lemma LabelChangesIffMatched(content: string)
    ensures Matches(LabelM(), content, 0) == [] <==> Sub(LabelM(), content, 0) == content
  {
    var m := LabelM();
    UnmatchedUnchanged(m, content);
    if Matches(m, content, 0) != [] {
      SearchIsFirstMatch(m, content, 0);
      RewrapChanges(Label, content);
    }
  }

  /** What a label match is replaced by: `label: const Text('<text>')`, with
      the whitespace after `label:` normalised to one space and the quoted
      text copied verbatim. */
  lemma LabelRewrap(s: string, q: nat) returns (j: nat, e: nat)
    requires MatchAt(Label, s, q).Some?
    ensures LabelShape(s, q, j, e)
    ensures EndOf(LabelM(), s, q) == e + 1
    ensures TextOf(LabelM(), s, q) == "label: const Text('" + s[j + 1..e] + "')"
  {
    j, e := LabelAtShape(s, q);
  }

  /** Replacing label matches by rewraps, around their own text or a fixed
      one, changes any text that holds a match. */
  lemma RewrapChanges(p: Pattern, s: string)
    requires p.Label? || p.LabelAs?
    requires Search(MatcherOf(p), s, 0).Some?
    ensures Sub(MatcherOf(p), s, 0) != s
  {
    var m := MatcherOf(p);
    var q := Search(m, s, 0).value;
    assert m(s, q) == MatchAt(p, s, q);
    var h := LabelAt(s, q).value;
    var body := if p.Label? then h.text else p.body;
    assert EndOf(m, s, q) == h.end && TextOf(m, s, q) == Wrap(body);
    var d := RewrapDiffers(s, q, body);
    SubChanges(m, s, d);
  }
}
