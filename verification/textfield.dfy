/** `fix_ftextfield_label_string`: a line-by-line pass that rewraps
    `label: '<text>'` only while a flag says the scan is inside an
    `FTextField(` call. The flag is a heuristic: it is set by any line holding
    `FTextField(` and cleared after any line, while set, that holds `)`. */
module TextField {
  import opened Text
  import opened Scanner
  import opened Patterns
  import opened Lines
  import opened Rules

  const FieldCall: string := "FTextField("

  /** The line holds `FTextField(`, which sets the flag. */
  predicate Opens(line: string)
  {
    Contains(line, FieldCall)
  }

  /** `label:\s*'([^']+)'` matches somewhere in the line. */
  predicate HasLabel(line: string)
  {
    exists q :: 0 <= q < |line| && LabelAt(line, q).Some?
  }

  /** A line that, processed while the flag is set, clears it: it holds `)`
      already, or it holds a label, whose rewrap ends in `')`. */
  predicate Closes(line: string)
  {
    ')' in line || HasLabel(line)
  }

  /** The text captured by the first label match of the line (what
      `re.search(...).group(1)` returns). */
  function FirstLabelText(line: string): (body: string)
    requires HasLabel(line)
    ensures exists q :: (0 <= q < |line| && LabelAt(line, q).Some? && body == LabelAt(line, q).value.text &&
      forall q' :: 0 <= q' < q ==> LabelAt(line, q').None?)
  {
    LabelSearch(line);
    var q := Search(LabelM(), line, 0).value;
    LabelAt(line, q).value.text
  }

  /** The line with every label match replaced by the rewrap of the first
      match's text (`re.sub` with a fixed replacement). */
  function RewrapLine(line: string): string
    requires HasLabel(line)
  {
    Sub(MatcherOf(LabelAs(FirstLabelText(line))), line, 0)
  }

  /** One iteration of the loop: the line it emits, whether it counted a
      change, and the flag afterwards. */
  datatype LineStep = LineStep(line: string, rewrote: bool, inScope: bool)

  function StepLine(line: string, inScope: bool): LineStep
  {
    var inField := inScope || Opens(line);
    LabelSearch(line);
    if inField && Search(LabelM(), line, 0).Some? then
      var out := RewrapLine(line);
      LineStep(out, true, inField && ')' !in out)
    else
      LineStep(line, false, inField && ')' !in line)
  }

  /** The loop's state after the first `n` lines: lines emitted so far, the
      change counter, and the flag. */
  datatype Progress = Progress(out: seq<string>, changes: nat, inScope: bool)

  function Run(lines: seq<string>, n: nat): (st: Progress)
    requires n <= |lines|
    ensures |st.out| == n && st.changes <= n
  {
    if n == 0 then Progress([], 0, false) else Next(Run(lines, n - 1), lines[n - 1])
  }

  /** The state after one more line. */
  function Next(prev: Progress, line: string): (st: Progress)
    ensures |st.out| == |prev.out| + 1 && st.changes <= prev.changes + 1
  {
    var step := StepLine(line, prev.inScope);
    Progress(prev.out + [step.line], prev.changes + (if step.rewrote then 1 else 0), step.inScope)
  }

  /** `fix_ftextfield_label_string`: split into lines, run the loop, join. */
  function FixTextFieldLabel(content: string): (r: Rewritten)
    ensures var lines, out := Split(content), Split(r.text);
      && |out| == |lines|
      && r.count <= |lines|
      && (forall i :: 0 <= i < |lines| ==>
            out[i] == Emitted(lines, i))
      && r.count == CountRewritten(lines, |lines|)
    ensures r.count == 0 <==> r.text == content
  {
    var lines := Split(content);
    var st := Run(lines, |lines|);
    RunMeaning(lines, |lines|);
    RunLinesFree(lines, |lines|);
    SplitJoin(st.out);
    RunChangesIffCounted(content);
    Rewritten(Join(st.out), st.changes)
  }

  /** The flag is set before line `i` exactly when some earlier line opened
      an `FTextField(` call and no line from that one on closed it. */
  ghost predicate InScopeBefore(lines: seq<string>, i: nat)
    requires i <= |lines|
  {
    exists j :: 0 <= j < i && Opens(lines[j]) && forall k :: j <= k < i ==> !Closes(lines[k])
  }

  /** Line `i` is processed with the flag set: it was set before, or the
      line itself opens a call (the test comes before the label test). */
  ghost predicate Scoped(lines: seq<string>, i: nat)
    requires i < |lines|
  {
    InScopeBefore(lines, i) || Opens(lines[i])
  }

  /** The line the loop emits for line `i`. */
  ghost function Emitted(lines: seq<string>, i: nat): string
    requires i < |lines|
  {
    if Scoped(lines, i) && HasLabel(lines[i]) then RewrapLine(lines[i]) else lines[i]
  }

  /** `re.search` finds a label exactly when the line has one, and then at
      its first match. */
  lemma LabelSearch(line: string)
    ensures Search(LabelM(), line, 0).Some? <==> HasLabel(line)
    ensures Search(LabelM(), line, 0).Some? ==>
      && LabelAt(line, Search(LabelM(), line, 0).value).Some?
      && forall q' :: 0 <= q' < Search(LabelM(), line, 0).value ==> LabelAt(line, q').None?
  {
    var r := Search(LabelM(), line, 0);
    if r.Some? {
      assert LabelM()(line, r.value).Some?;
      forall q' | 0 <= q' < r.value
        ensures LabelAt(line, q').None?
      {
        assert LabelM()(line, q').None?;
      }
    } else {
      forall q | 0 <= q < |line|
        ensures LabelAt(line, q).None?
      {
        assert LabelM()(line, q).None?;
      }
    }
  }

  /** A rewrap of a line that holds a label holds `)`, so it clears the flag. */
  lemma {:induction false} RewrapHasParen(b: string, s: string, i: nat)
    requires i <= |s| && Search(LabelM(), s, i).Some?
    ensures ')' in Sub(MatcherOf(LabelAs(b)), s, i)
    decreases |s| - i
  {
    var w := Wrap(b);
    assert w[|w| - 1] == ')';
    if LabelAt(s, i).Some? {
      assert Sub(MatcherOf(LabelAs(b)), s, i) == w + Sub(MatcherOf(LabelAs(b)), s, LabelAt(s, i).value.end);
    } else {
      assert LabelM()(s, i).None?;
      RewrapHasParen(b, s, i + 1);
      assert Sub(MatcherOf(LabelAs(b)), s, i) == [s[i]] + Sub(MatcherOf(LabelAs(b)), s, i + 1);
    }
  }

  /** What one iteration does, in terms of the line's own text: it rewrites
      and counts exactly when the flag is set (before or by this line) and the
      line holds a label, and the flag is set afterwards exactly when it was
      set and the line does not close it. */
  lemma StepMeaning(line: string, f: bool)
    ensures var st := StepLine(line, f);
      && st.rewrote == ((f || Opens(line)) && HasLabel(line))
      && st.line == (if st.rewrote then RewrapLine(line) else line)
      && st.inScope == ((f || Opens(line)) && !Closes(line))
  {
    LabelSearch(line);
    if (f || Opens(line)) && HasLabel(line) {
      RewrapHasParen(FirstLabelText(line), line, 0);
    }
  }

  /** `st` is the loop's state after the first `n` lines, stated without
      the loop: each emitted line is the rewrap exactly for the scoped lines
      holding a label, the counter counts those lines, and the flag is
      `InScopeBefore`. */
  ghost predicate Explains(lines: seq<string>, n: nat, st: Progress)
    requires n <= |lines|
  {
    && |st.out| == n
    && (forall i :: 0 <= i < n ==> st.out[i] == Emitted(lines, i))
    && st.changes == CountRewritten(lines, n)
    && st.inScope == InScopeBefore(lines, n)
  }

  /** The loop's state after any number of lines is explained. */
  lemma {:induction false} RunMeaning(lines: seq<string>, n: nat)
    requires n <= |lines|
    ensures Explains(lines, n, Run(lines, n))
  {
    if n > 0 {
      RunMeaning(lines, n - 1);
      NextExplains(lines, n, Run(lines, n - 1));
    }
  }

  /** The number of lines the loop rewrites among the first `n`. */
  ghost function CountRewritten(lines: seq<string>, n: nat): nat
    requires n <= |lines|
  {
    if n == 0 then 0
    else CountRewritten(lines, n - 1) + if Scoped(lines, n - 1) && HasLabel(lines[n - 1]) then 1 else 0
  }

  /** One iteration keeps the state explained. */
  lemma NextExplains(lines: seq<string>, n: nat, prev: Progress)
    requires 0 < n <= |lines| && Explains(lines, n - 1, prev)
    ensures Explains(lines, n, Next(prev, lines[n - 1]))
  {
    var line := lines[n - 1];
    StepMeaning(line, prev.inScope);
    ScopeStep(lines, n);
    var st := Next(prev, line);
    assert st.out == prev.out + [StepLine(line, prev.inScope).line];
    forall i | 0 <= i < n
      ensures st.out[i] == Emitted(lines, i)
    {
      if i < n - 1 {
        assert st.out[i] == prev.out[i];
      }
    }
  }

  /** The flag before line `n` follows from the flag before line `n - 1`
      exactly as one iteration computes it. */
  lemma ScopeStep(lines: seq<string>, n: nat)
    requires 0 < n <= |lines|
    ensures InScopeBefore(lines, n) ==
      ((InScopeBefore(lines, n - 1) || Opens(lines[n - 1])) && !Closes(lines[n - 1]))
  {
    var line := lines[n - 1];
    if (InScopeBefore(lines, n - 1) || Opens(line)) && !Closes(line) {
      if Opens(line) {
        assert forall k :: n - 1 <= k < n ==> !Closes(lines[k]);
      } else {
        var j :| 0 <= j < n - 1 && Opens(lines[j]) && forall k :: j <= k < n - 1 ==> !Closes(lines[k]);
        assert forall k :: j <= k < n ==> !Closes(lines[k]);
      }
    }
    if InScopeBefore(lines, n) {
      var j :| 0 <= j < n && Opens(lines[j]) && forall k :: j <= k < n ==> !Closes(lines[k]);
      assert !Closes(line);
      if j < n - 1 {
        assert InScopeBefore(lines, n - 1);
      }
    }
  }

  /** A rewrap of a line without line feeds has none either. */
  lemma RewrapKeepsLine(line: string)
    requires HasLabel(line) && '\n' !in line
    ensures '\n' !in RewrapLine(line)
  {
    LabelSearch(line);
    var q := Search(LabelM(), line, 0).value;
    var j, e := LabelAtShape(line, q);
    var b := FirstLabelText(line);
    assert b == line[j + 1..e];
    WrapHasNoLineFeed(b);
    SubAvoidsChar(b, line, 0, '\n');
  }

  lemma WrapHasNoLineFeed(b: string)
    requires '\n' !in b
    ensures '\n' !in Wrap(b)
  {
    var w := Wrap(b);
    forall k | 0 <= k < |w|
      ensures w[k] != '\n'
    {
      if k < 19 {
        assert w[k] == "label: const Text('"[k];
      } else if k < 19 + |b| {
        assert w[k] == b[k - 19];
      } else {
        assert w[k] == "')"[k - 19 - |b|];
      }
    }
  }

  /** A character in neither the text nor the replacement is not in the
      output of the replacement. */
  lemma {:induction false} SubAvoidsChar(b: string, s: string, i: nat, c: char)
    requires i <= |s| && c !in s && c !in Wrap(b)
    ensures c !in Sub(MatcherOf(LabelAs(b)), s, i)
    decreases |s| - i
  {
    if i < |s| {
      if LabelAt(s, i).Some? {
        SubAvoidsChar(b, s, LabelAt(s, i).value.end, c);
      } else {
        SubAvoidsChar(b, s, i + 1, c);
      }
    }
  }

  /** The loop emits lines without line feeds. */
  lemma RunLinesFree(lines: seq<string>, n: nat)
    requires n <= |lines| && forall k :: 0 <= k < |lines| ==> '\n' !in lines[k]
    ensures forall i :: 0 <= i < n ==> '\n' !in Run(lines, n).out[i]
  {
    RunMeaning(lines, n);
    forall i | 0 <= i < n && Scoped(lines, i) && HasLabel(lines[i])
      ensures '\n' !in RewrapLine(lines[i])
    {
      RewrapKeepsLine(lines[i]);
    }
  }

  /** The joined output equals the input exactly when the loop counted no
      line: a counted line is always rewritten into a different line. */
  lemma RunChangesIffCounted(content: string)
    ensures var lines := Split(content);
      var st := Run(lines, |lines|);
      st.changes == 0 <==> Join(st.out) == content
  {
    var lines := Split(content);
    var st := Run(lines, |lines|);
    RunMeaning(lines, |lines|);
    RunLinesFree(lines, |lines|);
    CountRewrittenZero(lines, |lines|);
    JoinSplit(content);
    if st.changes == 0 {
      assert st.out == lines;
    } else {
      var i :| 0 <= i < |lines| && Scoped(lines, i) && HasLabel(lines[i]);
      RewrapChangesLine(lines[i]);
      assert st.out[i] != lines[i];
      SplitJoin(st.out);
    }
  }

  /** No line is counted exactly when no line is both scoped and holding a
      label. */
  lemma {:induction false} CountRewrittenZero(lines: seq<string>, n: nat)
    requires n <= |lines|
    ensures CountRewritten(lines, n) == 0 <==>
      forall i :: 0 <= i < n ==> !(Scoped(lines, i) && HasLabel(lines[i]))
  {
    if n > 0 {
      CountRewrittenZero(lines, n - 1);
    }
  }

  /** Rewrapping a line that holds a label changes it. */
  lemma RewrapChangesLine(line: string)
    requires HasLabel(line)
    ensures RewrapLine(line) != line
  {
    LabelSearch(line);
    var q := Search(LabelM(), line, 0).value;
    var p := LabelAs(FirstLabelText(line));
    assert MatcherOf(p)(line, q).Some?;
    RewrapChanges(p, line);
  }
}
