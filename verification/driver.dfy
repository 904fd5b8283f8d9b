/** `process_file` and the loop over files: the five rules chained in order
    with their counts summed, the write-back only when the text changed, and
    the two global counters. Reading and writing are reduced to what a file
    offers: its text, if it can be read, and whether it can be written. */
module Driver {
  import opened Wrappers
  import opened Rules
  import opened TextField

  /** The rules of the batch, one per correction function. */
  datatype Rule = OnPressedRule | StyleRule | DesignRule | LabelRule | TextFieldRule

  /** The order in which `process_file` applies them. */
  const Order: seq<Rule> := [OnPressedRule, StyleRule, DesignRule, LabelRule, TextFieldRule]

  /** One rule on one text. Every rule reports a change count of zero
      exactly when it leaves the text as it was. */
  function Apply(rule: Rule, content: string): (r: Rewritten)
    ensures r.count == 0 <==> r.text == content
  {
    match rule
    case OnPressedRule => FixOnPressed(content)
    case StyleRule => FixButtonStyle(content)
    case DesignRule => RemoveDesignParameter(content)
    case LabelRule => FixLabel(content)
    case TextFieldRule => FixTextFieldLabel(content)
  }

  /** The rules applied in turn, each to the previous one's output, with
      their counts added up. */
  function ApplyAll(rules: seq<Rule>, content: string): (r: Rewritten)
    ensures r.count == 0 ==> r.text == content
    decreases |rules|
  {
    if rules == [] then Rewritten(content, 0)
    else
      var first := Apply(rules[0], content);
      var rest := ApplyAll(rules[1..], first.text);
      Rewritten(rest.text, first.count + rest.count)
  }

  /** The chain counts nothing exactly when no rule counts anything on the
      text it receives. */
  lemma {:induction false} ApplyAllQuiet(rules: seq<Rule>, content: string)
    ensures ApplyAll(rules, content).count == 0 <==>
      forall k :: 0 <= k < |rules| ==> Apply(rules[k], Staged(rules, content, k)).count == 0
    decreases |rules|
  {
    if rules != [] {
      var first := Apply(rules[0], content);
      ApplyAllQuiet(rules[1..], first.text);
      StagedShift(rules, content);
      assert Staged(rules, content, 0) == content;
      if ApplyAll(rules, content).count == 0 {
        forall k | 0 <= k < |rules|
          ensures Apply(rules[k], Staged(rules, content, k)).count == 0
        {
          if k > 0 {
            assert rules[k] == rules[1..][k - 1];
          }
        }
      } else if first.count == 0 {
        var k :| 0 <= k < |rules[1..]| && Apply(rules[1..][k], Staged(rules[1..], first.text, k)).count != 0;
        assert rules[k + 1] == rules[1..][k];
      }
    }
  }

  /** The chain's output is what its last stage returns. */
  lemma {:induction false} ApplyAllIsStaged(rules: seq<Rule>, content: string)
    ensures ApplyAll(rules, content).text == Staged(rules, content, |rules|)
    decreases |rules|
  {
    if rules != [] {
      ApplyAllIsStaged(rules[1..], Apply(rules[0], content).text);
      StagedShift(rules, content);
    }
  }

  /** The counts of the first `k` stages, each rule counted on the text it
      receives. */
  function StageSum(rules: seq<Rule>, content: string, k: nat): nat
    requires k <= |rules|
    decreases k
  {
    if k == 0 then 0 else StageSum(rules, content, k - 1) + Apply(rules[k - 1], Staged(rules, content, k - 1)).count
  }

  /** The chain's count is the sum of its stages' counts. */
  lemma {:induction false} ApplyAllCount(rules: seq<Rule>, content: string)
    ensures ApplyAll(rules, content).count == StageSum(rules, content, |rules|)
    decreases |rules|
  {
    if rules != [] {
      ApplyAllCount(rules[1..], Apply(rules[0], content).text);
      StagedShift(rules, content);
      StageSumShift(rules, content, |rules|);
    }
  }

  /** Past the first rule, the stage counts of `rules` are those of
      `rules[1..]` started on the first rule's output. */
  lemma {:induction false} StageSumShift(rules: seq<Rule>, content: string, k: nat)
    requires 1 <= k <= |rules|
    ensures StageSum(rules, content, k) ==
      Apply(rules[0], content).count + StageSum(rules[1..], Apply(rules[0], content).text, k - 1)
    decreases k
  {
    if k > 1 {
      var rest, start := rules[1..], Apply(rules[0], content).text;
      StageSumShift(rules, content, k - 1);
      StagedShiftAt(rules, content, k - 1);
      assert rules[k - 1] == rest[k - 2];
      assert Apply(rules[k - 1], Staged(rules, content, k - 1)).count == Apply(rest[k - 2], Staged(rest, start, k - 2)).count;
    }
  }

  /** The text rule `k` of `rules` receives: the input after rules `0..k`. */
  function Staged(rules: seq<Rule>, content: string, k: nat): string
    requires k <= |rules|
    decreases k
  {
    if k == 0 then content else Apply(rules[k - 1], Staged(rules, content, k - 1)).text
  }

  /** Past the first rule, the stages of `rules` are those of `rules[1..]`
      started on the first rule's output. */
  lemma StagedShift(rules: seq<Rule>, content: string)
    requires 0 < |rules|
    ensures forall k :: 1 <= k <= |rules| ==>
      Staged(rules, content, k) == Staged(rules[1..], Apply(rules[0], content).text, k - 1)
  {
    var rest := rules[1..];
    var start := Apply(rules[0], content).text;
    forall k | 1 <= k <= |rules|
      ensures Staged(rules, content, k) == Staged(rest, start, k - 1)
    {
      StagedShiftAt(rules, content, k);
    }
  }

  lemma {:induction false} StagedShiftAt(rules: seq<Rule>, content: string, k: nat)
    requires 1 <= k <= |rules|
    ensures Staged(rules, content, k) == Staged(rules[1..], Apply(rules[0], content).text, k - 1)
    decreases k
  {
    if k > 1 {
      StagedShiftAt(rules, content, k - 1);
      assert rules[k - 1] == rules[1..][k - 2];
    }
  }

  /** `process_file`'s corrections: the five rules in order, the counts
      summed. A text the rules count nothing in is returned as it was, so a
      changed text always comes with at least one correction. */
  function Pipeline(content: string): (r: Rewritten)
    ensures r.text == Staged(Order, content, |Order|)
    ensures r.count == StageSum(Order, content, |Order|)
    ensures r.text != content ==> 1 <= r.count
  {
    ApplyAllIsStaged(Order, content);
    ApplyAllCount(Order, content);
    ApplyAll(Order, content)
  }

  /** A Dart file as the batch meets it: its text, or `None` when reading
      it fails, and whether writing it back succeeds. */
  datatype SourceFile = SourceFile(content: Option<string>, writable: bool)

  /** What happened to one file: written back with its corrections, left
      alone because nothing changed, or abandoned on a read or write error. */
  datatype Outcome = Written(text: string, changes: nat) | Untouched | Failed

  /** `process_file` on one file. */
  function ProcessFile(f: SourceFile): (o: Outcome)
    ensures o.Written? <==>
      f.content.Some? && f.writable && Pipeline(f.content.value).text != f.content.value
    ensures o.Written? ==>
      o.text == Pipeline(f.content.value).text && o.changes == Pipeline(f.content.value).count && 1 <= o.changes
    ensures o.Untouched? <==> f.content.Some? && Pipeline(f.content.value).text == f.content.value
  {
    match f.content
    case None => Failed
    case Some(content) =>
      var r := Pipeline(content);
      if r.text == content then Untouched
      else if f.writable then Written(r.text, r.count)
      else Failed
  }

  /** The two globals: files written back, and corrections in them. */
  datatype Counters = Counters(filesModified: nat, totalChanges: nat)

  /** The counters after one more file: only a written file counts, with
      all its corrections. */
  function Record(c: Counters, o: Outcome): Counters
  {
    if o.Written? then Counters(c.filesModified + 1, c.totalChanges + o.changes) else c
  }

  /** The files processed in order, from counters `c`. */
  function Tally(c: Counters, files: seq<SourceFile>): Counters
    decreases |files|
  {
    if files == [] then c else Tally(Record(c, ProcessFile(files[0])), files[1..])
  }

  /** The batch from zero: every file written back holds at least one
      correction, so there are never more files modified than corrections. */
  function ProcessAll(files: seq<SourceFile>): (c: Counters)
    ensures c.filesModified == WrittenCount(files) <= |files|
    ensures c.totalChanges == ChangeSum(files)
    ensures c.filesModified <= c.totalChanges
  {
    TallySums(Counters(0, 0), files);
    WrittenBelowChanges(files);
    Tally(Counters(0, 0), files)
  }

  /** The number of files written back. */
  function WrittenCount(files: seq<SourceFile>): (n: nat)
    ensures n <= |files|
  {
    if files == [] then 0
    else WrittenCount(files[..|files| - 1]) + if ProcessFile(files[|files| - 1]).Written? then 1 else 0
  }

  /** The corrections in the files written back. */
  function ChangeSum(files: seq<SourceFile>): nat
  {
    if files == [] then 0
    else
      var o := ProcessFile(files[|files| - 1]);
      ChangeSum(files[..|files| - 1]) + if o.Written? then o.changes else 0
  }

  /** Tallying adds the written files and their corrections to the
      counters, whatever they started from. */
  lemma {:induction false} TallySums(c: Counters, files: seq<SourceFile>)
    ensures Tally(c, files) == Counters(c.filesModified + WrittenCount(files), c.totalChanges + ChangeSum(files))
    decreases |files|
  {
    if files != [] {
      var rest := files[1..];
      TallySums(Record(c, ProcessFile(files[0])), rest);
      FirstThenRest(files);
    }
  }

  /** Counting from the front gives what counting from the back gives. */
  lemma {:induction false} FirstThenRest(files: seq<SourceFile>)
    requires files != []
    ensures var o := ProcessFile(files[0]);
      && WrittenCount(files) == (if o.Written? then 1 else 0) + WrittenCount(files[1..])
      && ChangeSum(files) == (if o.Written? then o.changes else 0) + ChangeSum(files[1..])
    decreases |files|
  {
    if |files| > 1 {
      var init := files[..|files| - 1];
      FirstThenRest(init);
      assert init[0] == files[0];
      assert init[1..] == files[1..][..|files[1..]| - 1];
      assert files[1..][|files[1..]| - 1] == files[|files| - 1];
    } else {
      assert files[..0] == [] && files[1..] == [];
    }
  }

  /** Each written file brings at least one correction. */
  lemma {:induction false} WrittenBelowChanges(files: seq<SourceFile>)
    ensures WrittenCount(files) <= ChangeSum(files)
    decreases |files|
  {
    if files != [] {
      WrittenBelowChanges(files[..|files| - 1]);
    }
  }
}
