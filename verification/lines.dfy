/** Python's `s.split('\n')` and `'\n'.join(lines)`. */
module Lines {
  import opened Text

  /** The pieces of `s` between line feeds; never empty, and an empty or
      feed-terminated text yields an empty last piece. */
  function Split(s: string): (ls: seq<string>)
    ensures 0 < |ls|
    ensures forall k :: 0 <= k < |ls| ==> '\n' !in ls[k]
    decreases |s|
  {
    var j := FindChar(s, 0, '\n');
    if j == |s| then [s]
    else [s[..j]] + Split(s[j + 1..])
  }

  /** The lines glued back together with a line feed between each two. */
  function Join(ls: seq<string>): string
    decreases |ls|
  {
    if |ls| == 0 then []
    else if |ls| == 1 then ls[0]
    else ls[0] + "\n" + Join(ls[1..])
  }

  /** Joining the pieces gives back the text. */
  lemma {:induction false} JoinSplit(s: string)
    ensures Join(Split(s)) == s
    decreases |s|
  {
    var j := FindChar(s, 0, '\n');
    if j < |s| {
      JoinSplit(s[j + 1..]);
      assert Split(s)[1..] == Split(s[j + 1..]);
      assert s == s[..j] + "\n" + s[j + 1..];
    }
  }

  /** Splitting lines that hold no line feed gives back the lines. */
  lemma {:induction false} SplitJoin(ls: seq<string>)
    requires 0 < |ls| && forall k :: 0 <= k < |ls| ==> '\n' !in ls[k]
    ensures Split(Join(ls)) == ls
    decreases |ls|
  {
    var s := Join(ls);
    if |ls| == 1 {
      assert s == ls[0];
      FindCharStopsAtEnd(s, 0);
    } else {
      var rest := Join(ls[1..]);
      assert s == ls[0] + "\n" + rest;
      assert s[..|ls[0]|] == ls[0];
      assert s[|ls[0]|] == '\n';
      assert s[0..|ls[0]|] == ls[0];
      FindCharStopsAtFirst(s, 0, '\n', |ls[0]|);
      assert s[|ls[0]| + 1..] == rest;
      SplitJoin(ls[1..]);
      assert ls == [ls[0]] + ls[1..];
    }
  }

  lemma FindCharStopsAtEnd(s: string, i: nat)
    requires i <= |s| && '\n' !in s[i..]
    ensures FindChar(s, i, '\n') == |s|
  {
    var j := FindChar(s, i, '\n');
    assert forall x :: i <= x < |s| ==> s[x] == s[i..][x - i];
  }

  /** There is one more piece than there are line feeds. */
  lemma {:induction false} SplitCount(s: string)
    ensures |Split(s)| == multiset(s)['\n'] + 1
    decreases |s|
  {
    var j := FindChar(s, 0, '\n');
    if j == |s| {
      assert s == s[0..j];
    } else {
      SplitCount(s[j + 1..]);
      FeedsAround(s, j);
    }
  }

  /** Around its first line feed, a text holds one feed more than its rest. */
  lemma FeedsAround(s: string, j: nat)
    requires j < |s| && s[j] == '\n' && '\n' !in s[0..j]
    ensures multiset(s)['\n'] == multiset(s[j + 1..])['\n'] + 1
  {
    assert s == s[0..j] + [s[j]] + s[j + 1..];
    assert multiset(s) == multiset(s[0..j]) + multiset([s[j]]) + multiset(s[j + 1..]);
  }
}
