/** Facts about replacing a fixed token by another (`str.replace`, or
    `re.sub` with an escaped literal pattern): when the output can no longer
    contain a token, and how its length changes. */
module LiteralReplace {
  import opened Text
  import opened Scanner
  import opened Patterns

  /** `a` and `b` agree wherever both are defined. */
  ghost predicate Compatible(a: string, b: string)
  {
    forall j :: 0 <= j < |a| && j < |b| ==> a[j] == b[j]
  }

  /** No occurrence of `q` can start inside an inserted `rep`. */
  ghost predicate NoOverhang(rep: string, q: string)
  {
    forall o :: 0 <= o < |rep| ==> !Compatible(rep[o..], q)
  }

  /** No occurrence of `q` can start in copied text and run into an
      inserted `rep`. */
  ghost predicate NoStraddle(q: string, rep: string)
  {
    forall k :: 1 <= k < |q| ==> !Compatible(q[k..], rep)
  }

  /** `q` does not occur in `s` at or after `i`. */
  ghost predicate AbsentFrom(s: string, i: nat, q: string)
  {
    forall j :: i <= j <= |s| ==> !HasAt(s, j, q)
  }

  /** Simple conditions, checkable by looking at the two tokens, under which
      `rep` can neither hide nor help form an occurrence of `q`: the first
      character of `q` appears in `rep` at most at its start, the first
      character of `rep` does not appear in the rest of `q`, and the two
      differ at some index `d`. */
  lemma Fenced(q: string, rep: string, d: nat)
    requires 0 < |q| && 0 < |rep| && q[0] !in rep[1..] && rep[0] !in q[1..]
    requires d < |q| && d < |rep| && q[d] != rep[d]
    ensures NoOverhang(rep, q) && NoStraddle(q, rep)
  {
    forall o | 0 <= o < |rep|
      ensures !Compatible(rep[o..], q)
    {
      if o == 0 {
        assert rep[o..][d] != q[d];
      } else {
        assert rep[o] == rep[1..][o - 1];
        assert rep[o..][0] != q[0];
      }
    }
    forall k | 1 <= k < |q|
      ensures !Compatible(q[k..], rep)
    {
      assert q[k] == q[1..][k - 1];
      assert q[k..][0] != rep[0];
    }
  }

  /** If the output of a scan from `i` starts with the tail `q[k..]`
      (`k >= 1`), the input from `i` already starts with that tail: it cannot
      come from an inserted `rep`. */
  lemma {:induction false} OutputTailFromInput(pat: string, rep: string, q: string, s: string, i: nat, k: nat)
    requires i <= |s| && 1 <= k < |q| && NoStraddle(q, rep)
    requires HasAt(Sub(MatcherOf(Literal(pat, rep)), s, i), 0, q[k..])
    ensures HasAt(s, i, q[k..])
    decreases |s| - i
  {
    var L := MatcherOf(Literal(pat, rep));
    var r := Sub(L, s, i);
    if i < |s| {
      if 0 < |pat| && HasAt(s, i, pat) {
        assert false;
      } else {
        var t := Sub(L, s, i + 1);
        assert r == [s[i]] + t;
        assert s[i] == q[k] by { assert r[0] == r[0..|q[k..]|][0]; }
        if k + 1 < |q| {
          assert HasAt(t, 0, q[k + 1..]) by {
            assert t[0..|q[k + 1..]|] == r[1..|q[k..]|];
            assert r[1..|q[k..]|] == q[k..][1..];
          }
          OutputTailFromInput(pat, rep, q, s, i + 1, k + 1);
          assert s[i..i + |q[k..]|] == [s[i]] + s[i + 1..i + 1 + |q[k + 1..]|];
        } else {
          assert s[i..i + 1] == [s[i]];
        }
      }
    }
  }

  /** An inserted `rep` in front of text free of `q` leaves it free of `q`. */
  lemma AbsentAfterRep(rep: string, t: string, q: string)
    requires 0 < |q| && NoOverhang(rep, q) && !Contains(t, q)
    ensures !Contains(rep + t, q)
  {
    var r := rep + t;
    forall j | 0 <= j <= |r|
      ensures !HasAt(r, j, q)
    {
      if j >= |rep| {
        var u: nat := j - |rep|;
        if u + |q| <= |t| {
          assert t[u..u + |q|] == r[j..j + |q|];
          assert HasAt(r, j, q) ==> HasAt(t, u, q);
        }
      } else {
        OverlapIsCompatible(rep, t, q, j);
      }
    }
  }

  /** An occurrence of `q` starting inside `rep`, in `rep + t`, agrees with
      `rep`'s tail. */
  lemma OverlapIsCompatible(rep: string, t: string, q: string, j: nat)
    requires j < |rep|
    ensures HasAt(rep + t, j, q) ==> Compatible(rep[j..], q)
  {
    var r := rep + t;
    if HasAt(r, j, q) {
      forall x | 0 <= x < |rep[j..]| && x < |q|
        ensures rep[j..][x] == q[x]
      {
        assert r[j + x] == r[j..j + |q|][x];
      }
    }
  }

  /** A character in front of text free of `q` can only create an
      occurrence of `q` at the very front. */
  lemma AbsentAfterChar(c: char, t: string, q: string)
    requires 0 < |q| && !Contains(t, q) && !HasAt([c] + t, 0, q)
    ensures !Contains([c] + t, q)
  {
    var r := [c] + t;
    forall j | 1 <= j <= |r|
      ensures !HasAt(r, j, q)
    {
      var u: nat := j - 1;
      if u + |q| <= |t| {
        assert r[1..] == t;
        assert t[u..u + |q|] == r[j..j + |q|];
        assert HasAt(r, j, q) ==> HasAt(t, u, q);
      }
    }
  }

  /** The step of `SubAvoids` where the scan copies the character at `i`. */
  lemma AvoidsOnCopy(pat: string, rep: string, q: string, s: string, i: nat)
    requires i < |s| && 0 < |q| && NoStraddle(q, rep)
    requires !(0 < |pat| && HasAt(s, i, pat))
    requires q == pat || AbsentFrom(s, i, q)
    requires !Contains(Sub(MatcherOf(Literal(pat, rep)), s, i + 1), q)
    ensures !Contains(Sub(MatcherOf(Literal(pat, rep)), s, i), q)
  {
    var t := Sub(MatcherOf(Literal(pat, rep)), s, i + 1);
    var r := [s[i]] + t;
    assert Sub(MatcherOf(Literal(pat, rep)), s, i) == r;
    assert r[0..1] == [s[i]] == s[i..i + 1];
    assert !HasAt(s, i, q);
    if HasAt(r, 0, q) && 1 < |q| {
      assert s[i] == q[0] by { assert r[0] == r[0..|q|][0]; }
      assert HasAt(t, 0, q[1..]) by {
        assert t[0..|q| - 1] == r[1..|q|];
      }
      if i + |q| <= |s| {
        assert s[i..i + |q|] == [s[i]] + s[i + 1..i + |q|];
      }
      OutputTailFromInput(pat, rep, q, s, i + 1, 1);
    }
    AbsentAfterChar(s[i], t, q);
  }

  /** Replacing `pat` by `rep` leaves no occurrence of `q` behind, when `q` is
      `pat` itself or does not occur in the input, and `rep` can neither
      contain nor help form an occurrence of `q`. */
  lemma {:induction false} SubAvoids(pat: string, rep: string, q: string, s: string, i: nat)
    requires i <= |s| && 0 < |q| && NoOverhang(rep, q) && NoStraddle(q, rep)
    requires q == pat || AbsentFrom(s, i, q)
    ensures !Contains(Sub(MatcherOf(Literal(pat, rep)), s, i), q)
    decreases |s| - i
  {
    var L := MatcherOf(Literal(pat, rep));
    if i < |s| {
      if 0 < |pat| && HasAt(s, i, pat) {
        SubAvoids(pat, rep, q, s, i + |pat|);
        assert Sub(L, s, i) == rep + Sub(L, s, i + |pat|);
        AbsentAfterRep(rep, Sub(L, s, i + |pat|), q);
      } else {
        SubAvoids(pat, rep, q, s, i + 1);
        AvoidsOnCopy(pat, rep, q, s, i);
      }
    }
  }

  /** Each replacement shortens the text by `d`, when `rep` is `d`
      characters shorter than `pat`. */
  lemma {:induction false} SubLength(pat: string, rep: string, s: string, i: nat, d: nat)
    requires i <= |s| && |rep| + d == |pat|
    ensures var L := MatcherOf(Literal(pat, rep));
      |Sub(L, s, i)| + d * |Matches(L, s, i)| == |s| - i
    decreases |s| - i
  {
    var L := MatcherOf(Literal(pat, rep));
    if i < |s| {
      if 0 < |pat| && HasAt(s, i, pat) {
        var e := i + |pat|;
        SubLength(pat, rep, s, e, d);
        var c := |Matches(L, s, e)|;
        assert |Sub(L, s, i)| == |rep| + |Sub(L, s, e)|;
        assert |Matches(L, s, i)| == c + 1;
        MulSucc(d, c);
      } else {
        SubLength(pat, rep, s, i + 1, d);
      }
    }
  }

  lemma MulSucc(d: nat, c: nat)
    ensures d * (c + 1) == d * c + d
  {
  }

  lemma MulPositive(d: nat, c: nat)
    requires 0 < d && 0 < c
    ensures 0 < d * c
  {
    MulSucc(d, c - 1);
  }
}
