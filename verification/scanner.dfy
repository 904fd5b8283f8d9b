/** The left-to-right, non-overlapping scan that Python's `re.findall`,
    `re.sub`, `re.search`, `str.count` and `str.replace` all perform, for any
    of the rules' patterns: try to match at the current index; on a match,
    take it and resume just past it; otherwise move on by one character. */
module Scanner {
  import opened Wrappers

  /** A match: the index just past it, and the text that replaces it. */
  datatype Hit = Hit(end: nat, text: string)

  /** A match found at `i` lies within `s` and is not empty. */
  predicate Fits(h: Option<Hit>, s: string, i: nat)
  {
    h.Some? ==> i < h.value.end <= |s|
  }

  /** A pattern, seen by the scan: whether, and how, it matches `s` at `i`. */
  type Matcher = m: (string, nat) -> Option<Hit> | forall s, i :: Fits(m(s, i), s, i)
    witness (s: string, i: nat) => None

  /** The start indices of the matches a scan from `i` takes (`re.findall`,
      `str.count`). */
  function Matches(m: Matcher, s: string, i: nat): (ms: seq<nat>)
    requires i <= |s|
    ensures forall k :: 0 <= k < |ms| ==> i <= ms[k] < |s|
    decreases |s| - i
  {
    if i == |s| then []
    else
      match m(s, i)
      case Some(h) => [i] + Matches(m, s, h.end)
      case None => Matches(m, s, i + 1)
  }

  /** The text a scan from `i` produces, each match replaced by its hit text
      (`re.sub`, `str.replace`). */
  function Sub(m: Matcher, s: string, i: nat): string
    requires i <= |s|
    decreases |s| - i
  {
    if i == |s| then []
    else
      match m(s, i)
      case Some(h) => h.text + Sub(m, s, h.end)
      case None => [s[i]] + Sub(m, s, i + 1)
  }

  /** The first index at or after `i` where the pattern matches (`re.search`). */
  function Search(m: Matcher, s: string, i: nat): (r: Option<nat>)
    requires i <= |s|
    ensures r.Some? ==> i <= r.value < |s| && m(s, r.value).Some?
    ensures r.Some? ==> forall q :: i <= q < r.value ==> m(s, q).None?
    ensures r.None? ==> forall q :: i <= q < |s| ==> m(s, q).None?
    decreases |s| - i
  {
    if i == |s| then None
    else if m(s, i).Some? then Some(i)
    else Search(m, s, i + 1)
  }

  /** Where the match at `q` ends (just `q` if there is none). */
  function EndOf(m: Matcher, s: string, q: nat): nat
  {
    match m(s, q)
    case Some(h) => h.end
    case None => q
  }

  /** What replaces the match at `q` (empty if there is none). */
  function TextOf(m: Matcher, s: string, q: nat): string
  {
    match m(s, q)
    case Some(h) => h.text
    case None => []
  }

  /** `ms` lists matches of the pattern in `s` at or after `i`, in order and without
      overlap. */
  ghost predicate Chain(m: Matcher, s: string, i: nat, ms: seq<nat>)
  {
    && (forall k :: 0 <= k < |ms| ==> i <= ms[k] < |s| && m(s, ms[k]).Some?)
    && (forall k1, k2 :: 0 <= k1 < k2 < |ms| ==> EndOf(m, s, ms[k1]) <= ms[k2])
  }

  /** the pattern matches nowhere in `[a, b)`. */
  ghost predicate GapFree(m: Matcher, s: string, a: nat, b: nat)
  {
    forall q :: a <= q < b ==> m(s, q).None?
  }

  /** No match position is left outside the matches of `ms`: the gap before
      the first match, the gaps between consecutive matches and the gap after
      the last one are all free of matches. */
  ghost predicate Covers(m: Matcher, s: string, i: nat, ms: seq<nat>)
  {
    && (|ms| == 0 ==> GapFree(m, s, i, |s|))
    && (|ms| > 0 ==> GapFree(m, s, i, ms[0]) && GapFree(m, s, EndOf(m, s, ms[|ms| - 1]), |s|))
    && (forall k :: 0 <= k < |ms| - 1 ==> GapFree(m, s, EndOf(m, s, ms[k]), ms[k + 1]))
  }

  /** The declarative reading of a leftmost non-overlapping scan: ordered,
      disjoint matches that leave no match position uncovered. */
  ghost predicate Tiles(m: Matcher, s: string, i: nat, ms: seq<nat>)
  {
    Chain(m, s, i, ms) && Covers(m, s, i, ms)
  }

  /** Prepending a match that ends before every listed match keeps a chain. */
  lemma ChainCons(m: Matcher, s: string, i: nat, ms: seq<nat>)
    requires i < |s| && m(s, i).Some?
    requires Chain(m, s, EndOf(m, s, i), ms)
    ensures Chain(m, s, i, [i] + ms)
  {
    var ms' := [i] + ms;
    forall k1, k2 | 0 <= k1 < k2 < |ms'|
      ensures EndOf(m, s, ms'[k1]) <= ms'[k2]
    {
      if k1 == 0 {
        assert ms'[k2] == ms[k2 - 1];
      } else {
        assert ms'[k1] == ms[k1 - 1] && ms'[k2] == ms[k2 - 1];
      }
    }
  }

  /** The matches the scan takes are a tiling. */
  lemma {:induction false} MatchesTile(m: Matcher, s: string, i: nat)
    requires i <= |s|
    ensures Tiles(m, s, i, Matches(m, s, i))
    decreases |s| - i
  {
    if i < |s| {
      match m(s, i)
      case Some(h) =>
        MatchesTile(m, s, h.end);
        TileCons(m, s, i, Matches(m, s, h.end));
      case None =>
        MatchesTile(m, s, i + 1);
        TileSkip(m, s, i, Matches(m, s, i + 1));
    }
  }

  /** A match followed by a tiling of the rest is a tiling. */
  lemma TileCons(m: Matcher, s: string, i: nat, rest: seq<nat>)
    requires i < |s| && m(s, i).Some? && Tiles(m, s, EndOf(m, s, i), rest)
    ensures Tiles(m, s, i, [i] + rest)
  {
    var ms := [i] + rest;
    ChainCons(m, s, i, rest);
    forall k | 0 <= k < |ms| - 1
      ensures GapFree(m, s, EndOf(m, s, ms[k]), ms[k + 1])
    {
      if k > 0 {
        assert ms[k] == rest[k - 1] && ms[k + 1] == rest[k];
      }
    }
    if rest != [] {
      assert ms[|ms| - 1] == rest[|rest| - 1];
    }
  }

  /** A position without a match, before a tiling, widens its first gap. */
  lemma TileSkip(m: Matcher, s: string, i: nat, ms: seq<nat>)
    requires i < |s| && m(s, i).None? && Tiles(m, s, i + 1, ms)
    ensures Tiles(m, s, i, ms)
  {
  }

  /** A tiling is unique: it is exactly the list of matches the scan takes. */
  lemma {:induction false} TilesUnique(m: Matcher, s: string, i: nat, ms: seq<nat>)
    requires i <= |s| && Tiles(m, s, i, ms)
    ensures ms == Matches(m, s, i)
    decreases |s| - i
  {
    if i < |s| {
      match m(s, i)
      case Some(h) =>
        TilesFirst(m, s, i, ms);
        TilesUnique(m, s, h.end, ms[1..]);
        assert ms == [i] + ms[1..];
      case None =>
        TilesPastGap(m, s, i, ms);
        TilesUnique(m, s, i + 1, ms);
    }
  }

  /** A tiling from a match position starts with that match, and the rest
      tiles from its end. */
  lemma TilesFirst(m: Matcher, s: string, i: nat, ms: seq<nat>)
    requires i < |s| && m(s, i).Some? && Tiles(m, s, i, ms)
    ensures ms != [] && ms[0] == i && Tiles(m, s, EndOf(m, s, i), ms[1..])
  {
    assert ms != [];
    assert ms[0] == i;
    var rest := ms[1..];
    ChainTail(m, s, i, ms);
    assert Covers(m, s, EndOf(m, s, i), rest) by {
      if rest != [] {
        assert GapFree(m, s, EndOf(m, s, ms[0]), ms[1]);
        assert rest[|rest| - 1] == ms[|ms| - 1];
      }
      forall k | 0 <= k < |rest| - 1
        ensures GapFree(m, s, EndOf(m, s, rest[k]), rest[k + 1])
      {
        assert GapFree(m, s, EndOf(m, s, ms[k + 1]), ms[k + 2]);
      }
    }
  }

  /** A tiling from a position without a match is one from the next
      position. */
  lemma TilesPastGap(m: Matcher, s: string, i: nat, ms: seq<nat>)
    requires i < |s| && m(s, i).None? && Tiles(m, s, i, ms)
    ensures Tiles(m, s, i + 1, ms)
  {
    if ms != [] {
      assert m(s, ms[0]).Some?;
    }
  }

  /** The matches of a whole-input scan are its one and only tiling. */
  lemma TilingIsTheScan(m: Matcher, s: string)
    ensures Tiles(m, s, 0, Matches(m, s, 0))
    ensures forall ms :: Tiles(m, s, 0, ms) ==> ms == Matches(m, s, 0)
  {
    MatchesTile(m, s, 0);
    forall ms | Tiles(m, s, 0, ms)
      ensures ms == Matches(m, s, 0)
    {
      TilesUnique(m, s, 0, ms);
    }
  }

  /** The output built from a list of matches: the text between matches is
      copied, each match is replaced by its hit text. The copied stretches
      are well-formed for every chain; outside one they are taken as empty. */
  ghost function Splice(m: Matcher, s: string, i: nat, ms: seq<nat>): string
    decreases |ms|
  {
    if ms == [] then Between(s, i, |s|)
    else Between(s, i, ms[0]) + (TextOf(m, s, ms[0]) + Splice(m, s, EndOf(m, s, ms[0]), ms[1..]))
  }

  /** `s[a..b]` when that is a stretch of `s`. */
  function Between(s: string, a: nat, b: nat): string
  {
    if a <= b <= |s| then s[a..b] else []
  }

  /** Past its first match, a chain is a chain from that match's end. */
  lemma ChainTail(m: Matcher, s: string, i: nat, ms: seq<nat>)
    requires Chain(m, s, i, ms) && ms != []
    ensures Chain(m, s, EndOf(m, s, ms[0]), ms[1..])
  {
    forall k | 0 <= k < |ms[1..]|
      ensures EndOf(m, s, ms[0]) <= ms[1..][k]
    {
      assert EndOf(m, s, ms[0]) <= ms[k + 1];
    }
    forall k1, k2 | 0 <= k1 < k2 < |ms[1..]|
      ensures EndOf(m, s, ms[1..][k1]) <= ms[1..][k2]
    {
      assert EndOf(m, s, ms[k1 + 1]) <= ms[k2 + 1];
    }
  }

  /** The substitution copies every character outside the matches, in order,
      and replaces each match of the scan by its hit text. */
  lemma {:induction false} SubIsSplice(m: Matcher, s: string, i: nat)
    requires i <= |s|
    ensures Chain(m, s, i, Matches(m, s, i)) && Sub(m, s, i) == Splice(m, s, i, Matches(m, s, i))
    decreases |s| - i
  {
    if i < |s| {
      match m(s, i)
      case Some(h) =>
        SubIsSplice(m, s, h.end);
        SpliceCons(m, s, i, Matches(m, s, h.end));
      case None =>
        SubIsSplice(m, s, i + 1);
        SpliceStep(m, s, i, Matches(m, s, i + 1));
        ChainFrom(m, s, i, Matches(m, s, i + 1));
    }
  }

  /** A splice from a match position starts with that match's text. */
  lemma SpliceCons(m: Matcher, s: string, i: nat, rest: seq<nat>)
    requires i < |s| && m(s, i).Some? && Chain(m, s, EndOf(m, s, i), rest)
    ensures Chain(m, s, i, [i] + rest)
    ensures Splice(m, s, i, [i] + rest) == TextOf(m, s, i) + Splice(m, s, EndOf(m, s, i), rest)
  {
    ChainCons(m, s, i, rest);
    var ms := [i] + rest;
    assert ms[0] == i && ms[1..] == rest;
    assert Between(s, i, i) == [];
  }

  /** Starting the splice one character earlier, before the first match,
      adds that character in front. */
  lemma SpliceStep(m: Matcher, s: string, i: nat, ms: seq<nat>)
    requires i < |s| && (ms != [] ==> i < ms[0] <= |s|)
    ensures Splice(m, s, i, ms) == [s[i]] + Splice(m, s, i + 1, ms)
  {
    if ms == [] {
      assert s[i..] == [s[i]] + s[i + 1..];
    } else {
      var a := ms[0];
      var x, tail := Between(s, i + 1, a), TextOf(m, s, a) + Splice(m, s, EndOf(m, s, a), ms[1..]);
      assert Between(s, i, a) == [s[i]] + x by {
        assert s[i..a] == [s[i]] + s[i + 1..a];
      }
      assert ([s[i]] + x) + tail == [s[i]] + (x + tail);
    }
  }

  /** A chain from `i + 1` is one from `i`. */
  lemma ChainFrom(m: Matcher, s: string, i: nat, ms: seq<nat>)
    requires Chain(m, s, i + 1, ms)
    ensures Chain(m, s, i, ms)
  {
  }

  /** A scan that takes no match copies its input. */
  lemma {:induction false} NoMatchesUnchanged(m: Matcher, s: string, i: nat)
    requires i <= |s| && Matches(m, s, i) == []
    ensures Sub(m, s, i) == s[i..]
    decreases |s| - i
  {
    if i < |s| {
      NoMatchesUnchanged(m, s, i + 1);
      assert s[i..] == [s[i]] + s[i + 1..];
    }
  }

  /** A whole-text substitution that finds no match returns its input. */
  lemma UnmatchedUnchanged(m: Matcher, s: string)
    ensures Matches(m, s, 0) == [] ==> Sub(m, s, 0) == s
  {
    if Matches(m, s, 0) == [] {
      NoMatchesUnchanged(m, s, 0);
      assert s[0..] == s;
    }
  }

  /** The scan takes no match exactly when the pattern matches nowhere. */
  lemma {:induction false} NoMatchesIffNowhere(m: Matcher, s: string, i: nat)
    requires i <= |s|
    ensures Matches(m, s, i) == [] <==> forall q :: i <= q < |s| ==> m(s, q).None?
    decreases |s| - i
  {
    if i < |s| && m(s, i).None? {
      NoMatchesIffNowhere(m, s, i + 1);
    }
  }

  /** `re.search` finds the first match of `re.findall`. */
  lemma {:induction false} SearchIsFirstMatch(m: Matcher, s: string, i: nat)
    requires i <= |s|
    ensures Search(m, s, i).None? <==> Matches(m, s, i) == []
    ensures Search(m, s, i).Some? ==> Search(m, s, i).value == Matches(m, s, i)[0]
    decreases |s| - i
  {
    if i < |s| && m(s, i).None? {
      SearchIsFirstMatch(m, s, i + 1);
    }
  }

  /** Up to the first match the substitution copies its input; there it
      puts that match's text. */
  lemma {:induction false} SubUpToFirst(m: Matcher, s: string, i: nat)
    requires i <= |s| && Search(m, s, i).Some?
    ensures var q := Search(m, s, i).value;
      Sub(m, s, i) == s[i..q] + TextOf(m, s, q) + Sub(m, s, EndOf(m, s, q))
    decreases |s| - i
  {
    if m(s, i).None? {
      SubUpToFirst(m, s, i + 1);
      var q := Search(m, s, i).value;
      assert s[i..q] == [s[i]] + s[i + 1..q];
    }
  }

  /** A substitution whose first match's text differs from the matched input
      at some offset changes the string. */
  lemma SubChanges(m: Matcher, s: string, d: nat)
    requires Search(m, s, 0).Some?
    requires var q := Search(m, s, 0).value;
      q + d < EndOf(m, s, q) && d < |TextOf(m, s, q)| && TextOf(m, s, q)[d] != s[q + d]
    ensures Sub(m, s, 0) != s
  {
    var q := Search(m, s, 0).value;
    SubUpToFirst(m, s, 0);
    var r := Sub(m, s, 0);
    assert r[q + d] == TextOf(m, s, q)[d];
  }
}
