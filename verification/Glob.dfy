/** The glob matcher mg_match_prefix_n, against a declarative reading of its patterns. */
module Glob {
  import opened Bytes

  const QUERY: byte := 63    // ?
  const STAR: byte := 42     // *
  const DOLLAR: byte := 36   // $
  const BAR: byte := 124     // |

  predicate SameByte(p: byte, s: byte) {
    p == QUERY || Lower(p) == Lower(s)
  }

  predicate NoSlash(s: Bytes) {
    SLASH !in s
  }

  /** "**" at the front of a pattern. */
  predicate DoubleStar(p: Bytes) {
    |p| > 1 && p[0] == STAR && p[1] == STAR
  }

  /** The pattern behind a star or a double star. */
  function AfterStar(p: Bytes): (r: Bytes)
    requires p != [] && p[0] == STAR
    ensures |r| < |p|
  {
    if DoubleStar(p) then p[2..] else p[1..]
  }

  // ----- what a pattern means -----

  /**
   The first n bytes of s match the bar-free pattern p: '?' is any one byte, '*' any bytes but
   slashes, '**' any bytes, '$' the end of s (whatever the pattern says behind it), and
   anything else itself in either case.
   */
  ghost predicate Matches(p: Bytes, s: Bytes, n: nat)
    requires n <= |s|
    decreases |p|
  {
    if p == [] then n == 0
    else if p[0] == DOLLAR then n == 0 && s == []
    else if p[0] == STAR then exists k :: 0 <= k <= n && StarTakes(p, s, k) && Matches(AfterStar(p), s[k..], n - k)
    else n > 0 && SameByte(p[0], s[0]) && Matches(p[1..], s[1..], n - 1)
  }

  predicate StarTakes(p: Bytes, s: Bytes, k: nat) {
    k <= |s| && (DoubleStar(p) || NoSlash(s[..k]))
  }

  // ----- what the search computes -----

  function RunLen(s: Bytes): (n: nat)
    ensures n <= |s|
  {
    if s == [] || s[0] == SLASH then 0 else 1 + RunLen(s[1..])
  }

  /** The most bytes a star may take. */
  function StarMax(p: Bytes, s: Bytes): (n: nat)
    ensures n <= |s|
  {
    if DoubleStar(p) then |s| else RunLen(s)
  }

  function Shift(k: nat, r: int): int {
    if r == -1 then -1 else k + r
  }

  /** Bytes of s matched by the bar-free pattern p, or -1. */
  function Match(p: Bytes, s: Bytes): (r: int)
    ensures -1 <= r <= |s|
    decreases |p|, 0
  {
    if p == [] then 0
    else if p[0] == QUERY && s != [] then Shift(1, Match(p[1..], s[1..]))
    else if p[0] == DOLLAR then if s == [] then 0 else -1
    else if p[0] == STAR then
      if AfterStar(p) == [] then StarMax(p, s) else Backtrack(AfterStar(p), s, StarMax(p, s))
    else if s == [] || Lower(p[0]) != Lower(s[0]) then -1
    else Shift(1, Match(p[1..], s[1..]))
  }

  /** Try the rest of the pattern behind k bytes, then behind k - 1, and so on down to none. */
  function Backtrack(rest: Bytes, s: Bytes, k: nat): (r: int)
    requires k <= |s|
    ensures -1 <= r <= |s|
    decreases |rest|, k + 1
  {
    var r := Match(rest, s[k..]);
    if r != -1 then k + r else if k == 0 then -1 else Backtrack(rest, s, k - 1)
  }

  // ----- the search is sound and complete -----

  lemma {:induction false} RunLenMax(s: Bytes, k: nat)
    requires k <= |s|
    ensures NoSlash(s[..k]) <==> k <= RunLen(s)
  {
    if k > 0 {
      if s[0] == SLASH {
        assert s[..k][0] == SLASH;
      } else {
        RunLenMax(s[1..], k - 1);
        PrefixCons(s, k);
      }
    }
  }

  lemma PrefixCons(s: Bytes, k: nat)
    requires 0 < k <= |s|
    ensures s[..k] == [s[0]] + s[1..][..k - 1]
  {
  }

  lemma StarTakesUpTo(p: Bytes, s: Bytes, k: nat)
    ensures StarTakes(p, s, k) <==> k <= StarMax(p, s)
  {
    if k <= |s| {
      RunLenMax(s, k);
    }
  }

  /** Backtracking answers with the longest star for which the rest of the pattern matches. */
  lemma {:induction false} BacktrackIsGreedy(rest: Bytes, s: Bytes, max: nat)
    requires max <= |s|
    ensures var r := Backtrack(rest, s, max);
            if r == -1 then forall k :: 0 <= k <= max ==> Match(rest, s[k..]) == -1
            else exists k :: 0 <= k <= max && Match(rest, s[k..]) != -1 && r == k + Match(rest, s[k..])
                          && forall j :: k < j <= max ==> Match(rest, s[j..]) == -1
    decreases max
  {
    hide Match;
    if Match(rest, s[max..]) == -1 && max > 0 {
      BacktrackIsGreedy(rest, s, max - 1);
    }
  }

  /** A result is the length of a prefix that matches; -1 means that no prefix does. */
  lemma {:induction false} MatchIsCorrect(p: Bytes, s: Bytes)
    ensures Match(p, s) >= 0 ==> Matches(p, s, Match(p, s))
    ensures Match(p, s) == -1 ==> forall n :: 0 <= n <= |s| ==> !Matches(p, s, n)
    decreases |p|
  {
    if p != [] && p[0] != DOLLAR {
      if p[0] == STAR {
        StarIsCorrect(p, s);
      } else if s != [] {
        MatchIsCorrect(p[1..], s[1..]);
        OneByteIsCorrect(p, s);
      }
    }
  }

  lemma OneByte(p: Bytes, s: Bytes, n: nat)
    requires p != [] && s != [] && p[0] != DOLLAR && p[0] != STAR && n <= |s|
    ensures Match(p, s) == if SameByte(p[0], s[0]) then Shift(1, Match(p[1..], s[1..])) else -1
    ensures Matches(p, s, n) <==> n > 0 && SameByte(p[0], s[0]) && Matches(p[1..], s[1..], n - 1)
  {
  }

  lemma OneByteIsCorrect(p: Bytes, s: Bytes)
    requires p != [] && s != [] && p[0] != DOLLAR && p[0] != STAR
    requires Match(p[1..], s[1..]) >= 0 ==> Matches(p[1..], s[1..], Match(p[1..], s[1..]))
    requires Match(p[1..], s[1..]) == -1 ==> forall n :: 0 <= n <= |s[1..]| ==> !Matches(p[1..], s[1..], n)
    ensures Match(p, s) >= 0 ==> Matches(p, s, Match(p, s))
    ensures Match(p, s) == -1 ==> forall n :: 0 <= n <= |s| ==> !Matches(p, s, n)
  {
    hide Match, Matches;
    forall n | 0 <= n <= |s|
      ensures Match(p, s) == -1 ==> !Matches(p, s, n)
      ensures Match(p, s) == n ==> Matches(p, s, n)
    {
      OneByte(p, s, n);
    }
  }

  lemma OneStar(p: Bytes, s: Bytes)
    requires p != [] && p[0] == STAR
    ensures Match(p, s) == if AfterStar(p) == [] then StarMax(p, s) else Backtrack(AfterStar(p), s, StarMax(p, s))
    ensures AfterStar(p) == [] ==> Match(AfterStar(p), s[StarMax(p, s)..]) == 0
  {
    hide Backtrack;
  }

  lemma StarMatches(p: Bytes, s: Bytes, k: nat, n: nat)
    requires p != [] && p[0] == STAR && k <= n <= |s| && StarTakes(p, s, k)
    requires Matches(AfterStar(p), s[k..], n - k)
    ensures Matches(p, s, n)
  {
  }

  lemma StarSplits(p: Bytes, s: Bytes, n: nat) returns (k: nat)
    requires p != [] && p[0] == STAR && n <= |s| && Matches(p, s, n)
    ensures k <= n && StarTakes(p, s, k) && Matches(AfterStar(p), s[k..], n - k)
  {
    k :| 0 <= k <= n && StarTakes(p, s, k) && Matches(AfterStar(p), s[k..], n - k);
  }

  lemma {:induction false} StarIsCorrect(p: Bytes, s: Bytes)
    requires p != [] && p[0] == STAR
    ensures Match(p, s) >= 0 ==> Matches(p, s, Match(p, s))
    ensures Match(p, s) == -1 ==> forall n :: 0 <= n <= |s| ==> !Matches(p, s, n)
    decreases |p|, 0
  {
    hide Match, Matches, Backtrack, StarMax, StarTakes;
    var rest, max := AfterStar(p), StarMax(p, s);
    OneStar(p, s);
    BacktrackIsGreedy(rest, s, max);
    if Match(p, s) >= 0 {
      var k := max;
      if rest != [] {
        k :| 0 <= k <= max && Match(rest, s[k..]) != -1 && Match(p, s) == k + Match(rest, s[k..]);
      }
      MatchIsCorrect(rest, s[k..]);
      StarTakesUpTo(p, s, k);
      StarMatches(p, s, k, Match(p, s));
    }
    forall n | 0 <= n <= |s| && Matches(p, s, n)
      ensures Match(p, s) != -1
    {
      var k := StarSplits(p, s, n);
      StarTakesUpTo(p, s, k);
      MatchIsCorrect(rest, s[k..]);
    }
  }

  /** Of all ways to split the string, the search reports the one with the longest first star. */
  lemma StarIsGreedy(p: Bytes, s: Bytes)
    requires p != [] && p[0] == STAR && Match(p, s) >= 0
    ensures exists k :: 0 <= k <= Match(p, s) && StarTakes(p, s, k)
              && Match(p, s) == k + Match(AfterStar(p), s[k..]) && Match(AfterStar(p), s[k..]) >= 0
              && forall j, n :: k < j <= |s| && StarTakes(p, s, j) && 0 <= n <= |s| - j ==>
                   !Matches(AfterStar(p), s[j..], n)
  {
    var rest, max := AfterStar(p), StarMax(p, s);
    var k;
    if rest == [] {
      k := max;
    } else {
      BacktrackIsGreedy(rest, s, max);
      k :| 0 <= k <= max && Match(rest, s[k..]) != -1 && Match(p, s) == k + Match(rest, s[k..])
        && forall j :: k < j <= max ==> Match(rest, s[j..]) == -1;
    }
    StarTakesUpTo(p, s, k);
    forall j, n | k < j <= |s| && StarTakes(p, s, j) && 0 <= n <= |s| - j
      ensures !Matches(rest, s[j..], n)
    {
      StarTakesUpTo(p, s, j);
      MatchIsCorrect(rest, s[j..]);
    }
  }

  // ----- alternatives -----

  function IndexOf(s: Bytes, b: byte): (n: nat)
    ensures n <= |s| && b !in s[..n] && (n < |s| ==> s[n] == b)
  {
    if s == [] || s[0] == b then 0
    else
      assert s[..1 + IndexOf(s[1..], b)] == [s[0]] + s[1..][..IndexOf(s[1..], b)];
      1 + IndexOf(s[1..], b)
  }

  function MatchAny(p: Bytes, s: Bytes): int
    decreases |p|
  {
    var bar := IndexOf(p, BAR);
    if bar == |p| then Match(p, s)
    else
      var r := Match(p[..bar], s);
      if r > 0 then r else MatchAny(p[bar + 1..], s)
  }

  /** The pattern cut at its bars. */
  function Alternatives(p: Bytes): (alts: seq<Bytes>)
    ensures alts != []
    decreases |p|
  {
    var bar := IndexOf(p, BAR);
    if bar == |p| then [p] else [p[..bar]] + Alternatives(p[bar + 1..])
  }

  /** Index of the first alternative that matches at least one byte, else of the last one. */
  function Chosen(alts: seq<Bytes>, s: Bytes): (i: nat)
    requires alts != []
    ensures i < |alts|
  {
    if |alts| == 1 || Match(alts[0], s) > 0 then 0 else 1 + Chosen(alts[1..], s)
  }

  lemma {:induction false} ChosenIsFirstPositive(alts: seq<Bytes>, s: Bytes)
    requires alts != []
    ensures forall j :: 0 <= j < Chosen(alts, s) ==> Match(alts[j], s) <= 0
    ensures Chosen(alts, s) < |alts| - 1 ==> Match(alts[Chosen(alts, s)], s) > 0
  {
    hide Match;
    if |alts| > 1 && Match(alts[0], s) <= 0 {
      ChosenIsFirstPositive(alts[1..], s);
    }
  }

  lemma {:induction false} MatchAnyIsChosen(p: Bytes, s: Bytes)
    ensures MatchAny(p, s) == Match(Alternatives(p)[Chosen(Alternatives(p), s)], s)
    decreases |p|
  {
    hide Match, IndexOf;
    var bar := IndexOf(p, BAR);
    if bar < |p| {
      MatchAnyIsChosen(p[bar + 1..], s);
      assert Alternatives(p)[1..] == Alternatives(p[bar + 1..]);
    }
  }

  /** The first alternative that matches at least one byte decides, else the last one does. */
  lemma FirstPositiveAlternative(p: Bytes, s: Bytes)
    ensures var alts, i := Alternatives(p), Chosen(Alternatives(p), s);
            && MatchAny(p, s) == Match(alts[i], s)
            && (forall j :: 0 <= j < i ==> Match(alts[j], s) <= 0)
            && (i < |alts| - 1 ==> Match(alts[i], s) > 0)
  {
    MatchAnyIsChosen(p, s);
    ChosenIsFirstPositive(Alternatives(p), s);
  }

  /**
   -1 does not mean that no alternative matches: one that matches the empty prefix is passed
   over, and the last alternative's failure is what is reported.
   */
  lemma FailureOfAlternatives(p: Bytes, s: Bytes)
    ensures var alts := Alternatives(p);
            MatchAny(p, s) == -1 <==>
              Match(alts[|alts| - 1], s) == -1 && forall i :: 0 <= i < |alts| ==> Match(alts[i], s) <= 0
  {
    hide Match;
    FirstPositiveAlternative(p, s);
  }

  /** "*|a" matches the empty prefix of "/", yet the answer is -1. */
  lemma EmptyMatchIsLost()
    ensures var p, s := [STAR, BAR, 97], [SLASH];
            Matches([STAR], s, 0) && Alternatives(p)[0] == [STAR] && MatchAny(p, s) == -1
  {
    var p, s: Bytes := [STAR, BAR, 97], [SLASH];
    assert IndexOf(p[1..], BAR) == 0 && IndexOf(p, BAR) == 1 && p[..1] == [STAR] && p[2..] == [97];
    assert IndexOf([97 as byte][1..], BAR) == 0 && IndexOf([97], BAR) == 1;
    assert RunLen(s) == 0 && Match([STAR], s) == 0 && Match([97], s) == -1;
    MatchIsCorrect([STAR], s);
    assert MatchAny([97], s) == -1;
  }

  // ----- the byte behind the string -----

  /**
   Once str is used up the code still compares the pattern with the byte behind it. The search for
   the bar-free pattern p passes the end of s when that byte equals the next one of the pattern.
   */
  predicate Passes(p: Bytes, s: Bytes, behind: byte)
    decreases |p|, 0
  {
    if p == [] || p[0] == DOLLAR then false
    else if p[0] == STAR then AfterStar(p) != [] && BacktrackPasses(AfterStar(p), s, StarMax(p, s), behind)
    else if s == [] then Lower(p[0]) == Lower(behind)
    else SameByte(p[0], s[0]) && Passes(p[1..], s[1..], behind)
  }

  predicate BacktrackPasses(rest: Bytes, s: Bytes, k: nat, behind: byte)
    requires k <= |s|
    decreases |rest|, k + 1
  {
    || Passes(rest, s[k..], behind)
    || (Match(rest, s[k..]) == -1 && k > 0 && BacktrackPasses(rest, s, k - 1, behind))
  }

  /** With bars: one of the alternatives that are tried does. */
  predicate AnyPasses(p: Bytes, s: Bytes, behind: byte)
    decreases |p|
  {
    var bar := IndexOf(p, BAR);
    if bar == |p| then Passes(p, s, behind)
    else
      || Passes(p[..bar], s, behind)
      || (Match(p[..bar], s) <= 0 && AnyPasses(p[bar + 1..], s, behind))
  }

  /** The byte behind the string can be mistaken for byte i of the pattern. */
  predicate Confusable(p: Bytes, i: nat, behind: byte) {
    i < |p| && p[i] != STAR && p[i] != DOLLAR && Lower(p[i]) == Lower(behind)
  }

  lemma StarPrefix(p: Bytes, j: nat)
    requires p != [] && p[0] == STAR && j <= |AfterStar(p)|
    ensures var q := p[..|p| - |AfterStar(p)| + j];
            q != [] && q[0] == STAR && DoubleStar(q) == DoubleStar(p) && AfterStar(q) == AfterStar(p)[..j]
  {
    var q := p[..|p| - |AfterStar(p)| + j];
    if DoubleStar(p) {
      assert q[2..] == p[2..][..j];
    } else {
      assert j == 0 ==> q == [STAR];
      assert j > 0 ==> q[1] == p[1];
      assert q[1..] == p[1..][..j];
    }
  }

  /** The search passes the end only where what comes before in the pattern matches all of s. */
  lemma {:induction false} PassesBehindMatch(p: Bytes, s: Bytes, behind: byte) returns (i: nat)
    requires Passes(p, s, behind)
    ensures Confusable(p, i, behind) && Matches(p[..i], s, |s|)
    decreases |p|, 0
  {
    if p[0] == STAR {
      var k, j := BacktrackPassesBehind(AfterStar(p), s, StarMax(p, s), behind);
      i := |p| - |AfterStar(p)| + j;
      var q := p[..i];
      assert p[i] == AfterStar(p)[j];
      StarPrefix(p, j);
      StarTakesUpTo(p, s, k);
      StarMatches(q, s, k, |s|);
    } else if s == [] {
      i := 0;
      assert p[..0] == [];
    } else {
      var j := PassesBehindMatch(p[1..], s[1..], behind);
      i := j + 1;
      assert p[..i] == [p[0]] + p[1..][..j];
      assert p[..i][1..] == p[1..][..j];
      OneByte(p[..i], s, |s|);
    }
  }

  lemma {:induction false} BacktrackPassesBehind(rest: Bytes, s: Bytes, max: nat, behind: byte) returns (k: nat, i: nat)
    requires max <= |s| && BacktrackPasses(rest, s, max, behind)
    ensures k <= max && Confusable(rest, i, behind) && Matches(rest[..i], s[k..], |s| - k)
    decreases |rest|, max + 1
  {
    if Passes(rest, s[max..], behind) {
      k := max;
      i := PassesBehindMatch(rest, s[k..], behind);
    } else {
      k, i := BacktrackPassesBehind(rest, s, max - 1, behind);
    }
  }

  lemma NoConfusion(p: Bytes, s: Bytes, behind: byte)
    requires forall i: nat :: i < |p| ==> !Confusable(p, i, behind)
    ensures !Passes(p, s, behind)
  {
    if Passes(p, s, behind) {
      var i := PassesBehindMatch(p, s, behind);
    }
  }

  /** A byte that no byte of the pattern can be mistaken for is safe; a zero byte mostly is. */
  lemma {:induction false} NeverPasses(p: Bytes, s: Bytes, behind: byte)
    requires forall i: nat :: i < |p| ==> !Confusable(p, i, behind)
    ensures !AnyPasses(p, s, behind)
    decreases |p|
  {
    hide Passes, Match, IndexOf;
    var bar := IndexOf(p, BAR);
    var first := p[..bar];
    forall i: nat | i < |first|
      ensures !Confusable(first, i, behind)
    {
      assert first[i] == p[i];
      assert !Confusable(p, i, behind);
    }
    NoConfusion(first, s, behind);
    if bar < |p| {
      var rest := p[bar + 1..];
      forall i: nat | i < |rest|
        ensures !Confusable(rest, i, behind)
      {
        assert rest[i] == p[bar + 1 + i];
        assert !Confusable(p, bar + 1 + i, behind);
      }
      NeverPasses(rest, s, behind);
    } else {
      assert first == p;
    }
  }

  /** Without stars and dollars the search passes the end exactly there. */
  lemma {:induction false} PlainPasses(p: Bytes, s: Bytes, behind: byte)
    requires STAR !in p && DOLLAR !in p
    ensures Passes(p, s, behind) <==> Confusable(p, |s|, behind) && Match(p[..|s|], s) == |s|
    decreases |s|
  {
    if s == [] {
      assert p[..0] == [];
    } else if p != [] {
      PlainPasses(p[1..], s[1..], behind);
      if |p| > |s| {
        assert p[..|s|][1..] == p[1..][..|s| - 1];
      }
    }
  }

  /**
   As in the router, where the '?' of the query stands behind the path: the pattern "/a?" does not
   match any prefix of "/a", but the question mark behind it passes for one.
   */
  lemma QueryPasses()
    ensures var p, s := [SLASH, 97, QUERY], [SLASH, 97];
            AnyPasses(p, s, QUERY) && MatchAny(p, s) == -1 && forall n :: 0 <= n <= |s| ==> !Matches(p, s, n)
  {
    var p: Bytes, s: Bytes := [SLASH, 97, QUERY], [SLASH, 97];
    assert p[1..] == [97, QUERY] && p[1..][1..] == [QUERY] && s[1..] == [97] && s[1..][1..] == [];
    assert IndexOf([QUERY], BAR) == 1 && IndexOf([97, QUERY], BAR) == 2;
    assert p[..2] == s;
    assert Match(p[1..][1..], []) == -1;
    assert Match(p[1..], s[1..]) == -1;
    MatchIsCorrect(p, s);
  }

  // ----- the method -----

  lemma MatchNil(s: Bytes, behind: byte)
    ensures Match([], s) == 0 && !Passes([], s, behind)
  {
  }

  /** What one turn of the loop relies on when it moves past a byte. */
  lemma MatchStep(p: Bytes, s: Bytes, i: nat, j: nat)
    requires i < |p| && j < |s| && p[i] != STAR && p[i] != DOLLAR
    requires SameByte(p[i], s[j])
    ensures Match(p[i..], s[j..]) == Shift(1, Match(p[i + 1..], s[j + 1..]))
  {
    assert p[i..][1..] == p[i + 1..] && s[j..][1..] == s[j + 1..];
  }

  lemma MatchStar(p: Bytes, s: Bytes, i: nat, j: nat)
    requires i < |p| && j <= |s| && p[i] == STAR
    ensures var k := if i + 1 < |p| && p[i + 1] == STAR then i + 2 else i + 1;
            var max := if i + 1 < |p| && p[i + 1] == STAR then |s| - j else RunLen(s[j..]);
            Match(p[i..], s[j..]) == if k == |p| then max else Backtrack(p[k..], s[j..], max)
  {
    hide Backtrack;
    assert p[i..][1..] == p[i + 1..];
    if i + 1 < |p| {
      assert p[i..][2..] == p[i + 2..];
    }
  }

  lemma BacktrackUnfold(rest: Bytes, s: Bytes, k: nat)
    requires k <= |s|
    ensures Backtrack(rest, s, k) ==
              var r := Match(rest, s[k..]); if r != -1 then k + r else if k == 0 then -1 else Backtrack(rest, s, k - 1)
  {
    hide Match;
  }

  /** memchr: the index of b in s, or the length of s. */
  method FindByte(s: Bytes, b: byte) returns (n: nat)
    ensures n == IndexOf(s, b)
  {
    n := 0;
    while n < |s| && s[n] != b
      invariant n <= |s| && IndexOf(s, b) == n + IndexOf(s[n..], b)
    {
      assert s[n..][1..] == s[n + 1..];
      n := n + 1;
    }
  }

  lemma BarFree(p: Bytes, s: Bytes)
    requires BAR !in p
    ensures MatchAny(p, s) == Match(p, s)
  {
    hide Match;
  }

  lemma BarFreeIndex(p: Bytes)
    requires IndexOf(p, BAR) == |p|
    ensures BAR !in p
  {
    assert p[..|p|] == p;
  }

  lemma PassesStep(p: Bytes, s: Bytes, i: nat, j: nat, behind: byte)
    requires i < |p| && j < |s| && p[i] != STAR && p[i] != DOLLAR && SameByte(p[i], s[j])
    ensures Passes(p[i..], s[j..], behind) == Passes(p[i + 1..], s[j + 1..], behind)
  {
    assert p[i..][1..] == p[i + 1..] && s[j..][1..] == s[j + 1..];
  }

  lemma PassesStar(p: Bytes, s: Bytes, i: nat, j: nat, behind: byte)
    requires i < |p| && j <= |s| && p[i] == STAR
    ensures var k := if i + 1 < |p| && p[i + 1] == STAR then i + 2 else i + 1;
            var max := if i + 1 < |p| && p[i + 1] == STAR then |s| - j else RunLen(s[j..]);
            Passes(p[i..], s[j..], behind) <==> k < |p| && BacktrackPasses(p[k..], s[j..], max, behind)
  {
    hide BacktrackPasses;
    assert p[i..][1..] == p[i + 1..];
    if i + 1 < |p| {
      assert p[i..][2..] == p[i + 2..];
    }
  }

  lemma PassesUnfold(rest: Bytes, s: Bytes, k: nat, behind: byte)
    requires k <= |s|
    ensures BacktrackPasses(rest, s, k, behind) <==>
              || Passes(rest, s[k..], behind)
              || (Match(rest, s[k..]) == -1 && k > 0 && BacktrackPasses(rest, s, k - 1, behind))
  {
    hide Match, Passes;
  }

  lemma PassesBarFree(p: Bytes, s: Bytes, behind: byte)
    requires BAR !in p
    ensures AnyPasses(p, s, behind) == Passes(p, s, behind)
  {
    hide Match, Passes;
  }

  /** The do-while loop: the rest of the pattern behind len bytes, then behind fewer and fewer. */
  method TryRest(rest: Bytes, s: Bytes, max: nat, behind: byte) returns (r: int, passed: bool)
    requires max <= |s| && BAR !in rest
    ensures passed == BacktrackPasses(rest, s, max, behind)
    ensures r == if passed then |s| + 1 else Backtrack(rest, s, max)
    decreases |rest|, 1
  {
    hide Match, Backtrack, Passes, BacktrackPasses;
    var len := max;
    BarFree(rest, s[len..]);
    PassesBarFree(rest, s[len..], behind);
    r, passed := MatchPrefix(rest, s[len..], behind);
    BacktrackUnfold(rest, s, len);
    PassesUnfold(rest, s, len, behind);
    while !passed && r == -1 && len > 0
      invariant len <= max && passed == Passes(rest, s[len..], behind)
      invariant r == if passed then |s| - len + 1 else Match(rest, s[len..])
      invariant Backtrack(rest, s, max) == Backtrack(rest, s, len)
      invariant BacktrackPasses(rest, s, max, behind) == BacktrackPasses(rest, s, len, behind)
      decreases len, !passed
    {
      BacktrackUnfold(rest, s, len);
      PassesUnfold(rest, s, len, behind);
      len := len - 1;
      BarFree(rest, s[len..]);
      PassesBarFree(rest, s[len..], behind);
      r, passed := MatchPrefix(rest, s[len..], behind);
    }
    BacktrackUnfold(rest, s, len);
    PassesUnfold(rest, s, len, behind);
    r := if r == -1 then -1 else r + len;
  }

  /**
   mg_match_prefix_n, on a string behind which the byte `behind` stands. Where the search passes
   the end of str the model stops and says so; if that was the last byte of the pattern, the code
   stops there as well, with the same result.
   */
  method MatchPrefix(pattern: Bytes, str: Bytes, behind: byte) returns (r: int, passed: bool)
    ensures passed == AnyPasses(pattern, str, behind)
    ensures r == if passed then |str| + 1 else MatchAny(pattern, str)
    decreases |pattern|, 0
  {
    hide Match, Backtrack, Passes, BacktrackPasses;
    var bar := FindByte(pattern, BAR);
    if bar < |pattern| {
      BarFree(pattern[..bar], str);
      PassesBarFree(pattern[..bar], str, behind);
      r, passed := MatchPrefix(pattern[..bar], str, behind);
      if r > 0 {
        return;
      }
      r, passed := MatchPrefix(pattern[bar + 1..], str, behind);
      return;
    }
    BarFreeIndex(pattern);
    BarFree(pattern, str);
    PassesBarFree(pattern, str, behind);
    var i: nat, j: nat := 0, 0;
    assert pattern[0..] == pattern && str[0..] == str;
    while i < |pattern|
      invariant i <= |pattern| && j <= |str|
      invariant Match(pattern, str) == Shift(j, Match(pattern[i..], str[j..]))
      invariant Passes(pattern, str, behind) == Passes(pattern[i..], str[j..], behind)
    {
      if pattern[i] == QUERY && j != |str| {
        MatchStep(pattern, str, i, j);
        PassesStep(pattern, str, i, j, behind);
      } else if pattern[i] == DOLLAR {
        MatchDollar(pattern[i..], str[j..], behind);
        return if j == |str| then j else -1, false;
      } else if pattern[i] == STAR {
        MatchStar(pattern, str, i, j);
        PassesStar(pattern, str, i, j, behind);
        i := i + 1;
        var len: nat;
        if i < |pattern| && pattern[i] == STAR {
          i := i + 1;
          len := |str| - j;
        } else {
          len := ScanRun(str, j);
        }
        if i == |pattern| {
          return j + len, false;
        }
        r, passed := TryRest(pattern[i..], str[j..], len, behind);
        return if r == -1 then -1 else j + r, passed;
      } else if Lower(pattern[i]) != Lower(if j < |str| then str[j] else behind) {
        MatchMismatch(pattern[i..], str[j..], behind);
        return -1, false;
      } else if j == |str| {
        PassesHere(pattern[i..], behind);
        return j + 1, true;
      } else {
        MatchStep(pattern, str, i, j);
        PassesStep(pattern, str, i, j, behind);
      }
      i, j := i + 1, j + 1;
    }
    assert pattern[i..] == [];
    MatchNil(str[j..], behind);
    return j, false;
  }

  lemma PassesHere(p: Bytes, behind: byte)
    requires p != [] && p[0] != STAR && p[0] != DOLLAR && Lower(p[0]) == Lower(behind)
    ensures Passes(p, [], behind)
  {
  }

  lemma MatchDollar(p: Bytes, s: Bytes, behind: byte)
    requires p != [] && p[0] == DOLLAR
    ensures !Passes(p, s, behind) && Match(p, s) == if s == [] then 0 else -1
  {
  }

  lemma MatchMismatch(p: Bytes, s: Bytes, behind: byte)
    requires p != [] && p[0] != STAR && p[0] != DOLLAR && (p[0] == QUERY ==> s == [])
    requires Lower(p[0]) != Lower(if s == [] then behind else s[0])
    ensures Match(p, s) == -1 && !Passes(p, s, behind)
  {
  }

  /** The bytes before the next slash. */
  method ScanRun(str: Bytes, j: nat) returns (len: nat)
    requires j <= |str|
    ensures len == RunLen(str[j..])
  {
    len := 0;
    while j + len != |str| && str[j + len] != SLASH
      invariant j + len <= |str| && RunLen(str[j..]) == len + RunLen(str[j + len..])
      decreases |str| - len
    {
      assert str[j + len..][1..] == str[j + len + 1..];
      len := len + 1;
    }
  }

  // ----- what the special bytes mean, one by one -----

  /** A pattern of ordinary bytes matches itself, in either case. */
  lemma {:induction false} LiteralMatches(p: Bytes, s: Bytes)
    requires forall c <- Ascii("?*$") :: c !in p
    ensures Match(p, s) == if |p| <= |s| && SameText(p, s[..|p|]) then |p| else -1
  {
    assert Ascii("?*$") == [QUERY, STAR, DOLLAR];
    assert QUERY in Ascii("?*$") && STAR in Ascii("?*$") && DOLLAR in Ascii("?*$");
    if p != [] && s != [] {
      LiteralMatches(p[1..], s[1..]);
      if |p| <= |s| {
        assert s[..|p|] == [s[0]] + s[1..][..|p| - 1];
        assert forall i :: 0 < i < |p| ==> p[i] == p[1..][i - 1] && s[..|p|][i] == s[1..][..|p| - 1][i - 1];
      }
    }
  }

  /** '?' takes one byte, '$' the end. */
  lemma QueryAndDollar(s: Bytes)
    ensures Match(Ascii("?"), s) == if s == [] then -1 else 1
    ensures Match(Ascii("$"), s) == if s == [] then 0 else -1
  {
    hide Backtrack, StarMax;
    assert Ascii("?") == [QUERY] && Ascii("$") == [DOLLAR];
    MatchNil(if s == [] then [] else s[1..], 0);
  }

  /** '*' takes everything up to a slash, '**' everything. */
  lemma Stars(s: Bytes)
    ensures Match(Ascii("**"), s) == |s|
    ensures var n := Match(Ascii("*"), s);
            0 <= n && Ascii("/")[0] !in s[..n] && (n < |s| ==> s[n] == Ascii("/")[0])
  {
    hide Match, Backtrack;
    var one, two := Ascii("*"), Ascii("**");
    assert one == [STAR] && two == [STAR, STAR] && Ascii("/") == [SLASH];
    OneStar(one, s);
    OneStar(two, s);
    RunEnds(s);
  }

  lemma {:induction false} RunEnds(s: Bytes)
    ensures var n := RunLen(s); SLASH !in s[..n] && (n < |s| ==> s[n] == SLASH)
  {
    if s != [] && s[0] != SLASH {
      RunEnds(s[1..]);
      PrefixCons(s, RunLen(s));
    }
  }

  /** A bar separates alternatives. */
  lemma BarSplits()
    ensures Alternatives(Ascii("a|b")) == [Ascii("a"), Ascii("b")]
  {
    var p := Ascii("a|b");
    assert p == [97, BAR, 98];
    assert p[1..] == [BAR, 98] && IndexOf(p[1..], BAR) == 0 && IndexOf(p, BAR) == 1;
    assert p[..1] == Ascii("a") && p[2..] == Ascii("b");
    assert [98 as byte][1..] == [] && IndexOf([98], BAR) == 1;
    assert Alternatives(p[2..]) == [p[2..]];
  }
}
