/** The wildcard matcher of the register query: `*` stands for any string, `?` for any one character. */
module Glob {
  import opened CText

  /** The language of a glob, by structural recursion on the pattern. */
  ghost predicate Matches(w: seq<char>, s: seq<char>)
    decreases |w|
  {
    if w == [] then s == []
    else if w[0] == '*' then exists k :: 0 <= k <= |s| && Matches(w[1..], s[k..])
    else s != [] && Fits(w[0], s[0]) && Matches(w[1..], s[1..])
  }

  predicate Fits(p: char, c: char) {
    p == c || p == '?'
  }

  /** A single pattern character: a star matches any string, a question mark any character, others themselves. */
  lemma OneCharMatches(p: char, s: seq<char>)
    ensures Matches([p], s) <==> p == '*' || (|s| == 1 && (p == '?' || s[0] == p))
    ensures Matches([], s) <==> |s| == 0
  {
    assert [p][1..] == [];
    if p == '*' {
      assert Matches([p][1..], s[|s|..]);
    }
  }

  /** One unfolding of the language, behind a first character or an empty pattern. */
  lemma MatchesStep(w: seq<char>, s: seq<char>)
    ensures w == [] ==> (Matches(w, s) <==> s == [])
    ensures w != [] && w[0] == '*' ==> (Matches(w, s) <==> exists k :: 0 <= k <= |s| && Matches(w[1..], s[k..]))
    ensures w != [] && w[0] != '*' ==> (Matches(w, s) <==> s != [] && Fits(w[0], s[0]) && Matches(w[1..], s[1..]))
  {
  }

  /** A first part and a rest that match the two parts of `s` at `k`. */
  ghost predicate SplitAt(a: seq<char>, b: seq<char>, s: seq<char>, k: nat) {
    k <= |s| && Matches(a, s[..k]) && Matches(b, s[k..])
  }

  /** A pattern in two parts matches exactly the strings whose parts they match. */
  lemma {:induction false} MatchesInParts(a: seq<char>, b: seq<char>, s: seq<char>)
    ensures Matches(a + b, s) <==> exists k: nat :: k <= |s| && Matches(a, s[..k]) && Matches(b, s[k..])
    decreases |a|
  {
    hide Matches, Fits;
    if Matches(a + b, s) {
      var k := FindSplit(a, b, s);
      assert SplitAt(a, b, s, k);
    }
    forall k: nat | SplitAt(a, b, s, k)
      ensures Matches(a + b, s)
    {
      Combine(a, b, s, k);
    }
    assert forall k: nat :: k <= |s| && Matches(a, s[..k]) && Matches(b, s[k..]) ==> SplitAt(a, b, s, k);
  }

  lemma {:induction false} FindSplit(a: seq<char>, b: seq<char>, s: seq<char>) returns (k: nat)
    requires Matches(a + b, s)
    ensures SplitAt(a, b, s, k)
    decreases |a|
  {
    hide Matches, Fits;
    if a == [] {
      assert a + b == b && s[0..] == s;
      k := 0;
      MatchesStep(a, s[..0]);
    } else {
      MatchesStep(a + b, s);
      assert (a + b)[1..] == a[1..] + b;
      var j := 1;
      if a[0] == '*' {
        j :| 0 <= j <= |s| && Matches((a + b)[1..], s[j..]);
      }
      var n := FindSplit(a[1..], b, s[j..]);
      k := j + n;
      assert s[..k][j..] == s[j..][..n] && s[k..] == s[j..][n..];
      MatchesStep(a, s[..k]);
    }
  }

  lemma {:induction false} Combine(a: seq<char>, b: seq<char>, s: seq<char>, k: nat)
    requires SplitAt(a, b, s, k)
    ensures Matches(a + b, s)
    decreases |a|
  {
    hide Matches, Fits;
    MatchesStep(a, s[..k]);
    if a == [] {
      assert a + b == b && s[k..] == s;
    } else {
      assert (a + b)[1..] == a[1..] + b;
      var j := 1;
      if a[0] == '*' {
        j :| 0 <= j <= |s[..k]| && Matches(a[1..], s[..k][j..]);
      }
      assert s[j..][..k - j] == s[..k][j..] && s[j..][k - j..] == s[k..];
      Combine(a[1..], b, s[j..], k - j);
      MatchesStep(a + b, s);
    }
  }

  /** `seg` is star-free and consumes exactly as many characters as it is long. */
  ghost predicate FitsSegment(seg: seq<char>, s: seq<char>) {
    && |seg| == |s|
    && forall i :: 0 <= i < |seg| ==> seg[i] != '*' && Fits(seg[i], s[i])
  }

  /** A star-free prefix can only match the characters in front of the rest. */
  lemma {:induction false} SegmentSplits(seg: seq<char>, rest: seq<char>, s: seq<char>)
    requires '*' !in seg
    ensures Matches(seg + rest, s) <==>
            |seg| <= |s| && FitsSegment(seg, s[..|seg|]) && Matches(rest, s[|seg|..])
    decreases |seg|
  {
    if seg == [] {
      assert seg + rest == rest && s[0..] == s;
    } else {
      assert (seg + rest)[1..] == seg[1..] + rest && seg[0] in seg;
      if s != [] && Fits(seg[0], s[0]) {
        SegmentSplits(seg[1..], rest, s[1..]);
        if |seg| <= |s| {
          assert s[1..][|seg| - 1..] == s[|seg|..];
          assert s[..|seg|] == [s[0]] + s[1..][..|seg| - 1];
          assert seg == [seg[0]] + seg[1..];
        }
      } else if |seg| <= |s| {
        assert s[..|seg|][0] == s[0];
      }
    }
  }

  /** A match after a star exists at or after `from`. */
  ghost predicate MatchesFrom(w: seq<char>, s: seq<char>, from: nat) {
    exists k :: from <= k <= |s| && Matches(w, s[k..])
  }

  lemma StarMatches(w: seq<char>, s: seq<char>, from: nat)
    requires w != [] && w[0] == '*' && from <= |s|
    ensures Matches(w, s[from..]) <==> MatchesFrom(w[1..], s, from)
  {
    if Matches(w, s[from..]) {
      var k :| 0 <= k <= |s[from..]| && Matches(w[1..], s[from..][k..]);
      assert s[from..][k..] == s[from + k..];
    }
    if MatchesFrom(w[1..], s, from) {
      var k :| from <= k <= |s| && Matches(w[1..], s[k..]);
      assert s[from..][k - from..] == s[k..];
    }
  }

  /**
   * Backtracking only to the most recent star loses no match: once the characters between two
   * stars have been placed at their first fitting position, every other placement lies further
   * right, and the second star absorbs the difference.
   */
  lemma LatestStarSuffices(seg: seq<char>, rest: seq<char>, s: seq<char>, from: nat)
    requires '*' !in seg && rest != [] && rest[0] == '*'
    requires from + |seg| <= |s| && FitsSegment(seg, s[from..from + |seg|])
    ensures MatchesFrom(seg + rest, s, from) <==> MatchesFrom(rest[1..], s, from + |seg|)
  {
    hide Matches;
    var next := from + |seg|;
    if MatchesFrom(seg + rest, s, from) {
      var k :| from <= k <= |s| && Matches(seg + rest, s[k..]);
      SegmentSplits(seg, rest, s[k..]);
      assert s[k..][|seg|..] == s[k + |seg|..];
      StarMatches(rest, s, k + |seg|);
    }
    if MatchesFrom(rest[1..], s, next) {
      StarMatches(rest, s, next);
      SegmentSplits(seg, rest, s[from..]);
      assert s[from..][..|seg|] == s[from..next] && s[from..][|seg|..] == s[next..];
    }
  }

  predicate AllStars(w: seq<char>) {
    forall i :: 0 <= i < |w| ==> w[i] == '*'
  }

  lemma {:induction false} OnlyStarsMatchEmpty(w: seq<char>)
    ensures Matches(w, []) <==> AllStars(w)
    decreases |w|
  {
    if w != [] {
      OnlyStarsMatchEmpty(w[1..]);
      if w[0] == '*' {
        var e: seq<char> := [];
        assert e[0..] == e;
        assert Matches(w, []) <==> Matches(w[1..], []);
        assert forall i :: 1 <= i < |w| ==> w[i] == w[1..][i - 1];
      }
    }
  }

  /** What is still to be decided when the characters from the last star on have been placed up to `pos`. */
  ghost predicate Undecided(w: seq<char>, s: seq<char>, mp: int, cp: int, wild: nat, pos: nat)
  {
    && wild <= |w| && pos <= |s|
    && if mp < 0 then
      wild == pos && FitsSegment(w[..wild], s[..pos])
    else
      && 1 <= mp <= wild && 1 <= cp <= |s| + 1
      && pos == cp - 1 + (wild - mp)
      && FitsSegment(w[mp..wild], s[cp - 1..pos])
      && (Matches(w, s) <==> MatchesFrom(w[mp..], s, cp - 1))
  }

  lemma NothingPlaced(w: seq<char>, s: seq<char>)
    ensures Undecided(w, s, -1, -1, 0, 0)
  {
  }

  lemma PlaceOne(w: seq<char>, s: seq<char>, mp: int, cp: int, wild: nat, pos: nat)
    requires Undecided(w, s, mp, cp, wild, pos)
    requires wild < |w| && pos < |s| && w[wild] != '*' && Fits(w[wild], s[pos])
    ensures Undecided(w, s, mp, cp, wild + 1, pos + 1)
  {
    if mp < 0 {
      assert w[..wild + 1] == w[..wild] + [w[wild]] && s[..pos + 1] == s[..pos] + [s[pos]];
    } else {
      assert w[mp..wild + 1] == w[mp..wild] + [w[wild]];
      assert s[cp - 1..pos + 1] == s[cp - 1..pos] + [s[pos]];
    }
  }

  lemma PassStar(w: seq<char>, s: seq<char>, mp: int, cp: int, wild: nat, pos: nat)
    requires Undecided(w, s, mp, cp, wild, pos)
    requires wild < |w| && w[wild] == '*'
    ensures Undecided(w, s, wild + 1, pos + 1, wild + 1, pos)
  {
    hide Matches;
    assert w[wild..][0] == '*' && w[wild..][1..] == w[wild + 1..];
    if mp < 0 {
      assert w == w[..wild] + w[wild..];
      SegmentSplits(w[..wild], w[wild..], s);
      StarMatches(w[wild..], s, pos);
    } else {
      var seg := w[mp..wild];
      assert '*' !in seg;
      assert w[mp..] == seg + w[wild..];
      LatestStarSuffices(seg, w[wild..], s, cp - 1);
    }
  }

  /** Behind a star that ends the pattern everything matches. */
  lemma TrailingStarDecides(w: seq<char>, s: seq<char>, cp: int, wild: nat, pos: nat)
    requires Undecided(w, s, wild, cp, wild, pos) && wild == |w|
    ensures Matches(w, s)
  {
    assert s[|s|..] == [] && w[wild..] == [];
    assert Matches([], s[|s|..]);
  }

  lemma HeadMismatch(w: seq<char>, s: seq<char>)
    requires s != [] && (w == [] || (w[0] != '*' && !Fits(w[0], s[0])))
    ensures !Matches(w, s)
  {
  }

  ghost predicate Mismatched(w: seq<char>, s: seq<char>, wild: nat, pos: nat)
    requires wild <= |w|
  {
    pos < |s| && (wild == |w| || (w[wild] != '*' && !Fits(w[wild], s[pos])))
  }

  /** A mismatch without a star behind it decides the match. */
  lemma MismatchDecides(w: seq<char>, s: seq<char>, wild: nat, pos: nat)
    requires Undecided(w, s, -1, -1, wild, pos) && Mismatched(w, s, wild, pos)
    ensures !Matches(w, s)
  {
    hide Matches;
    HeadMismatch(w[wild..], s[pos..]);
    assert w == w[..wild] + w[wild..];
    SegmentSplits(w[..wild], w[wild..], s);
  }

  /** A mismatch with a star behind it only excludes this placement. */
  lemma MismatchRetries(w: seq<char>, s: seq<char>, mp: nat, cp: nat, wild: nat, pos: nat)
    requires Undecided(w, s, mp, cp, wild, pos) && Mismatched(w, s, wild, pos)
    ensures Undecided(w, s, mp, cp + 1, mp, cp)
  {
    hide Matches, MatchesFrom;
    HeadMismatch(w[wild..], s[pos..]);
    NoMatchHere(w[mp..wild], w[wild..], s, cp - 1);
    assert w[mp..] == w[mp..wild] + w[wild..];
    NextPlacement(w[mp..], s, cp - 1);
  }

  lemma NoMatchHere(seg: seq<char>, rest: seq<char>, s: seq<char>, from: nat)
    requires '*' !in seg && from + |seg| <= |s| && !Matches(rest, s[from + |seg|..])
    ensures !Matches(seg + rest, s[from..])
  {
    hide Matches;
    SegmentSplits(seg, rest, s[from..]);
    assert s[from..][|seg|..] == s[from + |seg|..];
  }

  lemma NextPlacement(w: seq<char>, s: seq<char>, from: nat)
    requires from < |s| && !Matches(w, s[from..])
    ensures MatchesFrom(w, s, from) <==> MatchesFrom(w, s, from + 1)
  {
    hide Matches;
    if MatchesFrom(w, s, from) {
      var k :| from <= k <= |s| && Matches(w, s[k..]);
      assert from + 1 <= k;
    }
  }

  lemma MatchHere(seg: seq<char>, rest: seq<char>, s: seq<char>, from: nat)
    requires from + |seg| == |s| && FitsSegment(seg, s[from..|s|]) && Matches(rest, [])
    ensures MatchesFrom(seg + rest, s, from)
  {
    hide Matches;
    SegmentSplits(seg, rest, s[from..]);
    assert s[from..][..|seg|] == s[from..|s|] && s[from..][|seg|..] == [];
    assert Matches(seg + rest, s[from..]);
  }

  lemma OnlyPlacement(seg: seq<char>, rest: seq<char>, s: seq<char>, from: nat)
    requires '*' !in seg && from + |seg| == |s| && MatchesFrom(seg + rest, s, from)
    ensures Matches(rest, [])
  {
    hide Matches;
    var k :| from <= k <= |s| && Matches(seg + rest, s[k..]);
    SegmentSplits(seg, rest, s[k..]);
    assert s[k..][|seg|..] == [];
  }

  /** At the end of the name nothing but stars may be left of the pattern. */
  lemma NameExhausted(w: seq<char>, s: seq<char>, mp: int, cp: int, wild: nat)
    requires Undecided(w, s, mp, cp, wild, |s|)
    ensures Matches(w, s) <==> AllStars(w[wild..])
  {
    hide Matches, MatchesFrom, AllStars;
    var rest := w[wild..];
    OnlyStarsMatchEmpty(rest);
    if mp < 0 {
      assert w == w[..wild] + rest;
      SegmentSplits(w[..wild], rest, s);
      assert s[..|s|] == s && s[|s|..] == [];
    } else {
      assert w[mp..] == w[mp..wild] + rest;
      if MatchesFrom(w[mp..], s, cp - 1) {
        OnlyPlacement(w[mp..wild], rest, s, cp - 1);
      }
      if Matches(rest, []) {
        MatchHere(w[mp..wild], rest, s, cp - 1);
      }
    }
  }

  /**
   * Iterative matcher with one retry point. Pointers are offsets here;
   * `mp` and `cp` are -1 until a star has been passed.
   */
  method Wildcmp(w: CString, s: CString) returns (r: bool)
    ensures r <==> Matches(w, s)
  {
    hide Matches, MatchesFrom, FitsSegment, Undecided;
    NothingPlaced(w, s);
    var cp, mp := -1, -1;
    var wild, pos := 0, 0;

    while At(s, pos) != '\0' && At(w, wild) != '*'
      invariant 0 <= wild == pos <= |s| && wild <= |w| && Undecided(w, s, -1, -1, wild, pos)
      decreases |s| - pos
    {
      if At(w, wild) != At(s, pos) && At(w, wild) != '?' {
        MismatchDecides(w, s, wild, pos);
        return false;
      }
      PlaceOne(w, s, -1, -1, wild, pos);
      wild, pos := wild + 1, pos + 1;
    }

    while At(s, pos) != '\0'
      invariant 0 <= pos <= |s| && 0 <= wild <= |w|
      invariant mp >= 0 ==> 0 < mp <= wild && cp > 0 && pos == cp - 1 + (wild - mp)
      invariant Undecided(w, s, mp, cp, wild, pos)
      invariant mp < 0 ==> At(s, pos) == '\0' || At(w, wild) == '*'
      decreases |w| - mp, |s| - cp, |s| - pos
    {
      if At(w, wild) == '*' {
        PassStar(w, s, mp, cp, wild, pos);
        wild := wild + 1;
        if At(w, wild) == '\0' {
          TrailingStarDecides(w, s, pos + 1, wild, pos);
          return true;
        }
        mp, cp := wild, pos + 1;
      } else if At(w, wild) == At(s, pos) || At(w, wild) == '?' {
        PlaceOne(w, s, mp, cp, wild, pos);
        wild, pos := wild + 1, pos + 1;
      } else {
        // The error branch for a missing retry point cannot be taken.
        assert mp >= 0;
        MismatchRetries(w, s, mp, cp, wild, pos);
        wild, pos := mp, cp;
        cp := cp + 1;
      }
    }

    NameExhausted(w, s, mp, cp, wild);
    ghost var left := wild;
    while At(w, wild) == '*'
      invariant left <= wild <= |w|
      invariant forall i :: left <= i < wild ==> w[i] == '*'
      decreases |w| - wild
    {
      wild := wild + 1;
    }
    return At(w, wild) == '\0';
  }
}
