/**
 The wildcard matcher of the directory search: one scan that goes back only to
 the most recent star, against the recursive meaning of a pattern.
 */
module Wildcard {

  function Upper(c: char): char {
    if 'a' <= c <= 'z' then c - 'a' + 'A' else c
  }

  /** A pattern character other than a star against a character of the string. */
  predicate One(p: char, c: char) {
    if p == '?' then c != '.' else Upper(c) == Upper(p)
  }

  /** The meaning of a pattern: a star stands for any string. */
  predicate Glob(p: seq<char>, s: seq<char>)
    decreases |p| + |s|
  {
    if p == [] then s == []
    else if p[0] == '*' then Glob(p[1..], s) || (s != [] && Glob(p, s[1..]))
    else s != [] && One(p[0], s[0]) && Glob(p[1..], s[1..])
  }

  /** The meaning the code gives it: where the string ends the pattern may have one star left, but not two. */
  predicate Glob1(p: seq<char>, s: seq<char>)
    decreases |p| + |s|
  {
    if s == [] then p == [] || p == ['*']
    else if p == [] then false
    else if p[0] == '*' then Glob1(p[1..], s) || Glob1(p, s[1..])
    else One(p[0], s[0]) && Glob1(p[1..], s[1..])
  }

  /** The two cases of one letter. */
  predicate Cases(a: char, b: char) {
    ('A' <= a <= 'Z' && b as int == a as int + 32) || ('A' <= b <= 'Z' && a as int == b as int + 32)
  }

  /** Strings that differ in the case of letters only. */
  predicate SameButCase(a: seq<char>, b: seq<char>) {
    |a| == |b| && forall i | 0 <= i < |a| :: a[i] == b[i] || Cases(a[i], b[i])
  }

  /** What the single characters of a pattern stand for. */
  lemma SingleCharacters(p: char, s: seq<char>)
    ensures p != '*' && p != '?' ==> (Glob([p], s) <==> |s| == 1 && (p == s[0] || Cases(p, s[0])))
    ensures Glob(['?'], s) <==> |s| == 1 && s[0] != '.'
    ensures Glob(['*'], s)
    ensures Glob([], s) <==> s == []
  {
    StarIsAll(s);
    assert [p][1..] == [] && ['?'][1..] == [];
    if s != [] {
      UpperIsCase(p, s[0]);
    }
  }

  lemma UpperIsCase(p: char, c: char)
    ensures Upper(c) == Upper(p) <==> p == c || Cases(p, c)
  {
  }

  lemma {:induction false} StarIsAll(s: seq<char>)
    ensures Glob(['*'], s)
    decreases |s|
  {
    assert ['*'][1..] == [];
    if s != [] { StarIsAll(s[1..]); }
  }

  /** The string splits into a part for p and a part for q. */
  ghost predicate Splits(p: seq<char>, q: seq<char>, s: seq<char>) {
    exists k :: 0 <= k <= |s| && Glob(p, s[..k]) && Glob(q, s[k..])
  }

  /** A pattern stands for what its parts stand for, one behind the other. */
  lemma {:induction false} PartsInOrder(p: seq<char>, q: seq<char>, s: seq<char>)
    ensures Glob(p + q, s) <==> Splits(p, q, s)
    decreases |p| + |s|
  {
    if Glob(p + q, s) { GlobSplits(p, q, s); }
    if Splits(p, q, s) {
      var k :| 0 <= k <= |s| && Glob(p, s[..k]) && Glob(q, s[k..]);
      GlobJoins(p, q, s, k);
    }
  }

  lemma {:induction false} GlobSplits(p: seq<char>, q: seq<char>, s: seq<char>)
    requires Glob(p + q, s)
    ensures Splits(p, q, s)
    decreases |p| + |s|
  {
    if p == [] {
      assert p + q == q && s[..0] == [] && s[0..] == s;
    } else {
      assert (p + q)[1..] == p[1..] + q;
      if p[0] == '*' && Glob(p[1..] + q, s) {
        GlobSplits(p[1..], q, s);
        var k :| 0 <= k <= |s| && Glob(p[1..], s[..k]) && Glob(q, s[k..]);
        assert Glob(p, s[..k]);
      } else {
        var r := if p[0] == '*' then p else p[1..];
        GlobSplits(r, q, s[1..]);
        var k :| 0 <= k <= |s[1..]| && Glob(r, s[1..][..k]) && Glob(q, s[1..][k..]);
        assert s[..k + 1][1..] == s[1..][..k] && s[k + 1..] == s[1..][k..];
        assert Glob(p, s[..k + 1]);
      }
    }
  }

  lemma {:induction false} GlobJoins(p: seq<char>, q: seq<char>, s: seq<char>, k: nat)
    requires k <= |s| && Glob(p, s[..k]) && Glob(q, s[k..])
    ensures Glob(p + q, s)
    decreases |p| + |s|
  {
    if p == [] {
      assert p + q == q && s[k..] == s;
    } else {
      assert (p + q)[1..] == p[1..] + q;
      if p[0] == '*' && Glob(p[1..], s[..k]) {
        GlobJoins(p[1..], q, s, k);
      } else {
        assert s[..k][1..] == s[1..][..k - 1] && s[k..] == s[1..][k - 1..];
        GlobJoins(if p[0] == '*' then p else p[1..], q, s[1..], k - 1);
      }
    }
  }

  /** Neither the meaning of a pattern nor what the code makes of it depends on the case of letters. */
  lemma {:induction false} CaseDoesNotMatter(p: seq<char>, p': seq<char>, s: seq<char>, s': seq<char>)
    requires SameButCase(p, p') && SameButCase(s, s')
    ensures Glob(p, s) <==> Glob(p', s')
    ensures Glob1(p, s) <==> Glob1(p', s')
    decreases |p| + |s|
  {
    if p != [] {
      assert p[0] == p'[0] || Cases(p[0], p'[0]);
      CaseDoesNotMatter(p[1..], p'[1..], s, s');
      if s != [] {
        assert s[0] == s'[0] || Cases(s[0], s'[0]);
        UpperIsCase(p[0], p'[0]);
        UpperIsCase(s[0], s'[0]);
        CaseDoesNotMatter(p, p', s[1..], s'[1..]);
        CaseDoesNotMatter(p[1..], p'[1..], s[1..], s'[1..]);
      } else if |p| == 1 {
        assert p == [p[0]] && p' == [p'[0]];
      }
    }
  }

  predicate EndsInTwoStars(p: seq<char>) {
    |p| >= 2 && p[|p| - 1] == '*' && p[|p| - 2] == '*'
  }

  predicate StarFree(p: seq<char>) {
    '*' !in p
  }

  // ---------------------------------------------------------------- why going back to the last star suffices

  /** A star-free piece takes as many characters as it has. */
  lemma {:induction false} Consume(p: seq<char>, m: nat, s: seq<char>)
    requires m <= |p| && StarFree(p[..m]) && Glob1(p, s)
    ensures m <= |s| && Glob1(p[m..], s[m..])
    decreases m
  {
    if m > 0 {
      assert p[..m][0] == p[0];
      assert StarFree(p[1..][..m - 1]) by { assert p[..m][1..] == p[1..][..m - 1]; }
      Consume(p[1..], m - 1, s[1..]);
      assert p[1..][m - 1..] == p[m..] && s[1..][m - 1..] == s[m..];
    } else {
      assert p[0..] == p && s[0..] == s;
    }
  }

  /** A star does not help a piece that is longer than the string. */
  lemma {:induction false} TooShort(r: seq<char>, m: nat, s: seq<char>)
    requires 0 < m <= |r| && StarFree(r[..m]) && |s| < m
    ensures !Glob1(['*'] + r, s)
    decreases |s|
  {
    var p := ['*'] + r;
    assert p[1..] == r;
    if s != [] {
      if Glob1(r, s) { Consume(r, m, s); }
      TooShort(r, m, s[1..]);
    }
  }

  lemma {:induction false} StarTakesAll(s: seq<char>)
    ensures Glob1(['*'], s)
    decreases |s|
  {
    if s != [] { StarTakesAll(s[1..]); }
  }

  /**
   After a star, a star-free piece and the next star: any match can be had with the
   piece at its first place. So earlier stars need no second try.
   */
  lemma {:induction false} FirstPlaceSuffices(r: seq<char>, m: nat, s: seq<char>)
    requires m < |r| && StarFree(r[..m]) && r[m] == '*' && m < |s|
    requires Glob1(['*'] + r, s)
    ensures Glob1(r[m..], s[m..])
    decreases |s|
  {
    var p := ['*'] + r;
    assert p[1..] == r;
    var rest := r[m..];
    if Glob1(r, s) {
      Consume(r, m, s);
    } else if m < |s| - 1 {
      FirstPlaceSuffices(r, m, s[1..]);
      assert s[1..][m..] == s[m..][1..];
    } else {
      LastPlace(r, m, s[1..]);
      StarTakesAll(s[m..]);
    }
  }

  lemma LastPlace(r: seq<char>, m: nat, s: seq<char>)
    requires m < |r| && StarFree(r[..m]) && r[m] == '*' && m == |s| && Glob1(['*'] + r, s)
    ensures r[m..] == ['*']
  {
    var p := ['*'] + r;
    assert p[1..] == r;
    if m > 0 {
      TooShort(r, m, s[1..]);
      Consume(r, m, s);
    }
  }

  // ---------------------------------------------------------------- the matcher

  /** Where the code stands: the try from pat[bp..] at str[bs..], behind a star or not. */
  predicate Place(pat: string, str: string, star: bool, bp: nat, bs: nat) {
    && bs <= |str| && bp <= |pat|
    && if star then 0 < bp < |pat| && pat[bp - 1] == '*' && (pat[bp] != '*' || bs < |str|) else bs == 0 && bp == 0
  }

  /** What remains to be found out there. */
  predicate Remaining(pat: string, str: string, star: bool, bp: nat, bs: nat)
    requires Place(pat, str, star, bp, bs)
  {
    if star then Glob1(['*'] + pat[bp..], str[bs..]) else Glob1(pat, str)
  }

  /** The try has matched pat[bp..j] with str[bs..i]. */
  predicate Tried(pat: string, str: string, bp: nat, bs: nat, j: nat, i: nat) {
    && bs <= i <= |str| && bp <= j <= |pat| && i - bs == j - bp && StarFree(pat[bp..j])
    && Glob1(pat[bp..], str[bs..]) == Glob1(pat[j..], str[i..])
  }

  /** One character on. */
  lemma Matched(pat: string, str: string, bp: nat, bs: nat, j: nat, i: nat)
    requires Tried(pat, str, bp, bs, j, i) && i < |str| && j < |pat| && pat[j] != '*'
    ensures Glob1(pat[j..], str[i..]) <==> One(pat[j], str[i]) && Glob1(pat[j + 1..], str[i + 1..])
    ensures One(pat[j], str[i]) ==> Tried(pat, str, bp, bs, j + 1, i + 1)
  {
    assert pat[j..][1..] == pat[j + 1..] && str[i..][1..] == str[i + 1..];
    assert pat[bp..j + 1] == pat[bp..j] + [pat[j]];
  }

  /** At a star the try so far is settled. */
  lemma AtStar(pat: string, str: string, star: bool, bp: nat, bs: nat, j: nat, i: nat)
    requires Place(pat, str, star, bp, bs) && Tried(pat, str, bp, bs, j, i)
    requires i < |str| && j < |pat| && pat[j] == '*'
    ensures Remaining(pat, str, star, bp, bs) == Glob1(['*'] + pat[j + 1..], str[i..])
  {
    assert pat[bp..][j - bp..] == pat[j..] && str[bs..][i - bs..] == str[i..] && pat[bp..][..j - bp] == pat[bp..j];
    assert pat[j..] == ['*'] + pat[j + 1..];
    if star {
      assert (['*'] + pat[bp..])[1..] == pat[bp..];
      if Remaining(pat, str, star, bp, bs) {
        FirstPlaceSuffices(pat[bp..], j - bp, str[bs..]);
      }
    } else {
      assert pat[0..] == pat && str[0..] == str;
    }
  }

  /** A failed try behind a star is repeated one character later. */
  lemma Retry(pat: string, str: string, star: bool, bp: nat, bs: nat, j: nat, i: nat)
    requires Place(pat, str, star, bp, bs) && Tried(pat, str, bp, bs, j, i)
    requires i < |str| && (j < |pat| ==> pat[j] != '*') && !Glob1(pat[j..], str[i..])
    ensures if star then Place(pat, str, true, bp, bs + 1)
              && Remaining(pat, str, true, bp, bs + 1) == Remaining(pat, str, true, bp, bs)
            else !Remaining(pat, str, star, bp, bs)
  {
    if star {
      assert (['*'] + pat[bp..])[1..] == pat[bp..];
      assert str[bs..][1..] == str[bs + 1..];
      assert j > bp ==> pat[bp] == pat[bp..j][0];
    } else {
      assert pat[0..] == pat && str[0..] == str;
    }
  }

  /** At the end of the string nothing but a star may be left of the pattern. */
  lemma AtEnd(pat: string, str: string, star: bool, bp: nat, bs: nat, j: nat)
    requires Place(pat, str, star, bp, bs) && Tried(pat, str, bp, bs, j, |str|)
    ensures Remaining(pat, str, star, bp, bs) <==> pat[j..] == [] || pat[j..] == ['*']
  {
    assert str[|str|..] == [];
    if star {
      assert (['*'] + pat[bp..])[1..] == pat[bp..];
      assert pat[bp..][..j - bp] == pat[bp..j];
      if bs < |str| {
        TooShort(pat[bp..], j - bp, str[bs..][1..]);
      }
    } else {
      assert pat[0..] == pat && str[0..] == str;
    }
  }

  datatype Outcome = Star | Mismatch | End

  /** The for loop: how far the pattern matches, and why it stops. */
  method Try(pat: string, str: string, bp: nat, bs: nat) returns (o: Outcome, j: nat, i: nat)
    requires bp <= |pat| && bs <= |str|
    ensures Tried(pat, str, bp, bs, j, i)
    ensures match o
            case Star => i < |str| && j < |pat| && pat[j] == '*'
            case Mismatch => i < |str| && (j < |pat| ==> pat[j] != '*') && !Glob1(pat[j..], str[i..])
            case End => i == |str|
  {
    i, j := bs, bp;
    while i < |str|
      invariant Tried(pat, str, bp, bs, j, i)
    {
      if j == |pat| {
        return Mismatch, j, i;
      }
      if pat[j] == '*' {
        return Star, j, i;
      }
      Matched(pat, str, bp, bs, j, i);
      if !One(pat[j], str[i]) {
        return Mismatch, j, i;
      }
      i := i + 1;
      j := j + 1;
    }
    o := End;
  }

  /** szWildMatch8. */
  method WildMatch(pat: string, str: string) returns (r: bool)
    ensures r == Glob1(pat, str)
    ensures !EndsInTwoStars(pat) ==> r == Glob(pat, str)
  {
    hide Tried, Remaining, Glob, EndsInTwoStars;
    RightWithoutTwoStars(pat, str);
    WholeRemains(pat, str);
    var bs: nat, bp: nat := 0, 0;
    var star := false;
    while true
      invariant Place(pat, str, star, bp, bs) && Remaining(pat, str, star, bp, bs) == Glob1(pat, str)
      decreases |pat| - bp, |str| - bs
    {
      var o, j, i := Try(pat, str, bp, bs);
      Bounds(pat, str, bp, bs, j, i);
      match o {
        case Star =>
          AtStar(pat, str, star, bp, bs, j, i);
          star := true;
          bs, bp := i, j + 1;
          if bp == |pat| {
            StarTakesAll(str[bs..]);
            assert ['*'] + pat[bp..] == ['*'];
            return true;
          }
          StarRemains(pat, str, bp, bs);
        case Mismatch =>
          Retry(pat, str, star, bp, bs, j, i);
          if !star {
            return false;
          }
          bs := bs + 1;
        case End =>
          AtEnd(pat, str, star, bp, bs, j);
          if j < |pat| && pat[j] == '*' {
            j := j + 1;
          }
          return j == |pat|;
      }
    }
  }

  lemma WholeRemains(pat: string, str: string)
    ensures Remaining(pat, str, false, 0, 0) == Glob1(pat, str)
  {
  }

  lemma StarRemains(pat: string, str: string, bp: nat, bs: nat)
    requires Place(pat, str, true, bp, bs)
    ensures Remaining(pat, str, true, bp, bs) == Glob1(['*'] + pat[bp..], str[bs..])
  {
  }

  lemma Bounds(pat: string, str: string, bp: nat, bs: nat, j: nat, i: nat)
    requires Tried(pat, str, bp, bs, j, i)
    ensures bs <= i <= |str| && bp <= j <= |pat|
  {
  }

  // ---------------------------------------------------------------- what the code means

  lemma {:induction false} Glob1IsGlob(p: seq<char>, s: seq<char>)
    requires Glob1(p, s)
    ensures Glob(p, s)
    decreases |p| + |s|
  {
    if s == [] {
      assert p != [] ==> p[1..] == [];
    } else if p[0] == '*' {
      if Glob1(p[1..], s) { Glob1IsGlob(p[1..], s); } else { Glob1IsGlob(p, s[1..]); }
    } else {
      Glob1IsGlob(p[1..], s[1..]);
    }
  }

  /** A pattern that matches the empty string is made of stars. */
  lemma {:induction false} EmptyMatch(p: seq<char>)
    requires Glob(p, []) && p != [] && p != ['*']
    ensures EndsInTwoStars(p)
  {
    if p[1..] != ['*'] {
      EmptyMatch(p[1..]);
    }
  }

  /** The code agrees with the meaning for every pattern that does not end in two stars. */
  lemma {:induction false} GlobIsGlob1(p: seq<char>, s: seq<char>)
    requires Glob(p, s) && !EndsInTwoStars(p)
    ensures Glob1(p, s)
    decreases |p| + |s|
  {
    if s == [] {
      if p != [] && p != ['*'] { EmptyMatch(p); }
    } else if p[0] == '*' {
      if Glob(p[1..], s) { GlobIsGlob1(p[1..], s); } else { GlobIsGlob1(p, s[1..]); }
    } else {
      GlobIsGlob1(p[1..], s[1..]);
    }
  }

  predicate AllStars(z: seq<char>) {
    forall i | 0 <= i < |z| :: z[i] == '*'
  }

  /** A string with a proper head that matches q. */
  ghost predicate ProperHead(q: seq<char>, s: seq<char>) {
    exists k :: 0 <= k < |s| && Glob(q, s[..k])
  }

  lemma {:induction false} StarsTakeAll(z: seq<char>, s: seq<char>)
    requires AllStars(z) && z != [] && s != []
    ensures Glob1(z, s)
    decreases |z|
  {
    if |z| == 1 {
      assert z == ['*'];
      StarTakesAll(s);
    } else {
      StarsTakeAll(z[1..], s);
    }
  }

  /** Trailing stars, two or more of them, match in the code only if a character is left for them. */
  lemma {:induction false} TwoStarsNeedOne(q: seq<char>, z: seq<char>, s: seq<char>)
    requires AllStars(z) && |z| >= 2 && Glob1(q + z, s)
    ensures ProperHead(q, s)
    decreases |q| + |s|
  {
    if q == [] {
      assert q + z == z;
      assert Glob(q, s[..0]);
    } else {
      assert (q + z)[1..] == q[1..] + z;
      if q[0] == '*' && !Glob1(q[1..] + z, s) {
        TwoStarsNeedOne(q, z, s[1..]);
        var k :| 0 <= k < |s[1..]| && Glob(q, s[1..][..k]);
        assert s[..k + 1][1..] == s[1..][..k];
      } else if q[0] == '*' {
        TwoStarsNeedOne(q[1..], z, s);
        var k :| 0 <= k < |s| && Glob(q[1..], s[..k]);
        assert Glob(q, s[..k]);
      } else {
        TwoStarsNeedOne(q[1..], z, s[1..]);
        var k :| 0 <= k < |s[1..]| && Glob(q[1..], s[1..][..k]);
        assert s[..k + 1][1..] == s[1..][..k];
        assert Glob(q, s[..k + 1]);
      }
    }
  }

  lemma {:induction false} OneIsEnough(q: seq<char>, z: seq<char>, s: seq<char>, k: nat)
    requires AllStars(z) && |z| >= 2 && k < |s| && Glob(q, s[..k])
    ensures Glob1(q + z, s)
    decreases |q| + |s|
  {
    if q == [] {
      assert q + z == z;
      StarsTakeAll(z, s);
    } else {
      assert (q + z)[1..] == q[1..] + z;
      if q[0] == '*' && Glob(q[1..], s[..k]) {
        OneIsEnough(q[1..], z, s, k);
      } else {
        assert s[..k][1..] == s[1..][..k - 1];
        OneIsEnough(if q[0] == '*' then q else q[1..], z, s[1..], k - 1);
      }
    }
  }

  /**
   The matcher and the meaning of a pattern. They agree on every pattern that does
   not end in two stars; on one that does, the matcher wants a character for them.
   */
  lemma MatcherMeaning(q: seq<char>, z: seq<char>, s: seq<char>)
    requires AllStars(z) && (q == [] || q[|q| - 1] != '*')
    ensures Glob1(q + z, s) <==> if |z| >= 2 then ProperHead(q, s) else Glob(q + z, s)
  {
    var p := q + z;
    if |z| >= 2 {
      if Glob1(p, s) { TwoStarsNeedOne(q, z, s); }
      if ProperHead(q, s) {
        var k :| 0 <= k < |s| && Glob(q, s[..k]);
        OneIsEnough(q, z, s, k);
      }
    } else {
      assert !EndsInTwoStars(p);
      if Glob1(p, s) { Glob1IsGlob(p, s); }
      if Glob(p, s) { GlobIsGlob1(p, s); }
    }
  }

  /** The shortest pattern and string on which they differ. */
  lemma TwoStarsDiffer()
    ensures Glob("**", "") && !Glob1("**", "")
  {
    assert Glob("**"[1..], "") by { assert Glob("*"[1..], ""); }
  }

  /** The shortest kind of string a pattern stands for: a character for each of its own, none for a star. */
  function Least(p: seq<char>): seq<char> {
    if p == [] then []
    else if p[0] == '*' then Least(p[1..])
    else [if p[0] == '?' then 'a' else p[0]] + Least(p[1..])
  }

  lemma {:induction false} LeastMatches(p: seq<char>)
    ensures Glob(p, Least(p))
  {
    if p != [] {
      LeastMatches(p[1..]);
    }
  }

  /** With two stars at its end a pattern matches, in the code, only strings longer than that. */
  lemma {:induction false} MoreThanLeast(p: seq<char>, s: seq<char>)
    requires EndsInTwoStars(p) && Glob1(p, s)
    ensures |s| > |Least(p)|
    decreases |p| + |s|
  {
    if p[0] == '*' {
      if Glob1(p, s[1..]) {
        MoreThanLeast(p, s[1..]);
      } else if |p| > 2 {
        MoreThanLeast(p[1..], s);
      } else {
        assert p[1..] == ['*'] && ['*'][1..] == [] && Least(['*']) == Least([]);
      }
    } else {
      MoreThanLeast(p[1..], s[1..]);
    }
  }

  lemma RightWithoutTwoStars(p: seq<char>, s: seq<char>)
    ensures !EndsInTwoStars(p) ==> (Glob1(p, s) <==> Glob(p, s))
  {
    if !EndsInTwoStars(p) {
      if Glob1(p, s) { Glob1IsGlob(p, s); }
      if Glob(p, s) { GlobIsGlob1(p, s); }
    }
  }

  /** On this string the matcher does what the pattern means. */
  predicate Agree(p: seq<char>, s: seq<char>) {
    Glob1(p, s) <==> Glob(p, s)
  }

  /** The matcher means what the pattern means, on every string, exactly if the pattern does not end in two stars. */
  lemma MatcherIsRight(p: seq<char>)
    ensures (forall s: seq<char> :: Agree(p, s)) <==> !EndsInTwoStars(p)
  {
    if EndsInTwoStars(p) {
      LeastMatches(p);
      if Glob1(p, Least(p)) {
        MoreThanLeast(p, Least(p));
        assert false;
      }
      assert !Agree(p, Least(p));
    } else {
      forall s: seq<char> ensures Agree(p, s) { RightWithoutTwoStars(p, s); }
    }
  }
}
