/**
 * doctest's `wildcmp`: a glob match that remembers only the last star and where
 * its attempt began, against the recursive meaning of `*` and `?`.
 */
module Globs {
  import opened Bytes

  const STAR: byte := 42
  const ANY: byte := 63

  /** `tolower` of the C locale. */
  function Lower(b: byte): byte {
    if 65 <= b <= 90 then b + 32 else b
  }

  predicate Same(a: byte, b: byte, sensitive: bool) {
    if sensitive then a == b else Lower(a) == Lower(b)
  }

  /** A byte of the pattern other than a star, against a byte of the string. */
  predicate Fits(w: byte, c: byte, sensitive: bool) {
    Same(w, c, sensitive) || w == ANY
  }

  /** What a pattern means: `*` is any bytes at all, `?` any one byte. */
  predicate Matches(w: Text, s: Text, sensitive: bool)
    decreases |w| + |s|
  {
    if w == [] then s == []
    else if w[0] == STAR then
      Matches(w[1..], s, sensitive) || (s != [] && Matches(w, s[1..], sensitive))
    else
      s != [] && Fits(w[0], s[0], sensitive) && Matches(w[1..], s[1..], sensitive)
  }

  // ---- what the pieces of a pattern mean, by their codes ----

  /** A star matches anything, a question mark any one byte. */
  lemma {:induction false} WildcardsMatch(s: Text, sensitive: bool)
    ensures Matches([42], s, sensitive)
    ensures Matches([63], s, sensitive) <==> |s| == 1
  {
    assert [42 as byte][1..] == [] && [63 as byte][1..] == [];
    if s != [] {
      WildcardsMatch(s[1..], sensitive);
    }
  }

  /** A pattern without wildcards matches itself alone, if case matters. */
  lemma {:induction false} PlainMatchesItself(w: Text, s: Text)
    requires 42 !in w && 63 !in w
    ensures Matches(w, s, true) <==> w == s
  {
    if w != [] {
      assert w[0] in w && forall b :: b in w[1..] ==> b in w;
      if s != [] {
        PlainMatchesItself(w[1..], s[1..]);
        assert w == [w[0]] + w[1..] && s == [s[0]] + s[1..];
      }
    }
  }

  /** If it does not, the two forms of a letter are the same, and nothing else is. */
  lemma CaseFolds(a: byte, b: byte)
    ensures Same(a, b, false)
            <==> a == b || (65 <= a <= 90 && b == a + 32) || (65 <= b <= 90 && a == b + 32)
  {
  }

  /** `*` in front of `w`. */
  ghost predicate Somewhere(w: Text, s: Text, sensitive: bool) {
    Matches([STAR] + w, s, sensitive)
  }

  lemma SomewhereUnfolds(w: Text, s: Text, sensitive: bool)
    ensures Somewhere(w, s, sensitive)
            <==> Matches(w, s, sensitive) || (s != [] && Somewhere(w, s[1..], sensitive))
  {
    assert ([STAR] + w)[1..] == w;
  }

  /** Somewhere is a suffix of the string that the rest matches. */
  lemma {:induction false} SomewhereIsASuffix(w: Text, s: Text, sensitive: bool) returns (k: nat)
    requires Somewhere(w, s, sensitive)
    ensures k <= |s| && Matches(w, s[k..], sensitive)
  {
    SomewhereUnfolds(w, s, sensitive);
    if Matches(w, s, sensitive) {
      assert s[0..] == s;
      k := 0;
    } else {
      k := SomewhereIsASuffix(w, s[1..], sensitive);
      assert s[1..][k..] == s[k + 1..];
      k := k + 1;
    }
  }

  lemma {:induction false} SuffixIsSomewhere(w: Text, s: Text, k: nat, sensitive: bool)
    requires k <= |s| && Matches(w, s[k..], sensitive)
    ensures Somewhere(w, s, sensitive)
  {
    SomewhereUnfolds(w, s, sensitive);
    if k == 0 {
      assert s[0..] == s;
    } else {
      assert s[1..][k - 1..] == s[k..];
      SuffixIsSomewhere(w, s[1..], k - 1, sensitive);
    }
  }

  /** A stretch of pattern without stars that fits a stretch of the string. */
  ghost predicate Along(w: Text, j0: nat, j: nat, s: Text, i0: nat, i: nat, sensitive: bool) {
    && j0 <= j <= |w| && i0 <= i <= |s| && j - j0 == i - i0
    && forall m :: j0 <= m < j ==> w[m] != STAR && Fits(w[m], s[i0 + (m - j0)], sensitive)
  }

  lemma AlongGrows(w: Text, j0: nat, j: nat, s: Text, i0: nat, i: nat, sensitive: bool)
    requires Along(w, j0, j, s, i0, i, sensitive) && j < |w| && i < |s|
    requires w[j] != STAR && Fits(w[j], s[i], sensitive)
    ensures Along(w, j0, j + 1, s, i0, i + 1, sensitive)
  {
  }

  /** Such a stretch can be taken off both sides. */
  lemma {:induction false} AlongPeels(w: Text, j0: nat, j: nat, s: Text, i0: nat, i: nat, sensitive: bool)
    requires Along(w, j0, j, s, i0, i, sensitive)
    ensures Matches(w[j0..], s[i0..], sensitive) <==> Matches(w[j..], s[i..], sensitive)
    decreases j - j0
  {
    if j0 < j {
      var u, v := w[j0..], s[i0..];
      assert u[0] == w[j0] && v[0] == s[i0];
      assert u[1..] == w[j0 + 1..] && v[1..] == s[i0 + 1..];
      AlongPeels(w, j0 + 1, j, s, i0 + 1, i, sensitive);
    }
  }

  /** If it fits from a later start, the pattern after it matches what lies that much later. */
  lemma {:induction false} LaterStart(w: Text, j0: nat, j: nat, s: Text, k: nat, sensitive: bool)
    requires j0 <= j <= |w| && k <= |s| && Matches(w[j0..], s[k..], sensitive)
    requires forall m :: j0 <= m < j ==> w[m] != STAR
    ensures k + (j - j0) <= |s| && Matches(w[j..], s[k + (j - j0)..], sensitive)
    decreases j - j0
  {
    if j0 < j {
      var u, v := w[j0..], s[k..];
      assert u[0] == w[j0] && u[1..] == w[j0 + 1..] && v[1..] == s[k + 1..];
      LaterStart(w, j0 + 1, j, s, k + 1, sensitive);
    }
  }

  /**
   * Greed is enough: at the next star the last one can be forgotten, whichever
   * suffix it would have matched.
   */
  lemma NextStar(w: Text, mp: nat, j: nat, s: Text, b: nat, i: nat, sensitive: bool)
    requires Along(w, mp, j, s, b, i, sensitive) && j < |w| && w[j] == STAR
    ensures Somewhere(w[mp..], s[b..], sensitive) <==> Somewhere(w[j + 1..], s[i..], sensitive)
  {
    assert [STAR] + w[j + 1..] == w[j..];
    if Somewhere(w[mp..], s[b..], sensitive) {
      var k := SomewhereIsASuffix(w[mp..], s[b..], sensitive);
      assert s[b..][k..] == s[b + k..];
      LaterStart(w, mp, j, s, b + k, sensitive);
      var r := SomewhereIsASuffix(w[j + 1..], s[b + k + (j - mp)..], sensitive);
      assert s[b + k + (j - mp)..][r..] == s[i..][k + r..];
      SuffixIsSomewhere(w[j + 1..], s[i..], k + r, sensitive);
    }
    if Somewhere(w[j + 1..], s[i..], sensitive) {
      AlongPeels(w, mp, j, s, b, i, sensitive);
      assert s[b..][0..] == s[b..];
      SuffixIsSomewhere(w[mp..], s[b..], 0, sensitive);
    }
  }

  /** A mismatch rules out the start of this attempt, and only that. */
  lemma Mismatch(w: Text, mp: nat, j: nat, s: Text, b: nat, i: nat, sensitive: bool)
    requires Along(w, mp, j, s, b, i, sensitive) && i < |s|
    requires j == |w| || (w[j] != STAR && !Fits(w[j], s[i], sensitive))
    ensures Somewhere(w[mp..], s[b..], sensitive) <==> Somewhere(w[mp..], s[b + 1..], sensitive)
  {
    AlongPeels(w, mp, j, s, b, i, sensitive);
    SomewhereUnfolds(w[mp..], s[b..], sensitive);
    assert s[b..][1..] == s[b + 1..];
    if j < |w| {
      assert w[j..][0] == w[j] && s[i..][0] == s[i];
    }
  }

  /** Only stars match the empty string. */
  lemma {:induction false} OnlyStars(w: Text, j: nat, sensitive: bool)
    requires j <= |w|
    ensures Matches(w[j..], [], sensitive) <==> forall k :: j <= k < |w| ==> w[k] == STAR
    decreases |w| - j
  {
    if j < |w| {
      assert w[j..][0] == w[j] && w[j..][1..] == w[j + 1..];
      OnlyStars(w, j + 1, sensitive);
    }
  }

  /** With the string used up, no later start has enough of it left. */
  lemma StringEnds(w: Text, mp: nat, j: nat, s: Text, b: nat, sensitive: bool)
    requires Along(w, mp, j, s, b, |s|, sensitive)
    ensures Somewhere(w[mp..], s[b..], sensitive) <==> Matches(w[j..], [], sensitive)
  {
    AlongPeels(w, mp, j, s, b, |s|, sensitive);
    assert s[|s|..] == [];
    if Somewhere(w[mp..], s[b..], sensitive) {
      var k := SomewhereIsASuffix(w[mp..], s[b..], sensitive);
      assert s[b..][k..] == s[b + k..];
      LaterStart(w, mp, j, s, b + k, sensitive);
      assert k == 0;
    }
    if Matches(w[j..], [], sensitive) {
      assert s[b..][0..] == s[b..];
      SuffixIsSomewhere(w[mp..], s[b..], 0, sensitive);
    }
  }

  /** The matcher, its pointers as offsets into the string and the pattern. */
  method WildCmp(str: Text, wild: Text, sensitive: bool) returns (r: bool)
    ensures r <==> Matches(wild, str, sensitive)
  {
    var i: nat, j: nat := 0, 0;
    while i < |str| && (j == |wild| || wild[j] != STAR)
      invariant Along(wild, 0, j, str, 0, i, sensitive)
    {
      if j == |wild| || !Fits(wild[j], str[i], sensitive) {
        FirstPartFails(str, wild, i, j, sensitive);
        return false;
      }
      j := j + 1;
      i := i + 1;
    }
    AlongPeels(wild, 0, j, str, 0, i, sensitive);
    assert wild[0..] == wild && str[0..] == str;
    r := AfterStar(str, wild, i, j, sensitive);
  }

  lemma FirstPartFails(str: Text, wild: Text, i: nat, j: nat, sensitive: bool)
    requires Along(wild, 0, j, str, 0, i, sensitive) && i < |str|
    requires j == |wild| || (wild[j] != STAR && !Fits(wild[j], str[i], sensitive))
    ensures !Matches(wild, str, sensitive)
  {
    AlongPeels(wild, 0, j, str, 0, i, sensitive);
    assert wild[0..] == wild && str[0..] == str;
    if j < |wild| {
      assert wild[j..][0] == wild[j] && str[i..][0] == str[i];
    }
  }

  /** What the second loop is asked: the string from `i0` against the pattern from `j0`. */
  datatype Query = Query(str: Text, i0: nat, wild: Text, j0: nat, sensitive: bool) {
    predicate Valid() {
      i0 <= |str| && j0 <= |wild|
    }

    predicate Holds()
      requires Valid()
    {
      Matches(wild[j0..], str[i0..], sensitive)
    }

    /** The pattern from `j` against the string from `i`, after a star. */
    ghost predicate FromStar(i: nat, j: nat)
      requires i <= |str| && j <= |wild|
    {
      Somewhere(wild[j..], str[i..], sensitive)
    }
  }

  /**
   * Its variables: the offsets `i` and `j`, and, once a star has been met, the
   * pattern `mp` after the last one and the start `cp` of the attempt after this.
   */
  datatype Matcher = Matcher(i: nat, j: nat, mp: nat, cp: nat, starred: bool)

  /** This attempt began at `cp - 1` and fits so far; earlier starts are ruled out. */
  ghost predicate Attempt(q: Query, m: Matcher)
    requires q.Valid()
  {
    && 0 < m.cp && Along(q.wild, m.mp, m.j, q.str, m.cp - 1, m.i, q.sensitive)
    && (q.Holds() <==> q.FromStar(m.cp - 1, m.mp))
  }

  ghost predicate Tried(q: Query, m: Matcher)
    requires q.Valid()
  {
    && m.i <= |q.str| && m.j <= |q.wild| && m.mp <= |q.wild|
    && if m.starred then Attempt(q, m) else m.i == q.i0 && m.j == q.j0
  }

  /** The second loop, entered at a star or at the end of the string. */
  method AfterStar(str: Text, wild: Text, i0: nat, j0: nat, sensitive: bool) returns (r: bool)
    requires i0 <= |str| && j0 <= |wild|
    requires i0 < |str| ==> j0 < |wild| && wild[j0] == STAR
    ensures r <==> Matches(wild[j0..], str[i0..], sensitive)
  {
    ghost var q := Query(str, i0, wild, j0, sensitive);
    var i: nat, j: nat, mp: nat, cp: nat := i0, j0, 0, 0;
    ghost var m := Matcher(i, j, mp, cp, false);
    while i < |str|
      invariant Tried(q, m) && m == Matcher(i, j, mp, cp, m.starred)
      decreases !m.starred, |wild| - mp, |str| - cp, |str| - i
    {
      if j < |wild| && wild[j] == STAR {
        ghost var last := m;
        m := StarMet(q, m);
        j := j + 1;
        if j == |wild| {
          StarLast(q, last);
          return true;
        }
        mp := j;
        cp := i + 1;
      } else if j < |wild| && Fits(wild[j], str[i], sensitive) {
        m := FitMet(q, m);
        j := j + 1;
        i := i + 1;
      } else {
        m := MismatchMet(q, m);
        j := mp;
        i := cp;
        cp := cp + 1;
      }
    }
    StringMet(q, m);
    r := OnlyStarsLeft(wild, j, sensitive);
  }

  /** At a star a new attempt begins, with no bytes tried yet. */
  lemma StarMet(q: Query, m: Matcher) returns (n: Matcher)
    requires q.Valid() && Tried(q, m) && m.j < |q.wild| && q.wild[m.j] == STAR
    ensures n == Matcher(m.i, m.j + 1, m.j + 1, m.i + 1, true) && Tried(q, n)
  {
    n := Matcher(m.i, m.j + 1, m.j + 1, m.i + 1, true);
    assert [STAR] + q.wild[m.j + 1..] == q.wild[m.j..];
    if m.starred {
      NextStar(q.wild, m.mp, m.j, q.str, m.cp - 1, m.i, q.sensitive);
    }
  }

  lemma StarLast(q: Query, m: Matcher)
    requires q.Valid() && Tried(q, m) && m.j + 1 == |q.wild| && q.wild[m.j] == STAR
    ensures q.Holds()
  {
    var _ := StarMet(q, m);
    AllMatch(q.str[m.i..], q.sensitive);
    assert q.wild[m.j + 1..] == [];
  }

  lemma AttemptGrows(q: Query, m: Matcher, n: Matcher)
    requires q.Valid() && Attempt(q, m) && m.i < |q.str| && m.j < |q.wild|
    requires q.wild[m.j] != STAR && Fits(q.wild[m.j], q.str[m.i], q.sensitive)
    requires n == Matcher(m.i + 1, m.j + 1, m.mp, m.cp, true)
    ensures Attempt(q, n)
  {
    AlongGrows(q.wild, m.mp, m.j, q.str, m.cp - 1, m.i, q.sensitive);
  }

  lemma FitMet(q: Query, m: Matcher) returns (n: Matcher)
    requires q.Valid() && Tried(q, m) && m.starred && m.i < |q.str| && m.j < |q.wild|
    requires q.wild[m.j] != STAR && Fits(q.wild[m.j], q.str[m.i], q.sensitive)
    ensures n == Matcher(m.i + 1, m.j + 1, m.mp, m.cp, true) && Tried(q, n)
  {
    n := Matcher(m.i + 1, m.j + 1, m.mp, m.cp, true);
    AttemptGrows(q, m, n);
  }

  lemma MismatchMet(q: Query, m: Matcher) returns (n: Matcher)
    requires q.Valid() && Tried(q, m) && m.starred && m.i < |q.str|
    requires m.j == |q.wild| || (q.wild[m.j] != STAR && !Fits(q.wild[m.j], q.str[m.i], q.sensitive))
    ensures m.cp <= |q.str| && n == Matcher(m.cp, m.mp, m.mp, m.cp + 1, true) && Tried(q, n)
  {
    n := Matcher(m.cp, m.mp, m.mp, m.cp + 1, true);
    Mismatch(q.wild, m.mp, m.j, q.str, m.cp - 1, m.i, q.sensitive);
  }

  lemma StringMet(q: Query, m: Matcher)
    requires q.Valid() && Tried(q, m) && m.i == |q.str|
    ensures q.Holds() <==> Matches(q.wild[m.j..], [], q.sensitive)
  {
    if m.starred {
      StringEnds(q.wild, m.mp, m.j, q.str, m.cp - 1, q.sensitive);
    } else {
      assert q.str[q.i0..] == [];
    }
  }

  lemma {:induction false} AllMatch(s: Text, sensitive: bool)
    ensures Somewhere([], s, sensitive)
  {
    SomewhereUnfolds([], s, sensitive);
    if s != [] {
      AllMatch(s[1..], sensitive);
    }
  }

  /** The last loop: what is left of the pattern is stars. */
  method OnlyStarsLeft(wild: Text, j0: nat, sensitive: bool) returns (r: bool)
    requires j0 <= |wild|
    ensures r <==> Matches(wild[j0..], [], sensitive)
  {
    var j := j0;
    while j < |wild| && wild[j] == STAR
      invariant j0 <= j <= |wild| && forall k :: j0 <= k < j ==> wild[k] == STAR
    {
      j := j + 1;
    }
    OnlyStars(wild, j0, sensitive);
    r := j == |wild|;
  }
}
