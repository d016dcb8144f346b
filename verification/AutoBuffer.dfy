/** Replacing text in a sequence: the meaning of `auto_buffer_t::replace`. */
module Replacing {
  /** Every match replaced, from left to right, going on behind each one. */
  function ReplaceAll<T(==)>(s: seq<T>, m: seq<T>, r: seq<T>): seq<T>
    requires m != []
    decreases |s|
  {
    if |s| < |m| then s
    else if s[..|m|] == m then r + ReplaceAll(s[|m|..], m, r)
    else [s[0]] + ReplaceAll(s[1..], m, r)
  }

  ghost predicate Occurs<T>(s: seq<T>, m: seq<T>, i: nat) {
    i + |m| <= |s| && s[i..i + |m|] == m
  }

  /** The parts of `s` between its matches. */
  function Parts<T(==)>(s: seq<T>, m: seq<T>): (ps: seq<seq<T>>)
    requires m != []
    ensures ps != []
    decreases |s|
  {
    if |s| < |m| then [s]
    else if s[..|m|] == m then [[]] + Parts(s[|m|..], m)
    else var ps := Parts(s[1..], m); [[s[0]] + ps[0]] + ps[1..]
  }

  function Joined<T>(parts: seq<seq<T>>, glue: seq<T>): seq<T>
    requires parts != []
  {
    if |parts| == 1 then parts[0] else parts[0] + glue + Joined(parts[1..], glue)
  }

  lemma {:induction false} JoinedCons<T>(x: T, parts: seq<seq<T>>, glue: seq<T>)
    requires parts != []
    ensures Joined([[x] + parts[0]] + parts[1..], glue) == [x] + Joined(parts, glue)
  {
    var longer := [[x] + parts[0]] + parts[1..];
    if |parts| == 1 {
      assert longer == [[x] + parts[0]];
    } else {
      assert longer[1..] == parts[1..];
      assert [x] + parts[0] + glue + Joined(parts[1..], glue) == [x] + (parts[0] + glue + Joined(parts[1..], glue));
    }
  }

  /** In every part with a match behind it, that match is the first one. */
  ghost predicate Leftmost<T>(parts: seq<seq<T>>, m: seq<T>) {
    && (forall k, i | 0 <= k < |parts| && 0 <= i :: !Occurs(parts[k], m, i))
    && (forall k, i | 0 <= k < |parts| - 1 && 0 <= i < |parts[k]| :: !Occurs(parts[k] + m, m, i))
  }

  /**
   * Replacing takes the text apart at its matches and glues the same parts
   * together with the replacement; no part holds a match, and none begins
   * before the one that ends the part.
   */
  lemma {:induction false} ReplaceAllMeaning<T>(s: seq<T>, m: seq<T>, r: seq<T>)
    requires m != []
    ensures Joined(Parts(s, m), m) == s
    ensures Joined(Parts(s, m), r) == ReplaceAll(s, m, r)
    ensures Leftmost(Parts(s, m), m)
    decreases |s|
  {
    if |s| < |m| {
    } else if s[..|m|] == m {
      hide Joined, Occurs, Leftmost;
      var rest := s[|m|..];
      ReplaceAllMeaning(rest, m, r);
      JoinedEmpty(Parts(rest, m), m);
      JoinedEmpty(Parts(rest, m), r);
      EmptyClean(Parts(rest, m), m);
      assert s == m + rest;
    } else {
      hide Joined, Occurs, Leftmost;
      var rest := s[1..];
      ReplaceAllMeaning(rest, m, r);
      JoinedCons(s[0], Parts(rest, m), m);
      JoinedCons(s[0], Parts(rest, m), r);
      FirstPartClean(s, m);
      assert s == [s[0]] + rest;
    }
  }

  lemma JoinedEmpty<T>(parts: seq<seq<T>>, glue: seq<T>)
    requires parts != []
    ensures Joined([[]] + parts, glue) == glue + Joined(parts, glue)
  {
    assert ([[]] + parts)[1..] == parts;
    assert [] + glue + Joined(parts, glue) == glue + Joined(parts, glue);
  }

  lemma EmptyClean<T>(parts: seq<seq<T>>, m: seq<T>)
    requires m != [] && Leftmost(parts, m)
    ensures Leftmost([[]] + parts, m)
  {
    var all := [[]] + parts;
    forall k, i | 0 <= k < |all| && 0 <= i ensures !Occurs(all[k], m, i) {
      if k > 0 { assert all[k] == parts[k - 1]; }
    }
    forall k, i | 0 <= k < |all| - 1 && 0 <= i < |all[k]| ensures !Occurs(all[k] + m, m, i) {
      assert all[k] == parts[k - 1];
    }
  }

  /** A match at the front of the first part would be a match at the front of the text. */
  lemma {:induction false} FirstPartClean<T>(s: seq<T>, m: seq<T>)
    requires m != [] && |s| >= |m| && s[..|m|] != m
    requires Joined(Parts(s[1..], m), m) == s[1..] && Leftmost(Parts(s[1..], m), m)
    ensures Leftmost(Parts(s, m), m)
  {
    hide Joined, Parts;
    var ps := Parts(s[1..], m);
    var all := [[s[0]] + ps[0]] + ps[1..];
    assert Parts(s, m) == all by { PartsStep(s, m); }
    FrontOfJoined(ps, m);
    assert s == [s[0]] + s[1..];
    forall i | 0 <= i ensures !Occurs([s[0]] + ps[0], m, i) {
      if i > 0 { OccursBehind(s[0], ps[0], m, i); } else { FrontDiffers(s, ps[0], m); }
    }
    forall k, i | 0 <= k < |all| && 0 <= i ensures !Occurs(all[k], m, i) {
      if k > 0 { assert all[k] == ps[k]; }
    }
    forall k, i | 0 <= k < |all| - 1 && 0 <= i < |all[k]| ensures !Occurs(all[k] + m, m, i) {
      if k > 0 {
        assert all[k] == ps[k];
      } else {
        assert all[0] + m == [s[0]] + (ps[0] + m);
        if i > 0 { OccursBehind(s[0], ps[0] + m, m, i); } else { FrontDiffers(s, ps[0] + m, m); }
      }
    }
  }

  lemma PartsStep<T>(s: seq<T>, m: seq<T>)
    requires m != [] && |s| >= |m| && s[..|m|] != m
    ensures Parts(s, m) == [[s[0]] + Parts(s[1..], m)[0]] + Parts(s[1..], m)[1..]
  {
  }

  lemma OccursBehind<T>(x: T, s: seq<T>, m: seq<T>, i: nat)
    requires i > 0 && !Occurs(s, m, i - 1)
    ensures !Occurs([x] + s, m, i)
  {
    if i + |m| <= |s| + 1 { assert ([x] + s)[i..i + |m|] == s[i - 1..i - 1 + |m|]; }
  }

  /** What the text does not begin with, no front of it begins with. */
  lemma FrontDiffers<T>(s: seq<T>, front: seq<T>, m: seq<T>)
    requires m != [] && |s| >= |m| && s[..|m|] != m
    requires |front| <= |s[1..]| && s[1..][..|front|] == front
    ensures !Occurs([s[0]] + front, m, 0)
  {
    assert s == [s[0]] + s[1..];
    if |m| <= |front| + 1 { assert ([s[0]] + front)[..|m|] == s[..|m|]; }
  }

  lemma FrontOfJoined<T>(parts: seq<seq<T>>, glue: seq<T>)
    requires parts != []
    ensures |parts[0]| <= |Joined(parts, glue)| && Joined(parts, glue)[..|parts[0]|] == parts[0]
    ensures |parts| > 1 ==>
      |parts[0] + glue| <= |Joined(parts, glue)| && Joined(parts, glue)[..|parts[0] + glue|] == parts[0] + glue
  {
  }

  /** Only the first match replaced. */
  function ReplaceFirst<T(==)>(s: seq<T>, m: seq<T>, r: seq<T>): seq<T> {
    if |s| < |m| then s
    else if s[..|m|] == m then r + s[|m|..]
    else [s[0]] + ReplaceFirst(s[1..], m, r)
  }

  /** It is the first match that is replaced, if there is one. */
  lemma {:induction false} ReplaceFirstMeaning<T>(s: seq<T>, m: seq<T>, r: seq<T>) returns (i: nat)
    ensures i <= |s| && (forall j | 0 <= j < i :: !Occurs(s, m, j))
    ensures Occurs(s, m, i) ==> ReplaceFirst(s, m, r) == s[..i] + r + s[i + |m|..]
    ensures !Occurs(s, m, i) ==> ReplaceFirst(s, m, r) == s && forall j | 0 <= j :: !Occurs(s, m, j)
  {
    hide Occurs, ReplaceFirst;
    FirstStep(s, m, r);
    if |s| < |m| || s[..|m|] == m {
      i := 0;
    } else {
      var k := ReplaceFirstMeaning(s[1..], m, r);
      i := k + 1;
      forall j | 0 <= j ensures Occurs(s, m, j) <==> j > 0 && Occurs(s[1..], m, j - 1) {
        if j > 0 { OccursTail(s, m, j - 1); }
      }
      assert s == [s[0]] + s[1..];
      if Occurs(s, m, i) {
        OccursWithin(s[1..], m, k);
        FirstFound(s, m, r, k);
      }
    }
  }

  lemma FirstStep<T>(s: seq<T>, m: seq<T>, r: seq<T>)
    ensures |s| < |m| ==> ReplaceFirst(s, m, r) == s && forall j | 0 <= j :: !Occurs(s, m, j)
    ensures |s| >= |m| ==> (Occurs(s, m, 0) <==> s[..|m|] == m)
    ensures Occurs(s, m, 0) ==> ReplaceFirst(s, m, r) == s[..0] + r + s[|m|..]
    ensures |s| >= |m| && s[..|m|] != m ==> ReplaceFirst(s, m, r) == [s[0]] + ReplaceFirst(s[1..], m, r)
  {
    assert |s| >= |m| ==> s[0..|m|] == s[..|m|];
    assert s[..0] + r == r;
  }

  lemma OccursWithin<T>(s: seq<T>, m: seq<T>, k: nat)
    requires Occurs(s, m, k)
    ensures k + |m| <= |s|
  {
  }

  lemma FirstFound<T>(s: seq<T>, m: seq<T>, r: seq<T>, k: nat)
    requires s != [] && k + |m| <= |s[1..]|
    ensures [s[0]] + (s[1..][..k] + r + s[1..][k + |m|..]) == s[..k + 1] + r + s[k + 1 + |m|..]
  {
  }

  lemma OccursTail<T>(s: seq<T>, m: seq<T>, j: nat)
    requires s != []
    ensures Occurs(s, m, j + 1) <==> Occurs(s[1..], m, j)
  {
    if j + 1 + |m| <= |s| { assert s[j + 1..j + 1 + |m|] == s[1..][j..j + |m|]; }
  }

  // Replacing by something shorter

  /** How much of the text behind a match is passed over unseen. */
  function Leap<T>(m: seq<T>, r: seq<T>): nat {
    if |r| < |m| then |m| - |r| else 0
  }

  function Jump<T>(tail: seq<T>, leap: nat): (n: nat)
    ensures n <= |tail|
  {
    if |tail| < leap then |tail| else leap
  }

  /** Matches replaced from left to right, with a leap behind each one. */
  function ReplaceMany<T(==)>(s: seq<T>, m: seq<T>, r: seq<T>, leap: nat): seq<T>
    requires m != []
    decreases |s|
  {
    if |s| < |m| then s
    else if s[..|m|] == m then
      var tail := s[|m|..];
      r + (tail[..Jump(tail, leap)] + ReplaceMany(tail[Jump(tail, leap)..], m, r, leap))
    else [s[0]] + ReplaceMany(s[1..], m, r, leap)
  }

  /** How much text is kept in front of each match that is replaced. */
  function Gaps<T(==)>(s: seq<T>, m: seq<T>, leap: nat): seq<nat>
    requires m != []
    decreases |s|
  {
    if |s| < |m| then []
    else if s[..|m|] == m then
      var tail := s[|m|..];
      [0] + Later(Gaps(tail[Jump(tail, leap)..], m, leap), Jump(tail, leap))
    else Later(Gaps(s[1..], m, leap), 1)
  }

  function Later(gaps: seq<nat>, k: nat): seq<nat> {
    if gaps == [] then [] else [gaps[0] + k] + gaps[1..]
  }

  /** The text with `n` elements replaced behind each gap. */
  function ReplaceAtGaps<T>(s: seq<T>, gaps: seq<nat>, n: nat, r: seq<T>): seq<T> {
    if gaps == [] || gaps[0] + n > |s| then s
    else s[..gaps[0]] + (r + ReplaceAtGaps(s[gaps[0] + n..], gaps[1..], n, r))
  }

  lemma {:induction false} GapsInside<T>(s: seq<T>, m: seq<T>, leap: nat)
    requires m != []
    ensures Gaps(s, m, leap) != [] ==> Gaps(s, m, leap)[0] + |m| <= |s|
    decreases |s|
  {
    if |s| >= |m| && s[..|m|] != m { GapsInside(s[1..], m, leap); }
  }

  lemma {:induction false} ReplaceLater<T>(s: seq<T>, gaps: seq<nat>, n: nat, r: seq<T>, k: nat)
    requires k <= |s|
    ensures ReplaceAtGaps(s, Later(gaps, k), n, r) == s[..k] + ReplaceAtGaps(s[k..], gaps, n, r)
  {
    hide ReplaceAtGaps;
    NextGap(s, Later(gaps, k), n, r);
    NextGap(s[k..], gaps, n, r);
    if gaps != [] && gaps[0] + n <= |s[k..]| {
      SplitTwice(s, k, gaps[0], n, r + ReplaceAtGaps(s[k..][gaps[0] + n..], gaps[1..], n, r));
      assert Later(gaps, k)[1..] == gaps[1..];
    } else {
      assert s == s[..k] + s[k..];
    }
  }

  lemma NextGap<T>(s: seq<T>, gaps: seq<nat>, n: nat, r: seq<T>)
    ensures gaps == [] || gaps[0] + n > |s| ==> ReplaceAtGaps(s, gaps, n, r) == s
    ensures gaps != [] && gaps[0] + n <= |s| ==>
      ReplaceAtGaps(s, gaps, n, r) == s[..gaps[0]] + (r + ReplaceAtGaps(s[gaps[0] + n..], gaps[1..], n, r))
  {
  }

  lemma SplitTwice<T>(s: seq<T>, k: nat, g: nat, n: nat, rest: seq<T>)
    requires k + g + n <= |s|
    ensures s[k..][g + n..] == s[g + k + n..]
    ensures s[..g + k] + rest == s[..k] + (s[k..][..g] + rest)
  {
  }

  lemma FirstGap<T>(s: seq<T>, gaps: seq<nat>, n: nat, r: seq<T>)
    requires n <= |s|
    ensures ReplaceAtGaps(s, [0] + gaps, n, r) == r + ReplaceAtGaps(s[n..], gaps, n, r)
  {
    assert ([0] + gaps)[1..] == gaps && s[..0] == [];
  }

  /** The gaps say where the text is replaced. */
  lemma {:induction false} ReplacedAtGaps<T>(s: seq<T>, m: seq<T>, r: seq<T>, leap: nat)
    requires m != []
    ensures ReplaceMany(s, m, r, leap) == ReplaceAtGaps(s, Gaps(s, m, leap), |m|, r)
    decreases |s|
  {
    if |s| >= |m| {
      if s[..|m|] == m {
        var tail, k := s[|m|..], Jump(s[|m|..], leap);
        var gaps := Later(Gaps(tail[k..], m, leap), k);
        ReplacedAtGaps(tail[k..], m, r, leap);
        ReplaceLater(tail, Gaps(tail[k..], m, leap), |m|, r, k);
        FirstGap(s, gaps, |m|, r);
      } else {
        ReplacedAtGaps(s[1..], m, r, leap);
        ReplaceLater(s, Gaps(s[1..], m, leap), |m|, r, 1);
        assert s[..1] == [s[0]];
      }
    }
  }

  /** Without a leap it is replace-all. */
  lemma {:induction false} NoLeap<T>(s: seq<T>, m: seq<T>, r: seq<T>)
    requires m != []
    ensures ReplaceMany(s, m, r, 0) == ReplaceAll(s, m, r)
    decreases |s|
  {
    if |s| >= |m| {
      if s[..|m|] == m {
        NoLeap(s[|m|..], m, r);
        assert s[|m|..][..0] == [] && s[|m|..][0..] == s[|m|..];
      } else {
        NoLeap(s[1..], m, r);
      }
    }
  }

  /** Between two matches of replace-all there is at least a leap. */
  ghost predicate Spaced<T>(s: seq<T>, m: seq<T>, leap: nat)
    requires m != []
  {
    forall k | 0 < k < |Gaps(s, m, 0)| :: Gaps(s, m, 0)[k] >= leap
  }

  /** What is in front of the first match may be cut off. */
  lemma {:induction false} GapsAhead<T>(s: seq<T>, m: seq<T>, k: nat)
    requires m != [] && k <= |s| && (Gaps(s, m, 0) != [] ==> Gaps(s, m, 0)[0] >= k)
    ensures Gaps(s, m, 0) == Later(Gaps(s[k..], m, 0), k)
    decreases k
  {
    hide Gaps, Later;
    LaterTwice(Gaps(s, m, 0), 0);
    if k == 0 {
      assert s[0..] == s;
    } else {
      NoGaps(s, m);
      NoGaps(s[k..], m);
      LaterBounds(Gaps(s[k..], m, 0), k);
      if |s| >= |m| {
        LaterBounds(Gaps(s[1..], m, 0), 1);
        GapsAhead(s[1..], m, k - 1);
        assert s[1..][k - 1..] == s[k..];
        LaterTwice(Gaps(s[k..], m, 0), k - 1);
      }
    }
  }

  lemma LaterTwice(g: seq<nat>, k: nat)
    ensures Later(Later(g, k), 1) == Later(g, k + 1) && Later(g, 0) == g
  {
  }

  lemma NoGaps<T>(s: seq<T>, m: seq<T>)
    requires m != []
    ensures |s| < |m| ==> Gaps(s, m, 0) == []
    ensures |s| >= |m| ==> (s[..|m|] == m <==> Gaps(s, m, 0) != [] && Gaps(s, m, 0)[0] == 0)
    ensures |s| >= |m| && s[..|m|] != m ==> Gaps(s, m, 0) == Later(Gaps(s[1..], m, 0), 1)
  {
  }

  /**
   * A replacement that is shorter than the match replaces the matches that
   * replace-all would replace if and only if these are a leap apart.
   */
  lemma {:induction false} SameMatches<T>(s: seq<T>, m: seq<T>, leap: nat)
    requires m != []
    ensures Gaps(s, m, leap) == Gaps(s, m, 0) <==> Spaced(s, m, leap)
    decreases |s|
  {
    if |s| >= |m| {
      if s[..|m|] == m {
        SameBehind(s, m, leap);
      } else {
        SameMatches(s[1..], m, leap);
        var a, b := Gaps(s[1..], m, leap), Gaps(s[1..], m, 0);
        assert Gaps(s, m, leap) == Later(a, 1) && Gaps(s, m, 0) == Later(b, 1);
        hide Gaps;
        LaterSame(a, b, 1);
        SpacedFurther(s, m, leap);
      }
    }
  }

  lemma SpacedFurther<T>(s: seq<T>, m: seq<T>, leap: nat)
    requires m != [] && s != [] && Gaps(s, m, 0) == Later(Gaps(s[1..], m, 0), 1)
    ensures Spaced(s, m, leap) <==> Spaced(s[1..], m, leap)
  {
    hide Gaps;
    var b := Gaps(s[1..], m, 0);
    forall k | 0 < k < |b| ensures Later(b, 1)[k] == b[k] {}
  }

  lemma {:induction false} SameBehind<T>(s: seq<T>, m: seq<T>, leap: nat)
    requires m != [] && |s| >= |m| && s[..|m|] == m
    ensures Gaps(s, m, leap) == Gaps(s, m, 0) <==> Spaced(s, m, leap)
    decreases |s|, 0
  {
    hide Gaps, Later, Spaced;
    var tail, k := s[|m|..], Jump(s[|m|..], leap);
    var g, b, h := Gaps(tail[k..], m, leap), Gaps(tail, m, 0), Gaps(tail[k..], m, 0);
    MatchInFront(s, m, leap);
    GapsInside(tail, m, 0);
    if b == [] || b[0] >= leap {
      GapsAhead(tail, m, k);
      SameMatches(tail[k..], m, leap);
      LaterSame(g, h, k);
      SpacedLater(tail[k..], m, h, b, k, leap);
    } else {
      LaterBounds(g, k);
      GapsInside(tail[k..], m, leap);
    }
  }

  lemma {:induction false} MatchInFront<T>(s: seq<T>, m: seq<T>, leap: nat)
    requires m != [] && |s| >= |m| && s[..|m|] == m
    ensures var tail, k := s[|m|..], Jump(s[|m|..], leap);
      && (Gaps(s, m, leap) == Gaps(s, m, 0) <==> Later(Gaps(tail[k..], m, leap), k) == Gaps(tail, m, 0))
      && (Spaced(s, m, leap) <==> forall i | 0 <= i < |Gaps(tail, m, 0)| :: Gaps(tail, m, 0)[i] >= leap)
  {
    var tail, k := s[|m|..], Jump(s[|m|..], leap);
    var a, b := Later(Gaps(tail[k..], m, leap), k), Gaps(tail, m, 0);
    assert tail[0..] == tail && Later(b, 0) == b;
    assert Gaps(s, m, leap) == [0] + a && Gaps(s, m, 0) == [0] + b;
    assert ([0] + a)[1..] == a && ([0] + b)[1..] == b;
    forall i | 0 <= i < |b| ensures Gaps(s, m, 0)[i + 1] == b[i] {}
  }

  lemma SpacedLater<T>(s: seq<T>, m: seq<T>, h: seq<nat>, b: seq<nat>, k: nat, leap: nat)
    requires m != [] && h == Gaps(s, m, 0) && b == Later(h, k) && (b != [] ==> b[0] >= leap)
    ensures Spaced(s, m, leap) <==> forall i | 0 <= i < |b| :: b[i] >= leap
  {
    hide Gaps;
    forall i | 0 < i < |h| ensures b[i] == h[i] {}
  }

  lemma LaterBounds(g: seq<nat>, k: nat)
    ensures g == [] <==> Later(g, k) == []
    ensures g != [] ==> Later(g, k)[0] == g[0] + k
  {
  }

  lemma LaterSame(a: seq<nat>, b: seq<nat>, k: nat)
    ensures Later(a, k) == Later(b, k) <==> a == b
  {
    if a != [] && b != [] && Later(a, k) == Later(b, k) {
      SameRest(a[0] + k, a[1..], b[0] + k, b[1..]);
      assert a == [a[0]] + a[1..] && b == [b[0]] + b[1..];
    }
  }

  lemma SameRest(x: nat, a: seq<nat>, y: nat, b: seq<nat>)
    requires [x] + a == [y] + b
    ensures x == y && a == b
  {
    assert x == ([x] + a)[0] && y == ([y] + b)[0];
    assert a == ([x] + a)[1..] && b == ([y] + b)[1..];
  }

  /** And then the outcome is that of replace-all. */
  lemma SpacedReplaced<T>(s: seq<T>, m: seq<T>, r: seq<T>)
    requires m != [] && Spaced(s, m, Leap(m, r))
    ensures ReplaceMany(s, m, r, Leap(m, r)) == ReplaceAll(s, m, r)
  {
    SameMatches(s, m, Leap(m, r));
    ReplacedAtGaps(s, m, r, Leap(m, r));
    ReplacedAtGaps(s, m, r, 0);
    NoLeap(s, m, r);
  }

  /** The outcome is shorter by the difference once for each match that is replaced. */
  lemma {:induction false} ReplacedLength<T>(s: seq<T>, m: seq<T>, r: seq<T>, leap: nat)
    requires m != []
    ensures |ReplaceMany(s, m, r, leap)| == |s| - |Gaps(s, m, leap)| * (|m| - |r|)
    decreases |s|
  {
    hide ReplaceMany, Gaps, Later, Jump;
    LengthStep(s, m, r, leap);
    if |s| >= |m| {
      if s[..|m|] == m {
        var tail, k := s[|m|..], Jump(s[|m|..], leap);
        ReplacedLength(tail[k..], m, r, leap);
        OneMore(|Gaps(tail[k..], m, leap)|, |m| - |r|);
      } else {
        ReplacedLength(s[1..], m, r, leap);
      }
    }
  }

  lemma LengthStep<T>(s: seq<T>, m: seq<T>, r: seq<T>, leap: nat)
    requires m != []
    ensures |s| < |m| ==> ReplaceMany(s, m, r, leap) == s && Gaps(s, m, leap) == []
    ensures |s| >= |m| && s[..|m|] == m ==>
      var tail, k := s[|m|..], Jump(s[|m|..], leap);
      && |ReplaceMany(s, m, r, leap)| == |r| + k + |ReplaceMany(tail[k..], m, r, leap)|
      && |Gaps(s, m, leap)| == 1 + |Gaps(tail[k..], m, leap)|
    ensures |s| >= |m| && s[..|m|] != m ==>
      && |ReplaceMany(s, m, r, leap)| == 1 + |ReplaceMany(s[1..], m, r, leap)|
      && |Gaps(s, m, leap)| == |Gaps(s[1..], m, leap)|
  {
  }

  lemma OneMore(n: int, d: int)
    ensures (n + 1) * d == n * d + d
  {
  }

  /** It can be that of replace-all only if as many matches are replaced. */
  lemma SameCount<T>(s: seq<T>, m: seq<T>, r: seq<T>)
    requires |r| < |m| && ReplaceMany(s, m, r, Leap(m, r)) == ReplaceAll(s, m, r)
    ensures |Gaps(s, m, Leap(m, r))| == |Gaps(s, m, 0)|
  {
    NoLeap(s, m, r);
    ReplacedLength(s, m, r, Leap(m, r));
    ReplacedLength(s, m, r, 0);
    SameFactor(|Gaps(s, m, Leap(m, r))|, |Gaps(s, m, 0)|, |m| - |r|);
  }

  lemma SameFactor(a: int, b: int, d: int)
    requires d > 0 && a * d == b * d
    ensures a == b
  {
  }

  /** Other matches may be replaced than replace-all would replace, with the same outcome. */
  lemma OtherMatches()
    ensures ReplaceMany("aaaaa", "aa", "a", Leap("aa", "a")) == "aaa" == ReplaceAll("aaaaa", "aa", "a")
    ensures !Wraps(5, "aaaaa", "aa", "a") && !Spaced("aaaaa", "aa", Leap("aa", "a"))
  {
    AlikeAll();
    AlikeMany();
    AlikeGaps();
    hide ReplaceAll, ReplaceMany, Wraps, Gaps;
    assert Gaps("aaaaa", "aa", 0)[1] == 0 < Leap("aa", "a");
  }

  lemma AlikeGaps()
    ensures Gaps("aaaaa", "aa", 0) == [0, 0]
  {
    assert "aaaaa"[..2] == "aa" && "aaaaa"[2..][0..] == "aaa" && "aaa"[..2] == "aa" && "aaa"[2..][0..] == "a";
    assert Gaps("aaa", "aa", 0) == [0];
  }

  lemma AlikeAll()
    ensures ReplaceAll("aaaaa", "aa", "a") == "aaa"
  {
    assert "aaaaa"[..2] == "aa" && "aaaaa"[2..] == "aaa" && "aaa"[..2] == "aa" && "aaa"[2..] == "a";
    assert ReplaceAll("a", "aa", "a") == "a";
    assert ReplaceAll("aaa", "aa", "a") == "aa";
  }

  lemma AlikeMany()
    ensures ReplaceMany("aaaaa", "aa", "a", 1) == "aaa" && !Wraps(5, "aaaaa", "aa", "a")
  {
    assert "aaaaa"[..2] == "aa" && "aaaaa"[2..] == "aaa" && "aaa"[1..] == "aa" && "aa"[..2] == "aa" && "aa"[2..] == "";
    assert "aaa"[..1] == "a" && ""[..0] == "" && ""[0..] == "";
    assert ReplaceMany("aa", "aa", "a", 1) == "a";
    assert !Wraps(4, "aa", "aa", "a");
  }

  /** Of two matches side by side only the first one is replaced. */
  lemma ShorterMisses()
    ensures ReplaceMany("abab", "ab", "", Leap("ab", "")) == "ab" && ReplaceAll("abab", "ab", "") == ""
  {
    assert "abab"[..2] == "ab" && "abab"[2..] == "ab" && "ab"[2..] == "" && "ab"[..2] == "ab";
  }

  // The bound of the loop

  /** The bound `fill - |m|` of the loop falls below zero, where an unsigned number wraps. */
  predicate Wraps<T(==)>(fill: nat, todo: seq<T>, m: seq<T>, r: seq<T>)
    requires m != []
    decreases |todo|
  {
    if |todo| < |m| then false
    else if todo[..|m|] == m then
      var tail := todo[|m|..];
      fill - |m| + |r| < |m| || Wraps(fill - |m| + |r|, tail[Jump(tail, Leap(m, r))..], m, r)
    else Wraps(fill, todo[1..], m, r)
  }

  /** That happens if and only if what is left in the end is shorter than the match. */
  lemma {:induction false} WrapsWhenShort<T>(fill: nat, todo: seq<T>, m: seq<T>, r: seq<T>)
    requires m != [] && |m| <= fill && |todo| <= fill
    ensures Wraps(fill, todo, m, r) <==> fill - |todo| + |ReplaceMany(todo, m, r, Leap(m, r))| < |m|
    decreases |todo|
  {
    if |todo| >= |m| {
      if todo[..|m|] == m {
        var tail := todo[|m|..];
        var rest := tail[Jump(tail, Leap(m, r))..];
        Shrinks(rest, m, r);
        if fill - |m| + |r| >= |m| { WrapsWhenShort(fill - |m| + |r|, rest, m, r); }
      } else {
        WrapsWhenShort(fill, todo[1..], m, r);
      }
    }
  }

  /** And so it is the number of matches replaced that decides. */
  lemma WrapsByCount<T>(s: seq<T>, m: seq<T>, r: seq<T>)
    requires m != [] && |m| <= |s|
    ensures Wraps(|s|, s, m, r) <==> |s| - |Gaps(s, m, Leap(m, r))| * (|m| - |r|) < |m|
  {
    WrapsWhenShort(|s|, s, m, r);
    ReplacedLength(s, m, r, Leap(m, r));
  }

  /** Taking out a text that is nothing but the match wraps. */
  lemma WrapsAlone()
    ensures Wraps(2, "ab", "ab", "")
  {
    assert "ab"[..2] == "ab";
  }

  /** A replacement that is no shorter never lets it wrap, and replaces all matches. */
  lemma LongerReplaced<T>(s: seq<T>, m: seq<T>, r: seq<T>)
    requires m != [] && |r| >= |m|
    ensures !Wraps(|s|, s, m, r)
    ensures ReplaceMany(s, m, r, Leap(m, r)) == ReplaceAll(s, m, r)
  {
    NoLeap(s, m, r);
    Shrinks(s, m, r);
    if |s| >= |m| { WrapsWhenShort(|s|, s, m, r); }
  }

  /** A shorter replacement never makes the text longer. */
  lemma {:induction false} Shrinks<T>(s: seq<T>, m: seq<T>, r: seq<T>)
    requires m != []
    ensures |r| <= |m| ==> |ReplaceMany(s, m, r, Leap(m, r))| <= |s|
    ensures |r| >= |m| ==> |ReplaceMany(s, m, r, Leap(m, r))| >= |s|
    decreases |s|
  {
    if |s| >= |m| {
      if s[..|m|] == m {
        var tail := s[|m|..];
        Shrinks(tail[Jump(tail, Leap(m, r))..], m, r);
      } else {
        Shrinks(s[1..], m, r);
      }
    }
  }

  /** What the loop makes of the text. */
  function Replaced<T(==)>(s: seq<T>, m: seq<T>, r: seq<T>, single: bool): seq<T>
    requires single || m != []
  {
    if single then ReplaceFirst(s, m, r) else ReplaceMany(s, m, r, Leap(m, r))
  }

  /** One step of the scan. */
  lemma {:induction false} ReplaceStep<T>(s: seq<T>, m: seq<T>, r: seq<T>, single: bool)
    requires |s| >= |m| && (single || m != [])
    ensures s[..|m|] == m && single ==> Replaced(s, m, r, single) == r + s[|m|..]
    ensures s[..|m|] == m && !single ==>
      var tail, k := s[|m|..], Jump(s[|m|..], Leap(m, r));
      Replaced(s, m, r, single) == r + (tail[..k] + Replaced(tail[k..], m, r, single))
    ensures s[..|m|] != m ==> Replaced(s, m, r, single) == [s[0]] + Replaced(s[1..], m, r, single)
  {
  }

  lemma ReplaceNone<T>(s: seq<T>, m: seq<T>, r: seq<T>, single: bool)
    requires |s| < |m|
    ensures Replaced(s, m, r, single) == s && forall i | 0 <= i :: !Occurs(s, m, i)
  {
  }
}

/** The growing buffer `auto_buffer_t`. */
module AutoBuffers {
  import opened Replacing

  const DEFAULT_GRANULATE := 0x400

  class AutoBuffer<T(0, ==)> {
    var buffer: array<T>
    var readyPosition: nat

    ghost predicate Valid()
      reads this
    {
      readyPosition <= buffer.Length
    }

    /** The filled part. */
    ghost function Contents(): seq<T>
      requires Valid()
      reads this, buffer
    {
      buffer[..readyPosition]
    }

    constructor ()
      ensures Valid() && Contents() == [] && fresh(buffer)
    {
      buffer, readyPosition := new T[0], 0;
    }

    /** `check_size`: room for `demand` elements in all, in steps of `granulate`. */
    method CheckSize(demand: nat, granulate: nat)
      requires Valid() && granulate > 0
      modifies this`buffer
      ensures Valid() && Contents() == old(Contents()) && readyPosition == old(readyPosition)
      ensures buffer == old(buffer) || fresh(buffer)
      ensures var wanted := if demand == 0 then old(readyPosition) + granulate else demand;
        && buffer.Length >= wanted
        && buffer.Length == if wanted > old(buffer.Length) then (wanted / granulate + 1) * granulate else old(buffer.Length)
    {
      var wanted := if demand == 0 then readyPosition + granulate else demand;
      if wanted > buffer.Length {
        var size := (wanted / granulate + 1) * granulate;
        RoundedUp(wanted, granulate);
        var larger := new T[size];
        forall i | 0 <= i < buffer.Length { larger[i] := buffer[i]; }
        buffer := larger;
      }
    }

    lemma RoundedUp(n: nat, g: nat)
      requires g > 0
      ensures n < (n / g + 1) * g
    {
      assert n == n / g * g + n % g;
    }

    /** `append`. */
    method Append(data: seq<T>)
      requires Valid()
      modifies this, buffer
      ensures Valid() && Contents() == old(Contents()) + data
      ensures buffer == old(buffer) || fresh(buffer)
    {
      if |data| > buffer.Length - readyPosition {
        CheckSize(readyPosition + |data|, DEFAULT_GRANULATE);
      }
      Fill(readyPosition, data);
      readyPosition := readyPosition + |data|;
    }

    /** `decrement_free_size`: the filled part grows over the free one, and no further. */
    method DecrementFreeSize(size: nat)
      requires Valid()
      modifies this`readyPosition
      ensures Valid() && readyPosition == if old(readyPosition) + size < buffer.Length then old(readyPosition) + size else buffer.Length
    {
      if readyPosition + size < buffer.Length {
        readyPosition := readyPosition + size;
      } else {
        readyPosition := buffer.Length;
      }
    }

    /** `increment_free_size`: the filled part shrinks from its end, and no further than to nothing. */
    method IncrementFreeSize(size: nat)
      requires Valid()
      modifies this`readyPosition
      ensures Valid()
      ensures Contents() == old(Contents())[..if size <= old(readyPosition) then old(readyPosition) - size else 0]
    {
      if readyPosition >= size {
        readyPosition := readyPosition - size;
      } else {
        readyPosition := 0;
      }
    }

    /** `flush_free_size`: everything counts as free again. */
    method FlushFreeSize()
      modifies this`readyPosition
      ensures Valid() && Contents() == []
    {
      readyPosition := 0;
    }

    /** `memmove` within the buffer. */
    method Move(to: nat, from: nat, count: nat)
      requires to + count <= buffer.Length && from + count <= buffer.Length
      modifies buffer
      ensures buffer[to..to + count] == old(buffer[from..from + count])
      ensures buffer[..to] == old(buffer[..to]) && buffer[to + count..] == old(buffer[to + count..])
    {
      var part := buffer[from..from + count];
      forall i | 0 <= i < count { buffer[to + i] := part[i]; }
    }

    /** `cut_from_head`; cutting more than there is does nothing. */
    method CutFromHead(count: nat)
      requires Valid()
      modifies this`readyPosition, buffer
      ensures Valid()
      ensures Contents() == if count <= old(readyPosition) then old(Contents())[count..] else old(Contents())
    {
      if count == 0 || count > readyPosition {
        return;
      }
      if count != readyPosition {
        Move(0, count, readyPosition - count);
      }
      readyPosition := readyPosition - count;
    }

    /**
     * `replace` of the first match or of all of them, growing the buffer as
     * needed; whether there was a match. A shorter replacement has to leave as
     * much as a match in the end, else the bound of the loop wraps.
     */
    method Replace(pattern: seq<T>, with: seq<T>, single: bool) returns (result: bool)
      requires Valid() && (single || (pattern != [] && !Wraps(readyPosition, Contents(), pattern, with)))
      modifies this, buffer
      ensures Valid() && Contents() == Replaced(old(Contents()), pattern, with, single)
      ensures result <==> exists i: nat :: Occurs(old(Contents()), pattern, i)
      ensures buffer == old(buffer) || fresh(buffer)
    {
      hide ReplaceAll, ReplaceFirst, ReplaceMany, Replaced, Occurs, ScanSoFar, Wraps, Jump, Leap;
      result := false;
      ghost var was := Contents();
      if readyPosition < |pattern| {
        ReplaceNone(was, pattern, with, single);
        return;
      }
      var maxPos: nat, km := readyPosition - |pattern|, 0;
      ghost var done, todo := [], was;
      ScanStart(was, pattern, with, single);
      while km <= maxPos
        invariant Valid() && (buffer == old(buffer) || fresh(buffer))
        invariant maxPos + |pattern| == readyPosition && (single || !Wraps(readyPosition, todo, pattern, with))
        invariant Contents() == done + todo
        invariant km == |done| || (km > |done| && todo == [] && pattern != [])
        invariant ScanSoFar(was, pattern, with, single, done, todo, result)
        decreases maxPos + 1 - km
      {
        NoWrap(readyPosition, todo, pattern, with, single);
        var hit := ReplaceHere(km, pattern, with, single, was, done, todo, result);
        if hit {
          if single {
            return true;
          }
          ghost var tail, jump := todo[|pattern|..], Jump(todo[|pattern|..], Leap(pattern, with));
          LeapAhead(done, todo, pattern, with);
          done, todo := done + with + tail[..jump], tail[jump..];
          if |with| > |pattern| {
            maxPos := maxPos + (|with| - |pattern|);
            km := km + |with|;
          } else if |with| < |pattern| {
            maxPos := maxPos - (|pattern| - |with|);
            km := km + |pattern|;
          } else {
            km := km + |with|;
          }
          result := true;
        } else {
          done, todo := done + [todo[0]], todo[1..];
          km := km + 1;
        }
      }
      ScanEnd(was, pattern, with, single, done, todo, result);
    }

    /** The comparison at one position, and the replacement if it matches. */
    method ReplaceHere(km: nat, pattern: seq<T>, with: seq<T>, single: bool,
                       ghost was: seq<T>, ghost done: seq<T>, ghost todo: seq<T>, ghost found: bool) returns (hit: bool)
      requires Valid() && (single || pattern != [])
      requires |done| == km && Contents() == done + todo && |pattern| <= |todo|
      requires ScanSoFar(was, pattern, with, single, done, todo, found)
      modifies this, buffer
      ensures Valid() && (buffer == old(buffer) || fresh(buffer))
      ensures hit <==> todo[..|pattern|] == pattern
      ensures hit && single ==> Contents() == Replaced(was, pattern, with, single) && exists i: nat :: Occurs(was, pattern, i)
      ensures hit && !single ==>
        var tail, jump := todo[|pattern|..], Jump(todo[|pattern|..], Leap(pattern, with));
        && ScanSoFar(was, pattern, with, single, done + with + tail[..jump], tail[jump..], true)
        && Contents() == (done + with + tail[..jump]) + tail[jump..]
      ensures !hit ==>
        todo != [] && ScanSoFar(was, pattern, with, single, done + [todo[0]], todo[1..], found)
        && Contents() == (done + [todo[0]]) + todo[1..] && readyPosition == old(readyPosition)
    {
      hide ReplaceAll, ReplaceFirst, ReplaceMany, Replaced, Occurs, ScanSoFar, Jump, Leap;
      var here := buffer[..readyPosition][km..km + |pattern|];
      ScanHere(Contents(), here, was, pattern, with, single, done, todo, found);
      hit := here == pattern;
      if hit {
        ReplaceAt(km, pattern, with);
      } else {
        assert |pattern| == 0 ==> here == pattern;
      }
    }

    /** One match replaced in place: room is made, the tail moved, the text copied. */
    method ReplaceAt(km: nat, pattern: seq<T>, with: seq<T>)
      requires Valid() && km + |pattern| <= readyPosition
      modifies this, buffer
      ensures Valid() && (buffer == old(buffer) || fresh(buffer))
      ensures Contents() == old(Contents())[..km] + with + old(Contents())[km + |pattern|..]
    {
      ghost var was := Contents();
      MakeRoom(km, |pattern|, |with|);
      ghost var moved := buffer[..];
      Fill(km, with);
      readyPosition := readyPosition - |pattern| + |with|;
      Assembled(moved, buffer[..], was[..km], with, was[km + |pattern|..]);
    }

    /** The part behind a match moved to where it has to be, in a larger buffer if need be. */
    method MakeRoom(km: nat, n: nat, count: nat)
      requires Valid() && km + n <= readyPosition
      modifies this`buffer, buffer
      ensures Valid() && (buffer == old(buffer) || fresh(buffer))
      ensures km + count + |old(Contents())[km + n..]| <= buffer.Length
      ensures buffer[..][..km] == old(Contents())[..km]
      ensures buffer[..][km + count..km + count + |old(Contents())[km + n..]|] == old(Contents())[km + n..]
    {
      ghost var was := Contents();
      if count > n {
        CheckSize(readyPosition + (count - n), DEFAULT_GRANULATE);
      }
      PartsOf(buffer[..], was, km, n);
      if count != n {
        MoveTail(km, n, count);
      }
    }

    method MoveTail(km: nat, matchCount: nat, count: nat)
      requires Valid() && km + matchCount <= readyPosition && readyPosition - matchCount + count <= buffer.Length
      modifies buffer
      ensures buffer[..][..km] == old(buffer[..][..km])
      ensures buffer[..][km + count..readyPosition - matchCount + count] == old(buffer[..][km + matchCount..readyPosition])
    {
      Move(km + count, km + matchCount, readyPosition - (km + matchCount));
      assert buffer[..km] == buffer[..km + count][..km];
    }

    /** `memcpy` into the buffer. */
    method Fill(at: nat, data: seq<T>)
      requires at + |data| <= buffer.Length
      modifies buffer
      ensures buffer[..] == old(buffer[..at]) + data + old(buffer[at + |data|..])
    {
      forall i | 0 <= i < |data| { buffer[at + i] := data[i]; }
    }
  }

  /** The buffer taken apart around a match. */
  lemma PartsOf<T>(b: seq<T>, was: seq<T>, km: nat, n: nat)
    requires km + n <= |was| <= |b| && b[..|was|] == was
    ensures b[..km] == was[..km] && b[km + n..|was|] == was[km + n..]
  {
  }

  /** The buffer put together again. */
  lemma Assembled<T>(moved: seq<T>, b: seq<T>, head: seq<T>, with: seq<T>, tail: seq<T>)
    requires |head| + |with| + |tail| <= |moved| && moved[..|head|] == head
    requires moved[|head| + |with|..|head| + |with| + |tail|] == tail
    requires b == moved[..|head|] + with + moved[|head| + |with|..]
    ensures b[..|head| + |with| + |tail|] == head + with + tail
  {
  }

  /** The scan so far: what is done with, what is left, and whether there was a match. */
  ghost predicate ScanSoFar<T>(was: seq<T>, m: seq<T>, r: seq<T>, single: bool, done: seq<T>, todo: seq<T>, found: bool)
    requires single || m != []
  {
    && done + Replaced(todo, m, r, single) == Replaced(was, m, r, single)
    && (found ==> !single && exists i: nat :: Occurs(was, m, i))
    && (!found ==> was == done + todo && forall i | 0 <= i < |done| :: !Occurs(was, m, i))
  }

  lemma ScanStart<T>(was: seq<T>, m: seq<T>, r: seq<T>, single: bool)
    requires single || m != []
    ensures ScanSoFar(was, m, r, single, [], was, false) && was == [] + was
  {
    assert [] + Replaced(was, m, r, single) == Replaced(was, m, r, single);
  }

  /** What the next step makes of it, match or not. */
  lemma {:induction false} ScanHere<T>(contents: seq<T>, here: seq<T>, was: seq<T>, m: seq<T>, r: seq<T>, single: bool,
                                       done: seq<T>, todo: seq<T>, found: bool)
    requires single || m != []
    requires ScanSoFar(was, m, r, single, done, todo, found) && contents == done + todo && |m| <= |todo|
    requires here == contents[|done|..|done| + |m|]
    ensures here == todo[..|m|]
    ensures here == m && single ==>
              contents[..|done|] + r + contents[|done| + |m|..] == Replaced(was, m, r, single)
              && exists i: nat :: Occurs(was, m, i)
    ensures here == m && !single ==>
      var tail, k := todo[|m|..], Jump(todo[|m|..], Leap(m, r));
      && ScanSoFar(was, m, r, single, done + r + tail[..k], tail[k..], true)
      && contents[..|done|] + r + contents[|done| + |m|..] == (done + r + tail[..k]) + tail[k..]
    ensures here != m ==> ScanSoFar(was, m, r, single, done + [todo[0]], todo[1..], found) && contents == (done + [todo[0]]) + todo[1..]
  {
    hide Replaced, Occurs, Jump, Leap;
    ReplaceStep(todo, m, r, single);
    HereAhead(done, todo, |m|);
    if !found { OccursHere(was, m, |done|); assert was[|done|..] == todo; }
    if here == m {
      Onwards(done, todo, m, r);
      if single {
        Regrouped(done, r, todo[|m|..]);
      } else {
        var tail, k := todo[|m|..], Jump(todo[|m|..], Leap(m, r));
        RegroupedTwice(done, r, tail[..k], Replaced(tail[k..], m, r, single));
        RegroupedTwice(done, r, tail[..k], tail[k..]);
        assert tail[..k] + tail[k..] == tail;
      }
    } else {
      assert m != [];
      OnwardsOne(done, todo, Replaced(todo[1..], m, r, single));
    }
  }

  lemma RegroupedTwice<T>(a: seq<T>, b: seq<T>, c: seq<T>, d: seq<T>)
    ensures a + (b + (c + d)) == (a + b + c) + d
    ensures (a + b) + (c + d) == (a + b + c) + d
  {
  }

  /** The bound stays above zero, whether there is a match or not. */
  lemma NoWrap<T>(fill: nat, todo: seq<T>, m: seq<T>, r: seq<T>, single: bool)
    requires single || (m != [] && !Wraps(fill, todo, m, r))
    ensures !single && |todo| >= |m| && todo[..|m|] == m ==>
      var tail := todo[|m|..];
      && fill - |m| + |r| >= |m|
      && !Wraps(fill - |m| + |r|, tail[Jump(tail, Leap(m, r))..], m, r)
    ensures !single && |todo| >= |m| && todo[..|m|] != m ==> !Wraps(fill, todo[1..], m, r)
  {
  }

  /** Where the scan goes on behind a match; past the end when the leap is too long. */
  lemma LeapAhead<T>(done: seq<T>, todo: seq<T>, m: seq<T>, r: seq<T>)
    requires |m| <= |todo|
    ensures var tail, k := todo[|m|..], Jump(todo[|m|..], Leap(m, r));
      && |done + r + tail[..k]| + |tail[k..]| == |done| + |todo| - |m| + |r|
      && (|r| >= |m| ==> |done + r + tail[..k]| == |done| + |r|)
      && (|r| < |m| ==> |done + r + tail[..k]| <= |done| + |m| && (|done + r + tail[..k]| < |done| + |m| ==> tail[k..] == []))
  {
  }

  lemma ScanEnd<T>(was: seq<T>, m: seq<T>, r: seq<T>, single: bool, done: seq<T>, todo: seq<T>, found: bool)
    requires single || m != []
    requires ScanSoFar(was, m, r, single, done, todo, found) && |todo| < |m|
    ensures done + todo == Replaced(was, m, r, single)
    ensures found <==> exists i: nat :: Occurs(was, m, i)
  {
    ReplaceNone(todo, m, r, single);
    if !found { NoneLeft(was, m, |done|); }
  }

  lemma OccursHere<T>(s: seq<T>, m: seq<T>, k: nat)
    requires k + |m| <= |s|
    ensures Occurs(s, m, k) <==> s[k..][..|m|] == m
  {
    assert s[k..][..|m|] == s[k..k + |m|];
  }

  lemma NoneLeft<T>(s: seq<T>, m: seq<T>, k: nat)
    requires k + |m| > |s| && forall i | 0 <= i < k :: !Occurs(s, m, i)
    ensures forall i | 0 <= i :: !Occurs(s, m, i)
  {
  }

  lemma HereAhead<T>(done: seq<T>, todo: seq<T>, n: nat)
    requires n <= |todo|
    ensures (done + todo)[|done|..|done| + n] == todo[..n]
  {
  }

  lemma Regrouped<T>(a: seq<T>, b: seq<T>, c: seq<T>)
    ensures a + (b + c) == (a + b) + c
  {
  }

  lemma Onwards<T>(done: seq<T>, todo: seq<T>, m: seq<T>, r: seq<T>)
    requires |m| <= |todo|
    ensures (done + todo)[..|done|] + r + (done + todo)[|done| + |m|..] == (done + r) + todo[|m|..]
  {
  }

  lemma OnwardsOne<T>(done: seq<T>, todo: seq<T>, rest: seq<T>)
    requires todo != []
    ensures done + todo == (done + [todo[0]]) + todo[1..]
    ensures done + ([todo[0]] + rest) == (done + [todo[0]]) + rest
  {
  }
}
