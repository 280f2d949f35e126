/**
  The file-name matcher of `find`: a loop that remembers only the most recent `*`, against the
  language of the pattern. Patterns and texts are byte strings.
 */
module Glob {
  import opened Wrappers

  /** `*` stands for any run of bytes, `?` for any one byte, any other byte for itself. */
  ghost predicate Matches(p: string, t: string)
    decreases |p|
  {
    if p == "" then t == ""
    else if p[0] == '*' then exists k :: 0 <= k <= |t| && Matches(p[1..], t[k..])
    else t != "" && (p[0] == '?' || p[0] == t[0]) && Matches(p[1..], t[1..])
  }

  predicate AllStars(p: string) {
    forall k :: 0 <= k < |p| ==> p[k] == '*'
  }

  /** The state of the loop: how far it is in the pattern and the text, and the last `*` with the
      position in the text where its run currently ends. */
  datatype State = State(pi: nat, ti: nat, star: Option<nat>, resume: nat)

  predicate InRange(p: string, t: string, s: State) {
    && s.pi <= |p| && s.resume <= s.ti <= |t|
    && (s.star.Some? ==> s.star.value < |p| && p[s.star.value] == '*')
  }

  /** What the loop answers from a state. A turn either moves the end of the star's run forward or, with
      that unchanged, moves forward in the pattern. */
  predicate Answer(p: string, t: string, s: State)
    requires InRange(p, t, s)
    decreases |t| - s.resume, |p| - s.pi
  {
    if s.ti == |t| then AllStars(p[s.pi..])
    else if s.pi < |p| && (p[s.pi] == '?' || p[s.pi] == t[s.ti]) then Answer(p, t, s.(pi := s.pi + 1, ti := s.ti + 1))
    else if s.pi < |p| && p[s.pi] == '*' then Answer(p, t, State(s.pi + 1, s.ti, Some(s.pi), s.ti))
    else if s.star.Some? then Answer(p, t, State(s.star.value + 1, s.resume + 1, s.star, s.resume + 1))
    else false
  }

  predicate GlobMatches(p: string, t: string) {
    Answer(p, t, State(0, 0, None, 0))
  }

  method GlobMatch(p: string, t: string) returns (r: bool)
    ensures r == GlobMatches(p, t)
    ensures r ==> Matches(p, t)
    ensures '*' !in t ==> (r <==> Matches(p, t))
  {
    GlobIsSound(p, t);
    if '*' !in t {
      GlobIsExact(p, t);
    }
    var pi, ti := 0, 0;
    var star: Option<nat> := None;
    var resume := 0;
    while ti < |t|
      invariant 0 <= pi && 0 <= resume && InRange(p, t, State(pi, ti, star, resume))
      invariant Answer(p, t, State(pi, ti, star, resume)) == GlobMatches(p, t)
      decreases |t| - resume, |p| - pi
    {
      if pi < |p| && (p[pi] == '?' || p[pi] == t[ti]) {
        pi := pi + 1;
        ti := ti + 1;
      } else if pi < |p| && p[pi] == '*' {
        star := Some(pi);
        resume := ti;
        pi := pi + 1;
      } else if star.Some? {
        pi := star.value + 1;
        resume := resume + 1;
        ti := resume;
      } else {
        return false;
      }
    }
    while pi < |p| && p[pi] == '*'
      invariant 0 <= pi <= |p|
      invariant AllStars(p[pi..]) == GlobMatches(p, t)
    {
      assert p[pi..] == [p[pi]] + p[pi + 1..];
      pi := pi + 1;
    }
    if pi < |p| {
      assert p[pi..][0] == p[pi];
    }
    return pi == |p|;
  }

  // ---- The answer and the language ---------------------------------------------------------------

  /** The rest matches from here, or with a longer run for the last star. */
  ghost predicate Hopeful(p: string, t: string, s: State)
    requires InRange(p, t, s)
  {
    || Matches(p[s.pi..], t[s.ti..])
    || (s.star.Some? && exists k :: s.resume < k <= |t| && Matches(p[s.star.value + 1..], t[k..]))
  }

  lemma {:induction false} StarsMatchEmpty(p: string)
    ensures Matches(p, "") <==> AllStars(p)
  {
    if p != "" {
      StarsMatchEmpty(p[1..]);
      assert p == [p[0]] + p[1..];
      if p[0] == '*' {
        assert ""[0..] == "";
      }
    }
  }

  /** A `*` matches here exactly when what follows it matches here or further on. */
  lemma StarHere(p: string, t: string, pi: nat, ti: nat)
    requires pi < |p| && p[pi] == '*' && ti <= |t|
    ensures Matches(p[pi..], t[ti..]) <==> exists k :: ti <= k <= |t| && Matches(p[pi + 1..], t[k..])
  {
    assert p[pi..][1..] == p[pi + 1..];
    assert forall k :: 0 <= k <= |t| - ti ==> t[ti..][k..] == t[ti + k..];
    if Matches(p[pi..], t[ti..]) {
      var k :| 0 <= k <= |t[ti..]| && Matches(p[pi..][1..], t[ti..][k..]);
      assert Matches(p[pi + 1..], t[ti + k..]);
    }
    if exists k :: ti <= k <= |t| && Matches(p[pi + 1..], t[k..]) {
      var k :| ti <= k <= |t| && Matches(p[pi + 1..], t[k..]);
      assert t[ti..][k - ti..] == t[k..];
    }
  }

  /** A true answer is right, whatever the text. */
  lemma {:induction false} AnswerIsSound(p: string, t: string, s: State)
    requires InRange(p, t, s) && Answer(p, t, s)
    ensures Hopeful(p, t, s)
    decreases |t| - s.resume, |p| - s.pi
  {
    if s.ti == |t| {
      StarsMatchEmpty(p[s.pi..]);
      assert t[s.ti..] == "";
    } else if s.pi < |p| && (p[s.pi] == '?' || p[s.pi] == t[s.ti]) {
      AnswerIsSound(p, t, s.(pi := s.pi + 1, ti := s.ti + 1));
      assert p[s.pi..][1..] == p[s.pi + 1..] && t[s.ti..][1..] == t[s.ti + 1..];
    } else if s.pi < |p| && p[s.pi] == '*' {
      hide Matches;
      AnswerIsSound(p, t, State(s.pi + 1, s.ti, Some(s.pi), s.ti));
      StarHere(p, t, s.pi, s.ti);
    } else {
      hide Matches;
      AnswerIsSound(p, t, State(s.star.value + 1, s.resume + 1, s.star, s.resume + 1));
    }
  }

  /** Since the last star, pattern and text have moved in step, over no other star. */
  ghost predicate InStep(p: string, s: State) {
    s.star.Some? ==>
      && s.star.value < s.pi <= |p|
      && s.pi - (s.star.value + 1) == s.ti - s.resume
      && forall k :: s.star.value < k < s.pi ==> p[k] != '*'
  }

  /** A star-free stretch of the pattern takes up as many bytes of the text. */
  lemma {:induction false} StarFreeStretch(p: string, t: string, a: nat, b: nat, k: nat)
    requires a <= b <= |p| && k <= |t| && forall j :: a <= j < b ==> p[j] != '*'
    requires Matches(p[a..], t[k..])
    ensures k + (b - a) <= |t| && Matches(p[b..], t[k + (b - a)..])
    decreases b - a
  {
    if a < b {
      assert p[a..][1..] == p[a + 1..] && t[k..][1..] == t[k + 1..];
      StarFreeStretch(p, t, a + 1, b, k + 1);
    }
  }

  /** On a text without `*`, no hope is lost: a run that ends later for an old star is no help once a newer
      star has been reached. */
  lemma {:induction false} AnswerIsComplete(p: string, t: string, s: State)
    requires InRange(p, t, s) && InStep(p, s) && '*' !in t && Hopeful(p, t, s)
    ensures Answer(p, t, s)
    decreases |t| - s.resume, |p| - s.pi
  {
    if s.ti == |t| {
      TextIsUsedUp(p, t, s);
    } else if s.pi < |p| && (p[s.pi] == '?' || p[s.pi] == t[s.ti]) {
      assert p[s.pi..][1..] == p[s.pi + 1..] && t[s.ti..][1..] == t[s.ti + 1..];
      AnswerIsComplete(p, t, s.(pi := s.pi + 1, ti := s.ti + 1));
    } else if s.pi < |p| && p[s.pi] == '*' {
      NewStarCovers(p, t, s);
      StarHere(p, t, s.pi, s.ti);
      AnswerIsComplete(p, t, State(s.pi + 1, s.ti, Some(s.pi), s.ti));
    } else {
      MismatchLengthens(p, t, s);
      AnswerIsComplete(p, t, State(s.star.value + 1, s.resume + 1, s.star, s.resume + 1));
    }
  }

  lemma NoMatchHere(p: string, t: string, pi: nat, ti: nat)
    requires pi <= |p| && ti < |t|
    requires pi < |p| ==> p[pi] != '?' && p[pi] != t[ti] && p[pi] != '*'
    ensures !Matches(p[pi..], t[ti..])
  {
    if pi < |p| {
      assert p[pi..][0] == p[pi] && t[ti..][0] == t[ti];
    }
  }

  /** On a mismatch the only hope left is a longer run for the last star. */
  lemma MismatchLengthens(p: string, t: string, s: State)
    requires InRange(p, t, s) && s.ti < |t| && Hopeful(p, t, s)
    requires s.pi < |p| ==> p[s.pi] != '?' && p[s.pi] != t[s.ti] && p[s.pi] != '*'
    ensures s.star.Some? && Hopeful(p, t, State(s.star.value + 1, s.resume + 1, s.star, s.resume + 1))
  {
    hide Matches;
    NoMatchHere(p, t, s.pi, s.ti);
    var k :| s.resume < k <= |t| && Matches(p[s.star.value + 1..], t[k..]);
  }

  lemma TextIsUsedUp(p: string, t: string, s: State)
    requires InRange(p, t, s) && InStep(p, s) && s.ti == |t| && Hopeful(p, t, s)
    ensures AllStars(p[s.pi..])
  {
    assert t[s.ti..] == "";
    StarsMatchEmpty(p[s.pi..]);
    if s.star.Some? {
      LaterRunsAreTooLate(p, t, s);
    }
  }

  lemma LaterRunsAreTooLate(p: string, t: string, s: State)
    requires InRange(p, t, s) && InStep(p, s) && s.ti == |t|
    requires s.star.Some?
    ensures forall k :: s.resume < k <= |t| ==> !Matches(p[s.star.value + 1..], t[k..])
  {
    forall k | s.resume < k <= |t| ensures !Matches(p[s.star.value + 1..], t[k..]) {
      if Matches(p[s.star.value + 1..], t[k..]) {
        StarFreeStretch(p, t, s.star.value + 1, s.pi, k);
      }
    }
  }

  lemma NewStarCovers(p: string, t: string, s: State)
    requires InRange(p, t, s) && InStep(p, s) && s.pi < |p| && p[s.pi] == '*' && Hopeful(p, t, s)
    ensures Matches(p[s.pi..], t[s.ti..])
  {
    hide Matches;
    if !Matches(p[s.pi..], t[s.ti..]) {
      var k :| s.resume < k <= |t| && Matches(p[s.star.value + 1..], t[k..]);
      StarFreeStretch(p, t, s.star.value + 1, s.pi, k);
      var at := k + (s.pi - (s.star.value + 1));
      StarHere(p, t, s.pi, at);
      var j :| at <= j <= |t| && Matches(p[s.pi + 1..], t[j..]);
      StarHere(p, t, s.pi, s.ti);
    }
  }

  lemma GlobIsSound(p: string, t: string)
    ensures GlobMatches(p, t) ==> Matches(p, t)
  {
    if GlobMatches(p, t) {
      AnswerIsSound(p, t, State(0, 0, None, 0));
      assert p[0..] == p && t[0..] == t;
    }
  }

  lemma GlobIsExact(p: string, t: string)
    requires '*' !in t
    ensures GlobMatches(p, t) <==> Matches(p, t)
  {
    GlobIsSound(p, t);
    if Matches(p, t) {
      assert p[0..] == p && t[0..] == t;
      AnswerIsComplete(p, t, State(0, 0, None, 0));
    }
  }

  // ---- Texts that hold a `*` --------------------------------------------------------------------------

  function Marks(n: nat): (s: string)
    ensures |s| == n && forall k :: 0 <= k < n ==> s[k] == '?'
  {
    seq(n, _ => '?')
  }

  /** A pattern that matches `t` with an empty run for its star, placed where the text has a `*`. */
  function Trap(t: string, k: nat): string
    requires k < |t|
  {
    Marks(k) + "*" + Marks(|t| - k)
  }

  lemma {:induction false} MarksMatch(n: nat, t: string)
    requires |t| == n
    ensures Matches(Marks(n), t)
  {
    if n > 0 {
      MarksMatch(n - 1, t[1..]);
      assert Marks(n)[1..] == Marks(n - 1);
    }
  }

  lemma {:induction false} TrapMatches(t: string, k: nat)
    requires k < |t|
    ensures Matches(Trap(t, k), t)
  {
    if k == 0 {
      assert Trap(t, 0)[1..] == Marks(|t|) && t[0..] == t;
      MarksMatch(|t|, t);
    } else {
      assert Trap(t, k)[1..] == Trap(t[1..], k - 1);
      TrapMatches(t[1..], k - 1);
    }
  }

  /** The matcher takes the star for the literal byte and runs out of text. */
  lemma {:induction false} TrapSprings(t: string, k: nat, i: nat)
    requires k < |t| && t[k] == '*' && i <= |t|
    ensures !Answer(Trap(t, k), t, State(i, i, None, 0))
    decreases |t| - i
  {
    var p := Trap(t, k);
    if i < |t| {
      assert p[i] == '?' || (i == k && p[i] == t[i]);
      TrapSprings(t, k, i + 1);
    } else {
      assert p[i..][0] == '?';
    }
  }

  /** The matcher decides the pattern language on a text, for every pattern, exactly when the text has no
      `*` in it: the literal comparison comes before the star, so a star at a `*` is taken literally. */
  lemma GlobExactIff(t: string)
    ensures (forall p :: GlobMatches(p, t) <==> Matches(p, t)) <==> '*' !in t
  {
    if '*' !in t {
      forall p ensures GlobMatches(p, t) <==> Matches(p, t) {
        GlobIsExact(p, t);
      }
    } else {
      var k :| 0 <= k < |t| && t[k] == '*';
      TrapMatches(t, k);
      TrapSprings(t, k, 0);
      assert GlobMatches(Trap(t, k), t) != Matches(Trap(t, k), t);
    }
  }
}
