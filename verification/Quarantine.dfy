/**
  The quarantine store's two disk budgets: each session's own counter, and a counter shared by all
  sessions that is loaded, checked and added to in separate steps.
 */
module Quarantine {

  const SESSION_MULTIPLIER: nat := 32

  datatype Limits = Limits(maxUpload: nat, globalCap: nat)

  /** Where a session is with an upload of `len` bytes: it has loaded the shared counter, or it has passed
      both checks and is writing. */
  datatype Phase = Idle | Loaded(len: nat, seen: nat) | Admitted(len: nat)

  datatype Session = Session(own: nat, phase: Phase)

  datatype State = State(shared: nat, sessions: seq<Session>)

  /** The scheduler picks a session; `len` is the next upload's stored length (an upload is cut at the
      per-file cap), and `stored` whether the write put new bytes on disk rather than finding the same
      payload there or failing. */
  datatype Turn = Turn(who: nat, len: nat, stored: bool)

  predicate Fair(lim: Limits, n: nat, t: Turn) {
    t.who < n && t.len <= lim.maxUpload
  }

  function Step(lim: Limits, s: State, t: Turn): State
    requires Fair(lim, |s.sessions|, t)
  {
    var me := s.sessions[t.who];
    match me.phase
    case Idle => s.(sessions := s.sessions[t.who := me.(phase := Loaded(t.len, s.shared))])
    case Loaded(len, seen) =>
      var admitted := me.own + len <= SESSION_MULTIPLIER * lim.maxUpload && seen + len <= lim.globalCap;
      s.(sessions := s.sessions[t.who := me.(phase := if admitted then Admitted(len) else Idle)])
    case Admitted(len) =>
      var written := if t.stored then len else 0;
      State(s.shared + written, s.sessions[t.who := Session(me.own + written, Idle)])
  }

  function Start(initial: nat, n: nat): State {
    State(initial, seq(n, _ => Session(0, Idle)))
  }

  function Run(lim: Limits, initial: nat, n: nat, turns: seq<Turn>): (s: State)
    requires AllFair(lim, n, turns)
    ensures |s.sessions| == n
  {
    if turns == [] then Start(initial, n)
    else Step(lim, Run(lim, initial, n, turns[..|turns| - 1]), turns[|turns| - 1])
  }

  /** Bytes admitted and not yet added. */
  function InFlight(x: Session): nat {
    if x.phase.Admitted? then x.phase.len else 0
  }

  /** Bytes a session may still add without loading the counter again. */
  function Claim(lim: Limits, x: Session): nat {
    match x.phase
    case Idle => 0
    case Loaded(len, seen) => if seen + len <= lim.globalCap then len else 0
    case Admitted(len) => len
  }

  function AllInFlight(xs: seq<Session>): nat {
    if xs == [] then 0 else AllInFlight(xs[..|xs| - 1]) + InFlight(xs[|xs| - 1])
  }

  function AllClaims(lim: Limits, xs: seq<Session>): nat {
    if xs == [] then 0 else AllClaims(lim, xs[..|xs| - 1]) + Claim(lim, xs[|xs| - 1])
  }

  function Bound(lim: Limits, initial: nat, n: nat): int {
    var overshoot := lim.globalCap + (n - 1) * lim.maxUpload;
    if initial > overshoot then initial else overshoot
  }

  ghost predicate SessionOk(lim: Limits, x: Session) {
    && x.own <= SESSION_MULTIPLIER * lim.maxUpload
    && (x.phase.Loaded? ==> x.phase.len <= lim.maxUpload)
    && (x.phase.Admitted? ==> x.phase.len <= lim.maxUpload && x.own + x.phase.len <= SESSION_MULTIPLIER * lim.maxUpload)
  }

  ghost predicate Inv(lim: Limits, initial: nat, s: State) {
    && (forall i :: 0 <= i < |s.sessions| ==> SessionOk(lim, s.sessions[i]))
    && s.shared + AllClaims(lim, s.sessions) <= Bound(lim, initial, |s.sessions|)
  }

  lemma {:induction false} ClaimsUpdate(lim: Limits, xs: seq<Session>, i: nat, x: Session)
    requires i < |xs|
    ensures AllClaims(lim, xs[i := x]) == AllClaims(lim, xs) - Claim(lim, xs[i]) + Claim(lim, x)
  {
    var last := |xs| - 1;
    if i < last {
      ClaimsUpdate(lim, xs[..last], i, x);
      assert xs[i := x][..last] == xs[..last][i := x];
    } else {
      assert xs[i := x][..last] == xs[..last];
    }
  }

  /** The other sessions' claims are at most one upload each. */
  lemma {:induction false} OthersClaim(lim: Limits, xs: seq<Session>, i: nat)
    requires i < |xs| && forall k :: 0 <= k < |xs| ==> SessionOk(lim, xs[k])
    ensures AllClaims(lim, xs) - Claim(lim, xs[i]) <= (|xs| - 1) * lim.maxUpload
  {
    var last := |xs| - 1;
    assert last * lim.maxUpload == (last - 1) * lim.maxUpload + lim.maxUpload;
    if i < last {
      OthersClaim(lim, xs[..last], i);
    } else {
      ClaimsFit(lim, xs[..last]);
    }
  }

  lemma {:induction false} ClaimsFit(lim: Limits, xs: seq<Session>)
    requires forall k :: 0 <= k < |xs| ==> SessionOk(lim, xs[k])
    ensures AllClaims(lim, xs) <= |xs| * lim.maxUpload
  {
    if xs != [] {
      ClaimsFit(lim, xs[..|xs| - 1]);
      assert |xs| * lim.maxUpload == (|xs| - 1) * lim.maxUpload + lim.maxUpload;
    }
  }

  lemma StepKeepsInv(lim: Limits, initial: nat, s: State, t: Turn)
    requires Fair(lim, |s.sessions|, t) && Inv(lim, initial, s)
    ensures Inv(lim, initial, Step(lim, s, t))
  {
    hide AllClaims, Bound;
    var i := t.who;
    BoundCovers(lim, initial, |s.sessions|);
    assert SessionOk(lim, s.sessions[i]);
    ClaimsUpdate(lim, s.sessions, i, Step(lim, s, t).sessions[i]);
    OthersClaim(lim, s.sessions, i);
  }

  lemma BoundCovers(lim: Limits, initial: nat, n: nat)
    ensures Bound(lim, initial, n) >= lim.globalCap + (n - 1) * lim.maxUpload
  {
  }

  lemma {:induction false} StartHolds(lim: Limits, initial: nat, n: nat)
    ensures forall i :: 0 <= i < n ==> SessionOk(lim, Start(initial, n).sessions[i])
    ensures AllClaims(lim, Start(initial, n).sessions) == 0
  {
    if n > 0 {
      StartHolds(lim, initial, n - 1);
      assert Start(initial, n).sessions[..n - 1] == Start(initial, n - 1).sessions;
    }
  }

  lemma {:induction false} RunKeepsInv(lim: Limits, initial: nat, n: nat, turns: seq<Turn>)
    requires forall t :: t in turns ==> Fair(lim, n, t)
    ensures Inv(lim, initial, Run(lim, initial, n, turns))
  {
    if turns == [] {
      StartHolds(lim, initial, n);
    } else {
      RunKeepsInv(lim, initial, n, turns[..|turns| - 1]);
      StepKeepsInv(lim, initial, Run(lim, initial, n, turns[..|turns| - 1]), turns[|turns| - 1]);
    }
  }

  lemma {:induction false} InFlightIsClaimed(lim: Limits, xs: seq<Session>)
    ensures AllInFlight(xs) <= AllClaims(lim, xs)
  {
    if xs != [] {
      InFlightIsClaimed(lim, xs[..|xs| - 1]);
    }
  }

  /** In every interleaving of `n` sessions, what is counted plus what is admitted stays within the global cap
      plus one upload for every session but one, or never grows past where it started; and no session counts
      more than 32 uploads' worth. */
  lemma BudgetsHold(lim: Limits, initial: nat, n: nat, turns: seq<Turn>)
    requires forall t :: t in turns ==> Fair(lim, n, t)
    ensures var s := Run(lim, initial, n, turns);
      && s.shared + AllInFlight(s.sessions) <= Bound(lim, initial, n)
      && forall i :: 0 <= i < n ==> s.sessions[i].own <= SESSION_MULTIPLIER * lim.maxUpload
  {
    var s := Run(lim, initial, n, turns);
    RunKeepsInv(lim, initial, n, turns);
    InFlightIsClaimed(lim, s.sessions);
    forall i | 0 <= i < n ensures s.sessions[i].own <= SESSION_MULTIPLIER * lim.maxUpload {
      assert SessionOk(lim, s.sessions[i]);
    }
  }

  // ---- The bound is reached ----------------------------------------------------------------------------

  /** `n` sessions with a full upload each: the first `loaded` have loaded the counter, the first `admitted`
      of them have passed the checks. */
  function Race(lim: Limits, initial: nat, n: nat, loaded: nat, admitted: nat): State {
    State(initial, seq(n, i =>
      Session(0, if i < admitted then Admitted(lim.maxUpload) else if i < loaded then Loaded(lim.maxUpload, initial) else Idle)))
  }

  function TurnsInOrder(lim: Limits, n: nat): (turns: seq<Turn>)
    ensures |turns| == n && forall k :: 0 <= k < n ==> turns[k] == Turn(k, lim.maxUpload, true)
  {
    seq(n, k requires 0 <= k < n => Turn(k, lim.maxUpload, true))
  }

  lemma {:induction false} EveryoneLoads(lim: Limits, initial: nat, n: nat, k: nat)
    requires k <= n
    ensures forall t :: t in TurnsInOrder(lim, k) ==> Fair(lim, n, t)
    ensures Run(lim, initial, n, TurnsInOrder(lim, k)) == Race(lim, initial, n, k, 0)
  {
    if k == 0 {
      assert Start(initial, n) == Race(lim, initial, n, 0, 0);
    } else {
      EveryoneLoads(lim, initial, n, k - 1);
      assert TurnsInOrder(lim, k)[..k - 1] == TurnsInOrder(lim, k - 1);
      assert Step(lim, Race(lim, initial, n, k - 1, 0), Turn(k - 1, lim.maxUpload, true)) == Race(lim, initial, n, k, 0);
    }
  }

  lemma {:induction false} EveryoneIsAdmitted(lim: Limits, initial: nat, n: nat, k: nat)
    requires k <= n && initial + lim.maxUpload <= lim.globalCap
    ensures forall t :: t in TurnsInOrder(lim, n) + TurnsInOrder(lim, k) ==> Fair(lim, n, t)
    ensures Run(lim, initial, n, TurnsInOrder(lim, n) + TurnsInOrder(lim, k)) == Race(lim, initial, n, n, k)
  {
    var turns := TurnsInOrder(lim, n) + TurnsInOrder(lim, k);
    EveryoneLoads(lim, initial, n, n);
    if k == 0 {
      assert turns == TurnsInOrder(lim, n);
    } else {
      EveryoneIsAdmitted(lim, initial, n, k - 1);
      assert turns[..|turns| - 1] == TurnsInOrder(lim, n) + TurnsInOrder(lim, k - 1);
      assert turns[|turns| - 1] == Turn(k - 1, lim.maxUpload, true);
      assert Step(lim, Race(lim, initial, n, n, k - 1), Turn(k - 1, lim.maxUpload, true)) == Race(lim, initial, n, n, k);
    }
  }

  lemma {:induction false} AllAdmittedInFlight(lim: Limits, xs: seq<Session>)
    requires forall i :: 0 <= i < |xs| ==> xs[i].phase == Admitted(lim.maxUpload)
    ensures AllInFlight(xs) == |xs| * lim.maxUpload
  {
    if xs != [] {
      AllAdmittedInFlight(lim, xs[..|xs| - 1]);
      assert |xs| * lim.maxUpload == (|xs| - 1) * lim.maxUpload + lim.maxUpload;
    }
  }

  /** No smaller bound would do: when every session loads the counter before any of them adds to it, the
      overshoot is one upload for every session but one. */
  lemma BudgetIsExact(lim: Limits, n: nat)
    requires n >= 1 && lim.globalCap >= lim.maxUpload
    ensures var initial := lim.globalCap - lim.maxUpload;
      var turns := TurnsInOrder(lim, n) + TurnsInOrder(lim, n);
      && (forall t :: t in turns ==> Fair(lim, n, t))
      && var s := Run(lim, initial, n, turns);
         s.shared + AllInFlight(s.sessions) == Bound(lim, initial, n)
  {
    var initial := lim.globalCap - lim.maxUpload;
    EveryoneIsAdmitted(lim, initial, n, n);
    AllAdmittedInFlight(lim, Race(lim, initial, n, n, n).sessions);
    assert n * lim.maxUpload == (n - 1) * lim.maxUpload + lim.maxUpload;
    assert (n - 1) * lim.maxUpload >= 0;
  }

  // ---- When the global cap is respected ------------------------------------------------------------------

  predicate AllFair(lim: Limits, n: nat, turns: seq<Turn>) {
    forall t :: t in turns ==> Fair(lim, n, t)
  }

  function Max(a: nat, b: nat): nat {
    if a >= b then a else b
  }

  /** Every interleaving leaves the counter within the global cap, or where it started. */
  ghost predicate CapHolds(lim: Limits, initial: nat, n: nat) {
    forall turns :: AllFair(lim, n, turns) ==> Run(lim, initial, n, turns).shared <= Max(initial, lim.globalCap)
  }

  /** There is nobody to race with, nothing to race for, no room to begin with, or room for everything the
      sessions' own budgets let in. */
  predicate NoRace(lim: Limits, initial: nat, n: nat) {
    n <= 1 || lim.maxUpload == 0 || initial >= lim.globalCap || initial + n * Budget(lim) <= lim.globalCap
  }

  /** What one session may put into quarantine. */
  function Budget(lim: Limits): nat {
    SESSION_MULTIPLIER * lim.maxUpload
  }

  function SumOwn(xs: seq<Session>): nat {
    if xs == [] then 0 else SumOwn(xs[..|xs| - 1]) + xs[|xs| - 1].own
  }

  lemma {:induction false} SumOwnUpdate(xs: seq<Session>, i: nat, x: Session)
    requires i < |xs|
    ensures SumOwn(xs[i := x]) == SumOwn(xs) - xs[i].own + x.own
  {
    var last := |xs| - 1;
    if i < last {
      SumOwnUpdate(xs[..last], i, x);
      assert xs[i := x][..last] == xs[..last][i := x];
    } else {
      assert xs[i := x][..last] == xs[..last];
    }
  }

  lemma {:induction false} SumOwnAtMost(xs: seq<Session>, each: nat)
    requires forall k :: 0 <= k < |xs| ==> xs[k].own <= each
    ensures SumOwn(xs) <= |xs| * each
  {
    if xs != [] {
      SumOwnAtMost(xs[..|xs| - 1], each);
      assert |xs| * each == (|xs| - 1) * each + each;
    }
  }

  lemma {:induction false} StartOwnsNothing(initial: nat, n: nat)
    ensures SumOwn(Start(initial, n).sessions) == 0
  {
    if n > 0 {
      StartOwnsNothing(initial, n - 1);
      assert Start(initial, n).sessions[..n - 1] == Start(initial, n - 1).sessions;
    }
  }

  /** The shared counter is what was there and what the sessions added. */
  lemma {:induction false} SharedIsOwned(lim: Limits, initial: nat, n: nat, turns: seq<Turn>)
    requires AllFair(lim, n, turns)
    ensures var s := Run(lim, initial, n, turns); s.shared == initial + SumOwn(s.sessions)
  {
    if turns == [] {
      StartOwnsNothing(initial, n);
    } else {
      var before, t := turns[..|turns| - 1], turns[|turns| - 1];
      SharedIsOwned(lim, initial, n, before);
      var s := Run(lim, initial, n, before);
      SumOwnUpdate(s.sessions, t.who, Step(lim, s, t).sessions[t.who]);
    }
  }

  /** With no room to begin with only empty uploads are admitted. */
  predicate IsStuck(x: Session, initial: nat) {
    (x.phase.Loaded? ==> x.phase.seen == initial) && (x.phase.Admitted? ==> x.phase.len == 0)
  }

  ghost predicate AllStuck(s: State, initial: nat) {
    s.shared == initial && forall k :: 0 <= k < |s.sessions| ==> IsStuck(s.sessions[k], initial)
  }

  lemma {:induction false} NoRoomStaysStuck(lim: Limits, initial: nat, n: nat, turns: seq<Turn>)
    requires AllFair(lim, n, turns) && initial >= lim.globalCap
    ensures AllStuck(Run(lim, initial, n, turns), initial)
  {
    if turns != [] {
      var before, t := turns[..|turns| - 1], turns[|turns| - 1];
      assert Fair(lim, n, t);
      NoRoomStaysStuck(lim, initial, n, before);
      var s := Run(lim, initial, n, before);
      assert IsStuck(s.sessions[t.who], initial);
    }
  }

  /** The sessions' own budgets bound what is added. */
  lemma BudgetsBound(lim: Limits, initial: nat, n: nat, turns: seq<Turn>)
    requires AllFair(lim, n, turns)
    ensures Run(lim, initial, n, turns).shared <= initial + n * Budget(lim)
  {
    hide Run;
    BudgetsHold(lim, initial, n, turns);
    SharedIsOwned(lim, initial, n, turns);
    SumOwnAtMost(Run(lim, initial, n, turns).sessions, Budget(lim));
  }

  lemma FewBound(lim: Limits, initial: nat, n: nat)
    requires n <= 1 || lim.maxUpload == 0
    ensures Bound(lim, initial, n) <= Max(initial, lim.globalCap)
  {
    assert n == 0 ==> (n - 1) * lim.maxUpload <= 0;
  }

  lemma NoRaceKeepsCap(lim: Limits, initial: nat, n: nat)
    requires NoRace(lim, initial, n)
    ensures CapHolds(lim, initial, n)
  {
    hide Run, Bound, Budget;
    forall turns | AllFair(lim, n, turns)
      ensures Run(lim, initial, n, turns).shared <= Max(initial, lim.globalCap)
    {
      if initial >= lim.globalCap {
        NoRoomStaysStuck(lim, initial, n, turns);
      } else if n <= 1 || lim.maxUpload == 0 {
        BudgetsHold(lim, initial, n, turns);
        FewBound(lim, initial, n);
      } else {
        BudgetsBound(lim, initial, n, turns);
      }
    }
  }

  // ---- A run that breaks it ------------------------------------------------------------------------------

  /** What session `i` may add while the first two keep a byte of their budgets for the race. */
  function Spare(lim: Limits, i: nat): int {
    Budget(lim) - if i < 2 then 1 else 0
  }

  /** Every session is idle, the first two have a byte of their budgets left, and `m` bytes were added. */
  ghost predicate Filled(lim: Limits, initial: nat, n: nat, turns: seq<Turn>, m: nat)
  {
    && AllFair(lim, n, turns)
    && var s := Run(lim, initial, n, turns);
       && s.shared == initial + m
       && forall i :: 0 <= i < n ==> s.sessions[i].phase == Idle && s.sessions[i].own <= Spare(lim, i)
  }

  lemma {:induction false} SumOwnAtLeast(lim: Limits, xs: seq<Session>)
    requires forall i :: 0 <= i < |xs| ==> xs[i].own >= Spare(lim, i)
    ensures SumOwn(xs) >= |xs| * Budget(lim) - (if |xs| <= 2 then |xs| else 2)
  {
    if xs != [] {
      SumOwnAtLeast(lim, xs[..|xs| - 1]);
      hide Budget;
      var each := Budget(lim);
      assert |xs| * each == (|xs| - 1) * each + each;
    }
  }

  lemma OneTurn(lim: Limits, initial: nat, n: nat, turns: seq<Turn>, t: Turn)
    requires AllFair(lim, n, turns) && Fair(lim, n, t)
    ensures AllFair(lim, n, turns + [t])
    ensures Run(lim, initial, n, turns + [t]) == Step(lim, Run(lim, initial, n, turns), t)
  {
    assert (turns + [t])[..|turns|] == turns;
  }

  /** One session uploads one byte, undisturbed. */
  lemma OneByte(lim: Limits, initial: nat, n: nat, turns: seq<Turn>, i: nat)
    requires AllFair(lim, n, turns) && i < n && lim.maxUpload >= 1
    requires var s := Run(lim, initial, n, turns);
      s.sessions[i].phase == Idle && s.shared < lim.globalCap && s.sessions[i].own < Budget(lim)
    ensures var t := Turn(i, 1, true);
      var s := Run(lim, initial, n, turns);
      && AllFair(lim, n, turns + [t] + [t] + [t])
      && Run(lim, initial, n, turns + [t] + [t] + [t]) ==
           State(s.shared + 1, s.sessions[i := Session(s.sessions[i].own + 1, Idle)])
  {
    hide Run, AllFair, Step, Budget;
    ThreeTurns(lim, initial, n, turns, Turn(i, 1, true));
    ThreeSteps(lim, Run(lim, initial, n, turns), i);
  }

  lemma ThreeTurns(lim: Limits, initial: nat, n: nat, turns: seq<Turn>, t: Turn)
    requires AllFair(lim, n, turns) && Fair(lim, n, t)
    ensures AllFair(lim, n, turns + [t] + [t] + [t])
    ensures var s := Run(lim, initial, n, turns);
      Run(lim, initial, n, turns + [t] + [t] + [t]) == Step(lim, Step(lim, Step(lim, s, t), t), t)
  {
    hide Run, AllFair, Step;
    OneTurn(lim, initial, n, turns, t);
    OneTurn(lim, initial, n, turns + [t], t);
    OneTurn(lim, initial, n, turns + [t] + [t], t);
  }

  lemma ThreeSteps(lim: Limits, s: State, i: nat)
    requires i < |s.sessions| && lim.maxUpload >= 1
    requires s.sessions[i].phase == Idle && s.shared < lim.globalCap && s.sessions[i].own < Budget(lim)
    ensures var t := Turn(i, 1, true);
      Step(lim, Step(lim, Step(lim, s, t), t), t) == State(s.shared + 1, s.sessions[i := Session(s.sessions[i].own + 1, Idle)])
  {
    var t, me := Turn(i, 1, true), s.sessions[i];
    var s1 := Step(lim, s, t);
    assert s1 == State(s.shared, s.sessions[i := me.(phase := Loaded(1, s.shared))]);
    var s2 := Step(lim, s1, t);
    assert s2 == State(s.shared, s1.sessions[i := me.(phase := Admitted(1))]);
    assert s1.sessions[i := me.(phase := Admitted(1))] == s.sessions[i := me.(phase := Admitted(1))];
    assert s.sessions[i := me.(phase := Admitted(1))][i := Session(me.own + 1, Idle)] == s.sessions[i := Session(me.own + 1, Idle)];
  }

  /** While there are bytes to spare, some session has one. */
  lemma SomeoneHasSpare(lim: Limits, xs: seq<Session>) returns (i: nat)
    requires |xs| >= 2 && SumOwn(xs) < |xs| * Budget(lim) - 2
    ensures i < |xs| && xs[i].own < Spare(lim, i)
  {
    hide Budget, Spare;
    if forall k :: 0 <= k < |xs| ==> xs[k].own >= Spare(lim, k) {
      SumOwnAtLeast(lim, xs);
    }
    i :| 0 <= i < |xs| && xs[i].own < Spare(lim, i);
  }

  /** Any number of bytes short of the cap and of the budgets can be uploaded one by one. */
  lemma {:induction false} FillUp(lim: Limits, initial: nat, n: nat, m: nat) returns (turns: seq<Turn>)
    requires n >= 2 && lim.maxUpload >= 1 && initial + m < lim.globalCap
    requires m <= n * Budget(lim) - 2
    ensures Filled(lim, initial, n, turns, m)
  {
    if m == 0 {
      turns := [];
    } else {
      var before := FillUp(lim, initial, n, m - 1);
      var s := Run(lim, initial, n, before);
      SharedIsOwned(lim, initial, n, before);
      hide Run, SumOwn;
      var i := SomeoneHasSpare(lim, s.sessions);
      OneByte(lim, initial, n, before, i);
      var t := Turn(i, 1, true);
      turns := before + [t] + [t] + [t];
    }
  }

  /** One byte short of the cap, two sessions load the counter, both pass, and both add a byte. */
  lemma TwoRace(lim: Limits, initial: nat, n: nat, turns: seq<Turn>, m: nat) returns (raced: seq<Turn>)
    requires n >= 2 && lim.maxUpload >= 1 && initial + m + 1 == lim.globalCap && Filled(lim, initial, n, turns, m)
    ensures AllFair(lim, n, raced) && Run(lim, initial, n, raced).shared == lim.globalCap + 1
  {
    var a, b := Turn(0, 1, true), Turn(1, 1, true);
    var s := Run(lim, initial, n, turns);
    assert s.sessions[0].own <= Spare(lim, 0) && s.sessions[1].own <= Spare(lim, 1);
    var t1 := turns + [a];
    var t2 := t1 + [b];
    var t3 := t2 + [a];
    var t4 := t3 + [b];
    var t5 := t4 + [a];
    raced := t5 + [b];
    OneTurn(lim, initial, n, turns, a);
    OneTurn(lim, initial, n, t1, b);
    OneTurn(lim, initial, n, t2, a);
    OneTurn(lim, initial, n, t3, b);
    OneTurn(lim, initial, n, t4, a);
    OneTurn(lim, initial, n, t5, b);
  }

  /** One upload with nobody in between: it is stored exactly when the session's budget and the global one have room for
      it, and then both counters grow by its length; otherwise nothing is counted. */
  lemma UninterruptedUpload(lim: Limits, s: State, t: Turn)
    requires Fair(lim, |s.sessions|, t) && s.sessions[t.who].phase == Idle && t.stored
    ensures var own := s.sessions[t.who].own;
      var admitted := own + t.len <= 32 * lim.maxUpload && s.shared + t.len <= lim.globalCap;
      var s2 := Step(lim, Step(lim, s, t), t);
      && (!admitted ==> s2 == s)
      && (admitted ==> Step(lim, s2, t) == State(s.shared + t.len, s.sessions[t.who := Session(own + t.len, Idle)]))
  {
    var s1 := Step(lim, s, t);
    var s2 := Step(lim, s1, t);
    assert s1.sessions[t.who].phase == Loaded(t.len, s.shared);
    assert s.sessions[t.who := s.sessions[t.who]] == s.sessions;
  }

  /** The global cap is respected by every interleaving exactly when no race can break it. */
  lemma GlobalCapHoldsIff(lim: Limits, initial: nat, n: nat)
    ensures CapHolds(lim, initial, n) <==> NoRace(lim, initial, n)
  {
    hide Run;
    if NoRace(lim, initial, n) {
      NoRaceKeepsCap(lim, initial, n);
    } else {
      var m: nat := lim.globalCap - initial - 1;
      var turns := FillUp(lim, initial, n, m);
      var raced := TwoRace(lim, initial, n, turns, m);
      assert AllFair(lim, n, raced) && Run(lim, initial, n, raced).shared > Max(initial, lim.globalCap);
    }
  }
}
