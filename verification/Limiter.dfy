/**
  The connection limiter: an atomic counter and a map behind a mutex, touched by any number of
  threads. The protocol interleaves the atomic steps of the code freely; the registry object is what a
  caller sees when nobody interferes.
 */
module Limiter {
  import opened Wrappers

  type Ip = nat
  type Pid = nat

  /** The two caps; configuration loading rejects a zero (`per_ip_connections` and `max_sessions`). */
  datatype Caps = Caps(maxSessions: nat, perIp: nat)

  // ---- The shared state and its atomic steps ---------------------------------------------------

  datatype Registry = Registry(total: int, perIp: map<Ip, int>)

  function Reserve(caps: Caps, r: Registry): Option<Registry> {
    if r.total >= caps.maxSessions then None else Some(r.(total := r.total + 1))
  }

  function Return(r: Registry): Registry {
    r.(total := r.total - 1)
  }

  function Touch(r: Registry, ip: Ip): Registry {
    if ip in r.perIp then r else r.(perIp := r.perIp[ip := 0])
  }

  function Enlist(r: Registry, ip: Ip): Registry
    requires ip in r.perIp
  {
    r.(perIp := r.perIp[ip := r.perIp[ip] + 1])
  }

  function Delist(r: Registry, ip: Ip): Registry {
    if ip !in r.perIp then r
    else if r.perIp[ip] == 1 then r.(perIp := r.perIp - {ip})
    else r.(perIp := r.perIp[ip := r.perIp[ip] - 1])
  }

  // ---- Threads -------------------------------------------------------------------------------------

  /** Where a thread is: no guard; reserved on the counter; holding the mutex before the check; holding it
      after a failed check; holding it still after giving the reservation back; holding a guard; holding the
      mutex after uncounting; before giving its reservation back. */
  datatype Pc =
    | Idle
    | Reserved(ip: Ip)
    | Checking(ip: Ip)
    | Refusing(ip: Ip)
    | Refused(ip: Ip)
    | Guarded(ip: Ip)
    | Uncounted(ip: Ip)
    | Returning(ip: Ip)

  datatype State = State(reg: Registry, lock: Option<Pid>, pcs: map<Pid, Pc>)

  /** The scheduler picks a thread; an idle one is asked to connect from `ip`, a guarded one to drop its
      guard, any other to take its next step. A thread waiting for the mutex stays where it is. */
  datatype Turn = Turn(pid: Pid, ip: Ip)

  function At(s: State, p: Pid): Pc {
    if p in s.pcs then s.pcs[p] else Idle
  }

  function Go(s: State, p: Pid, pc: Pc): State {
    s.(pcs := s.pcs[p := pc])
  }

  function Step(caps: Caps, s: State, t: Turn): State {
    var p := t.pid;
    match At(s, p)
    case Idle =>
      (match Reserve(caps, s.reg)
       case Some(r) => Go(s, p, Reserved(t.ip)).(reg := r)
       case None => s)
    case Reserved(ip) =>
      if s.lock.Some? then s else Go(s, p, Checking(ip)).(reg := Touch(s.reg, ip), lock := Some(p))
    case Checking(ip) =>
      if ip in s.reg.perIp && s.reg.perIp[ip] < caps.perIp then
        Go(s, p, Guarded(ip)).(reg := Enlist(s.reg, ip), lock := None)
      else Go(s, p, Refusing(ip))
    case Refusing(ip) => Go(s, p, Refused(ip)).(reg := Return(s.reg))
    case Refused(_) => Go(s, p, Idle).(lock := None)
    case Guarded(ip) =>
      if s.lock.Some? then s else Go(s, p, Uncounted(ip)).(reg := Delist(s.reg, ip), lock := Some(p))
    case Uncounted(ip) => Go(s, p, Returning(ip)).(lock := None)
    case Returning(_) => Go(s, p, Idle).(reg := Return(s.reg))
  }

  function Start(): State {
    State(Registry(0, map[]), None, map[])
  }

  function Run(caps: Caps, turns: seq<Turn>): State {
    if turns == [] then Start() else Step(caps, Run(caps, turns[..|turns| - 1]), turns[|turns| - 1])
  }

  // ---- What every interleaving keeps -----------------------------------------------------------------

  type Threads = map<Pid, Pc>

  /** The thread has a reservation on the counter. */
  predicate HasSlot(pc: Pc) {
    !pc.Idle? && !pc.Refused?
  }

  ghost function InSlots(pcs: Threads): set<Pid> {
    set p | p in pcs && HasSlot(pcs[p])
  }

  ghost function Guards(pcs: Threads, ip: Ip): set<Pid> {
    set p | p in pcs && pcs[p] == Guarded(ip)
  }

  function Count(r: Registry, ip: Ip): int {
    if ip in r.perIp then r.perIp[ip] else 0
  }

  predicate HoldsLock(pc: Pc) {
    pc.Checking? || pc.Refusing? || pc.Refused? || pc.Uncounted?
  }

  /** The thread in the mutex is the one that holds it, and checks an entry that is there. */
  ghost predicate LockOk(s: State) {
    && (forall p :: p in s.pcs && HoldsLock(s.pcs[p]) ==> s.lock == Some(p))
    && (s.lock.Some? ==> s.lock.value in s.pcs && HoldsLock(s.pcs[s.lock.value]))
    && (forall p :: p in s.pcs && s.pcs[p].Checking? ==> s.pcs[p].ip in s.reg.perIp)
  }

  /** Every slot is accounted for by one thread, every peer's count by its live guards; a thread inside the
      mutex is the one the lock names; only a thread about to check may have a zero entry. */
  ghost predicate Inv(caps: Caps, s: State) {
    && s.reg.total == |InSlots(s.pcs)|
    && s.reg.total <= caps.maxSessions
    && (forall ip :: Count(s.reg, ip) == |Guards(s.pcs, ip)|)
    && (forall ip :: Count(s.reg, ip) <= caps.perIp)
    && LockOk(s)
    && (forall ip :: ip in s.reg.perIp && s.reg.perIp[ip] == 0 ==> Excused(caps, s, ip))
  }

  /** A zero entry is being worked on by the thread in the mutex, or the cap is zero. */
  ghost predicate Excused(caps: Caps, s: State, ip: Ip) {
    caps.perIp == 0 || (s.lock.Some? && At(s, s.lock.value) == Checking(ip))
  }

  lemma OneChange(a: set<Pid>, a': set<Pid>, p: Pid)
    requires forall q :: q != p ==> (q in a' <==> q in a)
    ensures |a'| == |a| - (if p in a then 1 else 0) + (if p in a' then 1 else 0)
  {
    assert a' - {p} == a - {p};
    assert p in a ==> |a - {p}| == |a| - 1;
    assert p in a' ==> |a' - {p}| == |a'| - 1;
    assert p !in a ==> a - {p} == a;
    assert p !in a' ==> a' - {p} == a';
  }

  function PcOf(pcs: Threads, p: Pid): Pc {
    if p in pcs then pcs[p] else Idle
  }

  /** One thread's change of place changes each head count by at most that thread. */
  lemma GoCounts(pcs: Threads, p: Pid, pc: Pc, ip: Ip)
    ensures |InSlots(pcs[p := pc])| == |InSlots(pcs)| - (if HasSlot(PcOf(pcs, p)) then 1 else 0) + (if HasSlot(pc) then 1 else 0)
    ensures |Guards(pcs[p := pc], ip)| ==
      |Guards(pcs, ip)| - (if PcOf(pcs, p) == Guarded(ip) then 1 else 0) + (if pc == Guarded(ip) then 1 else 0)
  {
    OneChange(InSlots(pcs), InSlots(pcs[p := pc]), p);
    OneChange(Guards(pcs, ip), Guards(pcs[p := pc], ip), p);
  }

  /** The thread `p` moved to `pc`, and the registry's count of each peer moved with its guards. */
  lemma CountsFollow(caps: Caps, s: State, p: Pid, pc: Pc, ip: Ip)
    requires Inv(caps, s)
    ensures |InSlots(s.pcs[p := pc])| == s.reg.total - (if HasSlot(PcOf(s.pcs, p)) then 1 else 0) + (if HasSlot(pc) then 1 else 0)
    ensures |Guards(s.pcs[p := pc], ip)| ==
      Count(s.reg, ip) - (if PcOf(s.pcs, p) == Guarded(ip) then 1 else 0) + (if pc == Guarded(ip) then 1 else 0)
  {
    GoCounts(s.pcs, p, pc, ip);
    assert Count(s.reg, ip) == |Guards(s.pcs, ip)|;
  }

  lemma StepKeepsInv(caps: Caps, s: State, t: Turn)
    requires Inv(caps, s)
    ensures Inv(caps, Step(caps, s, t))
  {
    hide InSlots, Guards, Excused, LockOk, Step;
    var s', p := Step(caps, s, t), t.pid;
    StepKeepsTotal(caps, s, t);
    StepKeepsLock(caps, s, t);
    if s' != s {
      forall ip
        ensures Count(s'.reg, ip) == |Guards(s'.pcs, ip)| && Count(s'.reg, ip) <= caps.perIp
        ensures ip in s'.reg.perIp && s'.reg.perIp[ip] == 0 ==> Excused(caps, s', ip)
      {
        StepKeepsCount(caps, s, t, ip);
      }
    }
  }

  lemma StepKeepsLock(caps: Caps, s: State, t: Turn)
    requires LockOk(s)
    ensures LockOk(Step(caps, s, t))
  {
  }

  lemma StepKeepsTotal(caps: Caps, s: State, t: Turn)
    requires Inv(caps, s)
    ensures Step(caps, s, t).reg.total == |InSlots(Step(caps, s, t).pcs)| && Step(caps, s, t).reg.total <= caps.maxSessions
  {
    hide InSlots, Guards, Count, Excused, LockOk;
    var s', p := Step(caps, s, t), t.pid;
    if s' != s {
      assert s'.pcs == s.pcs[p := s'.pcs[p]];
      CountsFollow(caps, s, p, s'.pcs[p], t.ip);
    }
  }

  lemma StepKeepsCount(caps: Caps, s: State, t: Turn, ip: Ip)
    requires Inv(caps, s) && Step(caps, s, t) != s
    ensures t.pid in Step(caps, s, t).pcs && Step(caps, s, t).pcs == s.pcs[t.pid := Step(caps, s, t).pcs[t.pid]]
    ensures var s' := Step(caps, s, t);
      && Count(s'.reg, ip) == |Guards(s'.pcs, ip)| && Count(s'.reg, ip) <= caps.perIp
      && (ip in s'.reg.perIp && s'.reg.perIp[ip] == 0 ==> Excused(caps, s', ip))
  {
    hide InSlots, Guards;
    var s', p := Step(caps, s, t), t.pid;
    assert s'.pcs == s.pcs[p := s'.pcs[p]];
    CountsFollow(caps, s, p, s'.pcs[p], ip);
    assert Count(s.reg, ip) <= caps.perIp;
    assert ip in s.reg.perIp && s.reg.perIp[ip] == 0 ==> Excused(caps, s, ip);
  }

  lemma {:induction false} RunKeepsInv(caps: Caps, turns: seq<Turn>)
    ensures Inv(caps, Run(caps, turns))
  {
    if turns != [] {
      RunKeepsInv(caps, turns[..|turns| - 1]);
      StepKeepsInv(caps, Run(caps, turns[..|turns| - 1]), turns[|turns| - 1]);
    }
  }

  // ---- The limiter's promises ----------------------------------------------------------------------------

  /** In every interleaving: no decrement is made on an empty counter, the live guards respect both caps, and
      a peer is refused only with its cap's worth of live guards. */
  lemma RunRespectsCaps(caps: Caps, turns: seq<Turn>, t: Turn)
    ensures var s := Run(caps, turns);
      && 0 <= s.reg.total <= caps.maxSessions
      && (forall ip :: 0 <= Count(s.reg, ip) == |Guards(s.pcs, ip)| <= caps.perIp)
      && ((At(s, t.pid).Refusing? || At(s, t.pid).Returning?) ==> s.reg.total > 0)
      && (At(s, t.pid).Guarded? ==> At(s, t.pid).ip in s.reg.perIp && s.reg.perIp[At(s, t.pid).ip] > 0)
      && (At(s, t.pid).Checking? && At(Step(caps, s, t), t.pid).Refusing? ==>
            |Guards(s.pcs, At(s, t.pid).ip)| == caps.perIp)
  {
    var s := Run(caps, turns);
    RunKeepsInv(caps, turns);
    forall ip ensures 0 <= Count(s.reg, ip) == |Guards(s.pcs, ip)| <= caps.perIp {
      assert Count(s.reg, ip) <= caps.perIp;
    }
    if t.pid in s.pcs && HasSlot(s.pcs[t.pid]) {
      assert t.pid in InSlots(s.pcs);
      if s.pcs[t.pid].Guarded? {
        assert t.pid in Guards(s.pcs, s.pcs[t.pid].ip);
        assert Count(s.reg, s.pcs[t.pid].ip) > 0;
      }
    }
  }

  /** With a positive cap, no zero entry is left behind when the mutex is free. */
  lemma NoZeroEntry(caps: Caps, turns: seq<Turn>)
    requires caps.perIp >= 1
    ensures var s := Run(caps, turns);
      s.lock.None? ==> forall ip :: ip in s.reg.perIp ==> s.reg.perIp[ip] > 0
  {
    var s := Run(caps, turns);
    RunKeepsInv(caps, turns);
    forall ip | s.lock.None? && ip in s.reg.perIp ensures s.reg.perIp[ip] > 0 {
      assert Count(s.reg, ip) == |Guards(s.pcs, ip)|;
      assert s.reg.perIp[ip] == 0 ==> Excused(caps, s, ip);
    }
  }

  /** With a zero cap, which configuration loading rejects, a refused peer would leave one. */
  lemma ZeroCapLeavesEntry(maxSessions: nat, ip: Ip)
    requires maxSessions >= 1
    ensures var s := Run(Caps(maxSessions, 0), [Turn(0, ip), Turn(0, ip), Turn(0, ip), Turn(0, ip), Turn(0, ip)]);
      s.lock.None? && ip in s.reg.perIp && s.reg.perIp[ip] == 0
  {
    var caps, t := Caps(maxSessions, 0), Turn(0, ip);
    assert [t, t, t, t, t][..4] == [t, t, t, t];
    assert [t, t, t, t][..3] == [t, t, t] && [t, t, t][..2] == [t, t] && [t, t][..1] == [t] && [t][..0] == [];
    assert Run(caps, [t]) == Step(caps, Start(), t);
    assert Run(caps, [t, t]) == Step(caps, Run(caps, [t]), t);
    assert Run(caps, [t, t, t]) == Step(caps, Run(caps, [t, t]), t);
    assert Run(caps, [t, t, t, t]) == Step(caps, Run(caps, [t, t, t]), t);
    assert Run(caps, [t, t, t, t, t]) == Step(caps, Run(caps, [t, t, t, t]), t);
  }

  /** No zero entry is left when the mutex is free. */
  ghost predicate NoZeroLeft(s: State) {
    s.lock.None? ==> forall ip :: ip in s.reg.perIp ==> s.reg.perIp[ip] > 0
  }

  /** Every interleaving keeps it that way exactly when peers may connect at all, or nobody gets as far as the
      per-peer check. */
  lemma NoZeroEntryIff(caps: Caps)
    ensures (forall turns :: NoZeroLeft(Run(caps, turns))) <==> caps.perIp >= 1 || caps.maxSessions == 0
  {
    hide Run, Step;
    if caps.perIp >= 1 {
      forall turns ensures NoZeroLeft(Run(caps, turns)) {
        NoZeroEntry(caps, turns);
      }
    } else if caps.maxSessions == 0 {
      forall turns ensures NoZeroLeft(Run(caps, turns)) {
        NobodyGetsIn(caps, turns);
      }
    } else {
      ZeroCapLeavesEntry(caps.maxSessions, 0);
      var t := Turn(0, 0);
      assert !NoZeroLeft(Run(caps, [t, t, t, t, t]));
    }
  }

  lemma {:induction false} NobodyGetsIn(caps: Caps, turns: seq<Turn>)
    requires caps.maxSessions == 0
    ensures Run(caps, turns) == Start()
  {
    if turns != [] {
      NobodyGetsIn(caps, turns[..|turns| - 1]);
    }
  }

  /** No slot leaks: when every thread is done, the registry is as it was at the start. */
  lemma AllDoneIsEmpty(caps: Caps, turns: seq<Turn>)
    requires caps.perIp >= 1
    requires forall p :: p in Run(caps, turns).pcs ==> Run(caps, turns).pcs[p].Idle?
    ensures Run(caps, turns).lock.None? && Run(caps, turns).reg == Registry(0, map[])
  {
    var s := Run(caps, turns);
    RunKeepsInv(caps, turns);
    NoZeroEntry(caps, turns);
    assert InSlots(s.pcs) == {};
    forall ip ensures ip !in s.reg.perIp {
      assert Guards(s.pcs, ip) == {};
      assert Count(s.reg, ip) == 0;
    }
  }

  // ---- The books balance -----------------------------------------------------------------------------------

  ghost function Acquirers(pcs: Threads): set<Pid> {
    set p | p in pcs && (pcs[p].Reserved? || pcs[p].Checking? || pcs[p].Refusing?)
  }

  ghost function Releasers(pcs: Threads): set<Pid> {
    set p | p in pcs && (pcs[p].Uncounted? || pcs[p].Returning?)
  }

  ghost function GuardsOfAny(pcs: Threads, ips: set<Ip>): set<Pid> {
    set p | p in pcs && pcs[p].Guarded? && pcs[p].ip in ips
  }

  ghost function SumOver(m: map<Ip, int>, ips: set<Ip>): int
    requires ips <= m.Keys
  {
    if ips == {} then 0
    else
      var ip :| ip in ips;
      m[ip] + SumOver(m, ips - {ip})
  }

  lemma {:induction false} SumIsGuards(caps: Caps, s: State, ips: set<Ip>)
    requires Inv(caps, s) && ips <= s.reg.perIp.Keys
    ensures SumOver(s.reg.perIp, ips) == |GuardsOfAny(s.pcs, ips)|
  {
    if ips == {} {
      assert GuardsOfAny(s.pcs, ips) == {};
    } else {
      var ip :| ip in ips && SumOver(s.reg.perIp, ips) == s.reg.perIp[ip] + SumOver(s.reg.perIp, ips - {ip});
      SumIsGuards(caps, s, ips - {ip});
      assert Count(s.reg, ip) == |Guards(s.pcs, ip)|;
      assert GuardsOfAny(s.pcs, ips) == GuardsOfAny(s.pcs, ips - {ip}) + Guards(s.pcs, ip);
    }
  }

  /** In every interleaving the counter is the sum of the per-peer counts, plus the threads between the two
      halves of acquiring, plus those between the two halves of releasing. */
  lemma BooksBalance(caps: Caps, turns: seq<Turn>)
    ensures var s := Run(caps, turns);
      s.reg.total == SumOver(s.reg.perIp, s.reg.perIp.Keys) + |Acquirers(s.pcs)| + |Releasers(s.pcs)|
  {
    var s := Run(caps, turns);
    RunKeepsInv(caps, turns);
    SumIsGuards(caps, s, s.reg.perIp.Keys);
    forall p | p in s.pcs && s.pcs[p].Guarded? ensures s.pcs[p].ip in s.reg.perIp {
      assert p in Guards(s.pcs, s.pcs[p].ip);
      assert Count(s.reg, s.pcs[p].ip) == |Guards(s.pcs, s.pcs[p].ip)| > 0;
    }
    SlotsSplit(s.pcs, s.reg.perIp.Keys);
  }

  lemma SlotsSplit(pcs: Threads, ips: set<Ip>)
    requires forall p :: p in pcs && pcs[p].Guarded? ==> pcs[p].ip in ips
    ensures |InSlots(pcs)| == |GuardsOfAny(pcs, ips)| + |Acquirers(pcs)| + |Releasers(pcs)|
  {
    assert GuardsOfAny(pcs, ips) !! Acquirers(pcs);
    assert GuardsOfAny(pcs, ips) + Acquirers(pcs) !! Releasers(pcs);
    assert InSlots(pcs) == GuardsOfAny(pcs, ips) + Acquirers(pcs) + Releasers(pcs);
  }

  // ---- A caller on its own -----------------------------------------------------------------------------------

  datatype Answer = Granted | GlobalLimit | PerIpLimit

  class ConnectionRegistry {
    var total: int
    var perIp: map<Ip, int>
    const caps: Caps

    function Value(): Registry
      reads this
    {
      Registry(total, perIp)
    }

    /** Between calls the counter is the sum of the peers' counts, within both caps, and only peers with
        connections have an entry. */
    ghost predicate Valid()
      reads this
    {
      Settled(caps, Value())
    }

    constructor (caps: Caps)
      ensures Valid() && Value() == Registry(0, map[]) && this.caps == caps
    {
      this.caps := caps;
      total := 0;
      perIp := map[];
    }

    /** Granted exactly below both caps; a granted connection is counted once, for its peer and in all, and a
        refused one leaves no trace in the counts. */
    method TryAcquire(ip: Ip) returns (answer: Answer)
      requires Valid()
      modifies this
      ensures Valid()
      ensures answer.GlobalLimit? <==> old(total) == caps.maxSessions
      ensures answer.PerIpLimit? <==> old(total) < caps.maxSessions && Count(old(Value()), ip) >= caps.perIp
      ensures total == old(total) + if answer.Granted? then 1 else 0
      ensures forall j :: Count(Value(), j) == Count(old(Value()), j) + if answer.Granted? && j == ip then 1 else 0
    {
      if total >= caps.maxSessions {
        return GlobalLimit;
      }
      total := total + 1;
      if ip !in perIp {
        perIp := perIp[ip := 0];
      }
      if perIp[ip] >= caps.perIp {
        total := total - 1;
        answer := PerIpLimit;
      } else {
        perIp := perIp[ip := perIp[ip] + 1];
        answer := Granted;
      }
      CountChanged(old(Value()), Value(), ip);
    }

    /** Dropping a guard undoes its acquisition: one connection less, for its peer and in all. */
    method Release(ip: Ip)
      requires Valid() && Count(Value(), ip) > 0
      modifies this
      ensures Valid() && total == old(total) - 1
      ensures forall j :: Count(Value(), j) == Count(old(Value()), j) - if j == ip then 1 else 0
    {
      if ip in perIp {
        perIp := perIp[ip := perIp[ip] - 1];
        if perIp[ip] == 0 {
          perIp := perIp - {ip};
        }
      }
      total := total - 1;
      CountChanged(old(Value()), Value(), ip);
      SumIsNatural(perIp, perIp.Keys);
    }
  }

  ghost predicate Settled(caps: Caps, r: Registry) {
    && r.total == SumOver(r.perIp, r.perIp.Keys)
    && 0 <= r.total <= caps.maxSessions
    && forall ip :: ip in r.perIp ==> 0 <= r.perIp[ip] <= caps.perIp && (r.perIp[ip] == 0 ==> caps.perIp == 0)
  }

  /** The sum does not depend on the order, so any entry can be taken out first. */
  lemma {:induction false} SumTakesOut(m: map<Ip, int>, ips: set<Ip>, ip: Ip)
    requires ips <= m.Keys && ip in ips
    ensures SumOver(m, ips) == m[ip] + SumOver(m, ips - {ip})
    decreases |ips|
  {
    var first :| first in ips && SumOver(m, ips) == m[first] + SumOver(m, ips - {first});
    if first != ip {
      SumTakesOut(m, ips - {first}, ip);
      SumTakesOut(m, ips - {ip}, first);
      assert ips - {first} - {ip} == ips - {ip} - {first};
    }
  }

  lemma {:induction false} SumIsNatural(m: map<Ip, int>, ips: set<Ip>)
    requires ips <= m.Keys && forall ip :: ip in m ==> m[ip] >= 0
    ensures SumOver(m, ips) >= 0
    decreases |ips|
  {
    if ips != {} {
      var ip :| ip in ips && SumOver(m, ips) == m[ip] + SumOver(m, ips - {ip});
      SumIsNatural(m, ips - {ip});
    }
  }

  lemma {:induction false} SumAgrees(a: map<Ip, int>, b: map<Ip, int>, ips: set<Ip>)
    requires ips <= a.Keys && ips <= b.Keys && forall ip :: ip in ips ==> a[ip] == b[ip]
    ensures SumOver(a, ips) == SumOver(b, ips)
    decreases |ips|
  {
    if ips != {} {
      var ip :| ip in ips;
      SumTakesOut(a, ips, ip);
      SumTakesOut(b, ips, ip);
      SumAgrees(a, b, ips - {ip});
    }
  }

  /** A change of one peer's count changes the sum by as much. */
  lemma CountChanged(r: Registry, r': Registry, ip: Ip)
    requires r'.perIp - {ip} == r.perIp - {ip}
    ensures SumOver(r'.perIp, r'.perIp.Keys) == SumOver(r.perIp, r.perIp.Keys) + Count(r', ip) - Count(r, ip)
  {
    var others := r.perIp.Keys - {ip};
    assert others == (r.perIp - {ip}).Keys == (r'.perIp - {ip}).Keys == r'.perIp.Keys - {ip};
    forall j | j in others ensures r.perIp[j] == r'.perIp[j] {
      assert (r.perIp - {ip})[j] == (r'.perIp - {ip})[j];
    }
    SumAgrees(r.perIp, r'.perIp, others);
    SumWithout(r, ip);
    SumWithout(r', ip);
  }

  lemma SumWithout(r: Registry, ip: Ip)
    ensures SumOver(r.perIp, r.perIp.Keys) == Count(r, ip) + SumOver(r.perIp, r.perIp.Keys - {ip})
  {
    if ip in r.perIp {
      SumTakesOut(r.perIp, r.perIp.Keys, ip);
    } else {
      assert r.perIp.Keys - {ip} == r.perIp.Keys;
    }
  }

  /** The same thread's turns with no other thread's in between. */
  function Alone(caps: Caps, s: State, t: Turn, n: nat): State
    decreases n
  {
    if n == 0 then s else Alone(caps, Step(caps, s, t), t, n - 1)
  }

  /** What the object does in one call is what a thread does in the protocol when it gets all its turns in a
      row: three to be granted, five to be refused by its peer's cap, one to be refused by the other. */
  lemma UninterruptedAcquire(caps: Caps, s: State, t: Turn)
    requires Inv(caps, s) && s.lock.None? && At(s, t.pid) == Idle
    ensures var granted := s.reg.total < caps.maxSessions && Count(s.reg, t.ip) < caps.perIp;
      var n := if granted then 3 else if s.reg.total < caps.maxSessions then 5 else 1;
      var s' := Alone(caps, s, t, n);
      && s'.lock.None? && At(s', t.pid) == (if granted then Guarded(t.ip) else Idle)
      && s'.reg.total == s.reg.total + (if granted then 1 else 0)
      && forall j :: Count(s'.reg, j) == Count(s.reg, j) + if granted && j == t.ip then 1 else 0
  {
    hide Alone, Guards, InSlots, Excused;
    AloneIs(caps, s, t);
  }

  lemma AloneIs(caps: Caps, s: State, t: Turn)
    ensures var s1 := Step(caps, s, t);
      var s3 := Step(caps, Step(caps, s1, t), t);
      && Alone(caps, s, t, 1) == s1
      && Alone(caps, s, t, 3) == s3
      && Alone(caps, s, t, 5) == Step(caps, Step(caps, s3, t), t)
  {
    hide Step;
    var s1 := Step(caps, s, t);
    var s2 := Step(caps, s1, t);
    var s3 := Step(caps, s2, t);
    var s4 := Step(caps, s3, t);
    var s5 := Step(caps, s4, t);
    assert Alone(caps, s, t, 1) == Alone(caps, s1, t, 0) == s1;
    assert Alone(caps, s, t, 3) == Alone(caps, s1, t, 2) == Alone(caps, s2, t, 1) == Alone(caps, s3, t, 0) == s3;
    assert Alone(caps, s3, t, 2) == Alone(caps, s4, t, 1) == Alone(caps, s5, t, 0) == s5;
    assert Alone(caps, s, t, 5) == Alone(caps, s1, t, 4) == Alone(caps, s2, t, 3) == Alone(caps, s3, t, 2);
  }

  lemma UninterruptedRelease(caps: Caps, s: State, t: Turn)
    requires Inv(caps, s) && s.lock.None? && At(s, t.pid).Guarded?
    ensures var ip := At(s, t.pid).ip;
      var s' := Alone(caps, s, t, 3);
      && s'.lock.None? && At(s', t.pid) == Idle && s'.reg.total == s.reg.total - 1
      && forall j :: Count(s'.reg, j) == Count(s.reg, j) - if j == ip then 1 else 0
  {
    var ip := At(s, t.pid).ip;
    assert t.pid in Guards(s.pcs, ip);
    assert Count(s.reg, ip) == |Guards(s.pcs, ip)| > 0;
    var s1 := Step(caps, s, t);
    var s2 := Step(caps, s1, t);
    var s3 := Step(caps, s2, t);
    assert Alone(caps, s, t, 3) == Alone(caps, s1, t, 2) == Alone(caps, s2, t, 1) == Alone(caps, s3, t, 0) == s3;
  }
}
