/** power_manage.c as a program: the static device lists and the retention region it walks,
    each entry point proved against its function in `PowerManagement` or `SuspendResume`. */
module PowerManager {
  import opened Wrappers
  import opened MachineWords
  import L = RetentionLayout
  import opened RetentionMemory
  import opened PowerManagement
  import opened SuspendResume

  datatype Mode = Running | Sleep1 | Sleep2 | DeepSleep1 | DeepSleep2 | DeepSleep3

  lemma PutTwice(m: seq<uint32>, p: nat, a: seq<uint32>, b: seq<uint32>)
    requires p + |a| + |b| <= |m|
    ensures Put(Put(m, p, a), p + |a|, b) == Put(m, p, a + b)
  {
  }

  lemma PutNothing(m: seq<uint32>, p: nat)
    requires p <= |m|
    ensures Put(m, p, []) == m
  {
  }

  /** `slist_del`: unlink the first node that is `d`. */
  method Unlink(l: seq<Id>, d: Id) returns (r: seq<Id>)
    ensures r == RemoveFirst(l, d) && WithoutFirst(l, d, r)
  {
    RemoveFirstIs(l, d);
    var before, rest := [], l;
    while rest != []
      invariant before + RemoveFirst(rest, d) == RemoveFirst(l, d)
      decreases |rest|
    {
      if rest[0] == d {
        return before + rest[1..];
      }
      before, rest := before + [rest[0]], rest[1..];
    }
    return before;
  }

  /** `csi_pm_dev_save_regs`. */
  method SaveRegs(mem: array<uint32>, p: nat, r: seq<uint32>, c: Chunk)
    requires p + c.num <= mem.Length && c.reg + c.num <= |r|
    modifies mem
    ensures mem[..] == Put(old(mem[..]), p, r[c.reg..c.reg + c.num])
  {
    for i := 0 to c.num
      invariant forall x :: 0 <= x < mem.Length ==>
        mem[x] == if p <= x < p + i then r[c.reg + x - p] else old(mem[x])
    {
      mem[p + i] := r[c.reg + i];
    }
  }

  /** `csi_pm_dev_restore_regs`. */
  method RestoreRegs(mem: array<uint32>, p: nat, r: seq<uint32>, c: Chunk) returns (r': seq<uint32>)
    requires p + c.num <= mem.Length && c.reg + c.num <= |r|
    ensures r' == Put(r, c.reg, mem[p..p + c.num])
  {
    r' := r;
    for i := 0 to c.num
      invariant |r'| == |r|
      invariant forall x :: 0 <= x < |r| ==> r'[x] == if c.reg <= x < c.reg + i then mem[p + x - c.reg] else r[x]
    {
      r' := r'[c.reg + i := mem[p + i]];
    }
  }

  /** A suspend callback: its register runs, one after the other, into its block. */
  method SaveChunks(mem: array<uint32>, p: nat, r: seq<uint32>, chunks: seq<Chunk>)
    requires InBank(chunks, |r|) && p + Total(chunks) <= mem.Length
    modifies mem
    ensures mem[..] == Put(old(mem[..]), p, Gather(r, chunks))
    decreases |chunks|
  {
    if chunks != [] {
      var c := chunks[0];
      ghost var a, b := r[c.reg..c.reg + c.num], Gather(r, chunks[1..]);
      SaveRegs(mem, p, r, c);
      SaveChunks(mem, p + c.num, r, chunks[1..]);
      PutTwice(old(mem[..]), p, a, b);
      assert Gather(r, chunks) == a + b;
    } else {
      PutNothing(mem[..], p);
    }
  }

  /** A resume callback: the same runs back out of the block. */
  method RestoreChunks(mem: array<uint32>, p: nat, r: seq<uint32>, chunks: seq<Chunk>) returns (r': seq<uint32>)
    requires InBank(chunks, |r|) && p + Total(chunks) <= mem.Length
    ensures r' == Scatter(r, chunks, mem[p..p + Total(chunks)])
    decreases |chunks|
  {
    r' := r;
    if chunks != [] {
      var c := chunks[0];
      ghost var data := mem[p..p + Total(chunks)];
      assert data[..c.num] == mem[p..p + c.num];
      assert data[c.num..] == mem[p + c.num..p + c.num + Total(chunks[1..])];
      r' := RestoreRegs(mem, p, r, c);
      r' := RestoreChunks(mem, p + c.num, r', chunks[1..]);
    }
  }

  /** What notifying `order` makes of the retention words and the registers. */
  ghost function Effect(s: Pm, a: Action, order: seq<Id>, mem: seq<uint32>, regs: Registers): (seq<uint32>, Registers)
    requires CanNotify(s, |mem|, regs, order)
  {
    match a
    case Suspend => (SaveAll(s, order, mem, regs), regs)
    case Resume => (mem, RestoreAll(s, order, mem, regs))
  }

  lemma EffectOne(s: Pm, a: Action, d: Id, mem: seq<uint32>, regs: Registers)
    requires Ready(s, d, regs) && InRegion(s, d, |mem|)
    ensures CanNotify(s, |mem|, regs, [d])
    ensures Effect(s, a, [d], mem, regs) ==
      match a case Suspend => (SaveOne(s, d, mem, regs), regs) case Resume => (mem, RestoreOne(s, d, mem, regs))
  {
    var one: seq<Id> := [d];
    assert one[0] == d && one[1..] == [];
    var mem1 := SaveOne(s, d, mem, regs);
    assert SaveAll(s, one, mem, regs) == SaveAll(s, one[1..], mem1, regs) == mem1;
    assert RestoreAll(s, one, mem, regs) == RestoreAll(s, one[1..], mem, RestoreOne(s, d, mem, regs));
  }

  lemma {:induction false} EffectKeepsReady(s: Pm, a: Action, order: seq<Id>, mem: seq<uint32>, regs: Registers, d: Id)
    requires CanNotify(s, |mem|, regs, order) && Ready(s, d, regs)
    ensures Ready(s, d, Effect(s, a, order, mem, regs).1)
    decreases |order|
  {
    if a == Resume && order != [] {
      var regs1 := RestoreOne(s, order[0], mem, regs);
      assert forall e :: e in order[1..] ==> Ready(s, e, regs) ==> Ready(s, e, regs1);
      EffectKeepsReady(s, a, order[1..], mem, regs1, d);
    }
  }

  lemma {:induction false} EffectAppend(s: Pm, a: Action, o1: seq<Id>, o2: seq<Id>, mem: seq<uint32>, regs: Registers)
    requires CanNotify(s, |mem|, regs, o1 + o2)
    ensures CanNotify(s, |mem|, regs, o1)
    ensures var (mem1, regs1) := Effect(s, a, o1, mem, regs);
      && |mem1| == |mem|
      && CanNotify(s, |mem|, regs1, o2)
      && Effect(s, a, o1 + o2, mem, regs) == Effect(s, a, o2, mem1, regs1)
    decreases |o1|
  {
    assert forall d :: d in o1 || d in o2 ==> d in o1 + o2;
    forall d | d in o2 ensures Ready(s, d, Effect(s, a, o1, mem, regs).1) {
      EffectKeepsReady(s, a, o1, mem, regs, d);
    }
    if o1 == [] {
      assert o1 + o2 == o2;
    } else {
      var d := o1[0];
      assert (o1 + o2)[1..] == o1[1..] + o2;
      if a == Suspend {
        EffectAppend(s, a, o1[1..], o2, SaveOne(s, d, mem, regs), regs);
      } else {
        var regs1 := RestoreOne(s, d, mem, regs);
        assert forall e :: e in o1[1..] + o2 ==> Ready(s, e, regs) ==> Ready(s, e, regs1);
        EffectAppend(s, a, o1[1..], o2, mem, regs1);
      }
    }
  }

  /** The code after running `order`: the last callback's, or what it was before. */
  ghost function LastOk(s: Pm, a: Action, order: seq<Id>, before: bool): bool {
    if order == [] then before else CallbackOk(s, order[|order| - 1], a)
  }

  lemma LastOkAppend(s: Pm, a: Action, o1: seq<Id>, o2: seq<Id>, before: bool)
    ensures LastOk(s, a, o1 + o2, before) == LastOk(s, a, o2, LastOk(s, a, o1, before))
  {
    assert o2 == [] ==> o1 + o2 == o1;
  }

  class PowerManager {
    const reten: RetentionMemory
    var lists: seq<seq<Id>>     // pm_dev_list, one list per priority
    var devs: map<Id, PmDev>    // each device's csi_pm_dev_t
    var regs: Registers         // the device registers

    ghost function State(): Pm
      reads this, reten
    {
      Pm(reten.blocks, lists, devs)
    }

    ghost predicate Valid()
      reads this, reten, reten.mem
    {
      reten.Valid() && Inv(State(), reten.mem.Length)
    }

    /** `csi_pm_init` over a region that may or may not have been set. */
    constructor (reten: RetentionMemory, regs: Registers)
      requires reten.Valid()
      ensures Valid() && this.reten == reten && this.regs == regs
      ensures State() == Pm(reten.blocks, [[], [], [], []], map[])
    {
      this.reten, this.regs := reten, regs;
      lists, devs := [[], [], [], []], map[];
      new;
      UpOne([]);
    }

    /** `csi_pm_dev_register`. */
    method Register(d: Id, driver: Driver, size: uint32, priority: nat) returns (ok: bool)
      requires Valid() && size % 4 == 0 && priority < PRIORITIES && !Listed(State(), d)
      modifies this`lists, this`devs, reten`blocks, reten.mem
      ensures Valid()
      ensures (State(), ok) == PowerManagement.Register(old(State()), d, driver, size / 4, priority)
      ensures ok <==> FreeRoom(old(reten.blocks), size / 4)
      ensures lists == old(lists)[priority := [d] + old(lists)[priority]]
      ensures forall x :: 0 <= x < reten.mem.Length && !IsHeaderWord(reten.blocks, x) ==>
        reten.mem[x] == old(reten.mem[x])
    {
      RegisterInv(State(), reten.mem.Length, d, driver, size / 4, priority);
      SomeIff(reten.blocks, size / 4);
      hide Inv, FreeRoom;
      lists := lists[priority := [d] + lists[priority]];
      var p := reten.Alloc(size);
      ok := p != 0;
      devs := devs[d := PmDev(driver, size / 4, if ok then Some((p - reten.base) / 4) else None)];
    }

    /** `csi_pm_dev_unregister`: the record keeps its old address. */
    method Unregister(d: Id)
      requires Valid()
      modifies this`lists, reten`blocks, reten.mem
      ensures reten.Valid() && State() == PowerManagement.Unregister(old(State()), d)
      ensures (forall e :: Listed(old(State()), e) && e != d ==> Apart(old(State()), d, e)) ==> Valid()
    {
      UnregisterInvIff(State(), reten.mem.Length, d);
      for i := 0 to PRIORITIES
        modifies this`lists
        invariant |lists| == PRIORITIES
        invariant forall j :: 0 <= j < i ==> lists[j] == RemoveFirst(old(lists[j]), d)
        invariant forall j :: i <= j < PRIORITIES ==> lists[j] == old(lists[j])
      {
        var l := Unlink(lists[i], d);
        lists := lists[i := l];
      }
      if d in devs && devs[d].reten.Some? {
        FreeAddressIsFree(reten.blocks, reten.base, devs[d].reten.value);
        reten.Free(Address(reten.base, devs[d].reten.value));
      }
    }

    /** One device's `pm_action`. */
    method Callback(d: Id, a: Action) returns (ok: bool)
      requires Ready(State(), d, regs) && InRegion(State(), d, reten.mem.Length)
      modifies this`regs, reten.mem
      ensures ok == CallbackOk(State(), d, a)
      ensures CanNotify(State(), reten.mem.Length, old(regs), [d])
      ensures (reten.mem[..], regs) == Effect(State(), a, [d], old(reten.mem[..]), old(regs))
    {
      EffectOne(State(), a, d, reten.mem[..], regs);
      var driver := devs[d].driver;
      var p: nat := if devs[d].reten.Some? then devs[d].reten.value else 0;
      ok := if a == Suspend then driver.suspendOk else driver.resumeOk;
      if ok && a == Suspend {
        SaveChunks(reten.mem, p, regs[d], driver.chunks);
      } else if ok {
        assert reten.mem[p..p + Total(driver.chunks)] == reten.mem[..][p..p + Total(driver.chunks)];
        var r := RestoreChunks(reten.mem, p, regs[d], driver.chunks);
        regs := regs[d := r];
      }
    }

    /** One list: the walk stops after the first callback that fails. */
    method NotifyList(l: seq<Id>, a: Action, before: bool) returns (ok: bool)
      requires CanNotify(State(), reten.mem.Length, regs, Reach(State(), l, a))
      modifies this`regs, reten.mem
      ensures (reten.mem[..], regs) == Effect(State(), a, Reach(State(), l, a), old(reten.mem[..]), old(regs))
      ensures ok == LastOk(State(), a, Reach(State(), l, a), before)
    {
      ok := before;
      var rest := l;
      ghost var s, goal := State(), Effect(State(), a, Reach(State(), l, a), reten.mem[..], regs);
      while rest != []
        invariant State() == s && CanNotify(s, reten.mem.Length, regs, Reach(s, rest, a))
        invariant Effect(s, a, Reach(s, rest, a), reten.mem[..], regs) == goal
        invariant LastOk(s, a, Reach(s, rest, a), ok) == LastOk(s, a, Reach(s, l, a), before)
        decreases |rest|
      {
        var d := rest[0];
        ghost var more := if CallbackOk(s, d, a) then Reach(s, rest[1..], a) else [];
        assert Reach(s, rest, a) == [d] + more;
        assert d in Reach(s, rest, a);
        EffectAppend(s, a, [d], more, reten.mem[..], regs);
        ok := Callback(d, a);
        if !ok {
          return;
        }
        rest := rest[1..];
      }
    }

    /** The suspend loop of `csi_pm_dev_notify`: lists from the highest priority down. */
    method NotifyDown() returns (ok: bool)
      requires |lists| == PRIORITIES && CanNotify(State(), reten.mem.Length, regs, Visits(State(), Suspend))
      modifies this`regs, reten.mem
      ensures (reten.mem[..], regs) == Effect(State(), Suspend, Visits(State(), Suspend), old(reten.mem[..]), old(regs))
      ensures ok == NotifyOk(State(), Suspend)
    {
      ok := true;
      ghost var s, all := State(), ReachAll(State(), Suspend);
      assert all[..PRIORITIES] == all;
      ghost var rest, goal := Down(all), Effect(s, Suspend, Down(all), reten.mem[..], regs);
      for i := PRIORITIES downto 0
        invariant State() == s && rest == Down(all[..i]) && CanNotify(s, reten.mem.Length, regs, rest)
        invariant Effect(s, Suspend, rest, reten.mem[..], regs) == goal
        invariant LastOk(s, Suspend, rest, ok) == NotifyOk(s, Suspend)
      {
        ghost var here := Reach(s, lists[i], Suspend);
        NextList(all, i);
        rest := Down(all[..i]);
        EffectAppend(s, Suspend, here, rest, reten.mem[..], regs);
        LastOkAppend(s, Suspend, here, rest, ok);
        ok := NotifyList(lists[i], Suspend, ok);
      }
    }

    /** The resume loop: lists from the lowest priority up. */
    method NotifyUp() returns (ok: bool)
      requires |lists| == PRIORITIES && CanNotify(State(), reten.mem.Length, regs, Visits(State(), Resume))
      modifies this`regs, reten.mem
      ensures (reten.mem[..], regs) == Effect(State(), Resume, Visits(State(), Resume), old(reten.mem[..]), old(regs))
      ensures ok == NotifyOk(State(), Resume)
    {
      ok := true;
      ghost var s, all := State(), ReachAll(State(), Resume);
      assert all[0..] == all;
      ghost var rest, goal := Up(all), Effect(s, Resume, Up(all), reten.mem[..], regs);
      for i := 0 to PRIORITIES
        invariant State() == s && rest == Up(all[i..]) && CanNotify(s, reten.mem.Length, regs, rest)
        invariant Effect(s, Resume, rest, reten.mem[..], regs) == goal
        invariant LastOk(s, Resume, rest, ok) == NotifyOk(s, Resume)
      {
        ghost var here := Reach(s, lists[i], Resume);
        NextList(all, i);
        rest := Up(all[i + 1..]);
        EffectAppend(s, Resume, here, rest, reten.mem[..], regs);
        LastOkAppend(s, Resume, here, rest, ok);
        ok := NotifyList(lists[i], Resume, ok);
      }
    }

    /** `csi_pm_dev_notify`. */
    method Notify(a: Action) returns (ok: bool)
      requires Valid() && AllReady(State(), regs)
      modifies this`regs, reten.mem
      ensures Valid() && AllReady(State(), regs)
      ensures CanNotify(State(), reten.mem.Length, old(regs), Visits(State(), a))
      ensures (reten.mem[..], regs) == Effect(State(), a, Visits(State(), a), old(reten.mem[..]), old(regs))
      ensures ok == NotifyOk(State(), a)
    {
      ghost var s := State();
      VisitsWithin(s, reten.mem.Length, a, regs);
      SuspendIsIntact(s, reten.mem.Length, reten.base, reten.mem[..], regs);
      if a == Suspend {
        ok := NotifyDown();
      } else {
        ok := NotifyUp();
      }
      forall d | Listed(s, d) ensures Ready(s, d, regs) {
        EffectKeepsReady(s, a, Visits(s, a), old(reten.mem[..]), old(regs), d);
      }
    }

    /** `csi_pm_enter_sleep`.  `lost` is what the registers hold when the core wakes, `socOk` what
        `soc_pm_enter_sleep` returns. */
    method EnterSleep(mode: Mode, lost: Registers, socOk: bool) returns (ok: bool)
      requires Valid() && AllReady(State(), regs) && AllReady(State(), lost)
      requires lost.Keys == regs.Keys && forall d :: d in regs ==> |lost[d]| == |regs[d]|
      modifies this`regs, reten.mem
      ensures Valid() && State() == old(State())
      ensures mode != DeepSleep1 ==> ok == socOk && regs == lost && reten.mem[..] == old(reten.mem[..])
      ensures mode == DeepSleep1 && !NotifyOk(State(), Suspend) ==> !ok && regs == old(regs)
      ensures mode == DeepSleep1 ==> Intact(State(), reten.base, old(reten.mem[..]), reten.mem[..])
      ensures mode == DeepSleep1 && NotifyOk(State(), Suspend) ==>
        && ok == NotifyOk(State(), Resume) && regs.Keys == old(regs).Keys
        && CanResume(State(), reten.mem.Length, lost)
        && forall d :: d in old(regs) ==> Outcome(State(), d, old(reten.mem[..]), old(regs)[d], lost[d], regs[d])
      ensures mode == DeepSleep1 && AllOk(State(), Suspend) && AllOk(State(), Resume) ==>
        && ok && regs.Keys == old(regs).Keys
        && forall d :: d in old(regs) ==> Restored(State(), d, old(regs)[d], lost[d], regs[d])
    {
      ghost var s := State();
      hide Inv, Visits, Intact, Outcome, NotifyOk, AllOk, CanResume;
      ok := true;
      if mode == DeepSleep1 {
        DeepSleepOutcome(s, reten.mem.Length, reten.base, reten.mem[..], regs, lost);
        ok := Notify(Suspend);
      }
      if ok {
        ok := socOk;
        regs := lost;
        if mode == DeepSleep1 {
          ok := Notify(Resume);
        }
      }
      if mode == DeepSleep1 && AllOk(s, Suspend) && AllOk(s, Resume) {
        DeepSleepRoundTrip(s, reten.mem.Length, reten.base, old(reten.mem[..]), old(regs), lost);
        AllOkReported(s, reten.mem.Length, Suspend);
        AllOkReported(s, reten.mem.Length, Resume);
      }
    }
  }

  lemma NextList(all: seq<seq<Id>>, k: nat)
    requires k < |all|
    ensures Down(all[..k + 1]) == all[k] + Down(all[..k])
    ensures Up(all[k..]) == all[k] + Up(all[k + 1..])
  {
    var a := all[..k + 1];
    UpSplit(a, k);
    assert a[..k] == all[..k] && a[k..] == [all[k]];
    var one: seq<seq<Id>> := [all[k]];
    assert one[1..] == [] && Down(one) == all[k];
    assert all[k..][1..] == all[k + 1..];
  }

  lemma AllOkReported(s: Pm, num: nat, a: Action)
    requires Inv(s, num) && AllOk(s, a)
    ensures NotifyOk(s, a)
  {
    VisitsAll(s, num, a, 0);
    var v := Visits(s, a);
    if v != [] {
      assert v[|v| - 1] in multiset(v);
    }
  }
}
