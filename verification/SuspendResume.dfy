/** `csi_pm_dev_notify` and the deep-sleep cycle of power_manage.c, on the values of
    `PowerManagement`: what suspending every device writes into the retention memory, and what
    resuming reads back from it. */
module SuspendResume {
  import opened Wrappers
  import opened MachineWords
  import opened RetentionLayout
  import opened RetentionMemory
  import opened PowerManagement

  // ---- one callback ----

  function Total(chunks: seq<Chunk>): nat {
    if chunks == [] then 0 else chunks[0].num + Total(chunks[1..])
  }

  predicate InBank(chunks: seq<Chunk>, n: nat) {
    forall i :: 0 <= i < |chunks| ==> chunks[i].reg + chunks[i].num <= n
  }

  ghost predicate Covered(chunks: seq<Chunk>, x: nat) {
    exists i :: 0 <= i < |chunks| && chunks[i].reg <= x < chunks[i].reg + chunks[i].num
  }

  function Put(m: seq<uint32>, p: nat, data: seq<uint32>): (r: seq<uint32>)
    requires p + |data| <= |m|
    ensures |r| == |m| && r[p..p + |data|] == data
    ensures forall x :: 0 <= x < |m| && !(p <= x < p + |data|) ==> r[x] == m[x]
    ensures forall x :: p <= x < p + |data| ==> r[x] == data[x - p]
  {
    m[..p] + data + m[p + |data|..]
  }

  /** The words a suspend callback stores, in order. */
  function Gather(r: seq<uint32>, chunks: seq<Chunk>): (g: seq<uint32>)
    requires InBank(chunks, |r|)
    ensures |g| == Total(chunks)
  {
    if chunks == [] then [] else r[chunks[0].reg..chunks[0].reg + chunks[0].num] + Gather(r, chunks[1..])
  }

  /** The registers a resume callback leaves when the stored words are `data`. */
  function Scatter(r: seq<uint32>, chunks: seq<Chunk>, data: seq<uint32>): (r': seq<uint32>)
    requires InBank(chunks, |r|) && |data| == Total(chunks)
    ensures |r'| == |r|
    decreases |chunks|
  {
    if chunks == [] then r
    else Scatter(Put(r, chunks[0].reg, data[..chunks[0].num]), chunks[1..], data[chunks[0].num..])
  }

  /** Restoring what was saved gives back every saved register, whatever the registers held in
      between, and touches no other; the register runs may overlap. */
  lemma {:induction false} ScatterGather(was: seq<uint32>, r: seq<uint32>, chunks: seq<Chunk>, x: nat)
    requires InBank(chunks, |was|) && |r| == |was| && x < |r|
    ensures Scatter(r, chunks, Gather(was, chunks))[x] == if Covered(chunks, x) then was[x] else r[x]
    decreases chunks
  {
    if chunks != [] {
      var c, t := chunks[0], chunks[1..];
      var g := Gather(was, chunks);
      var run := was[c.reg..c.reg + c.num];
      assert g[..c.num] == run && g[c.num..] == Gather(was, t);
      var r1 := Put(r, c.reg, run);
      assert r1[x] == if c.reg <= x < c.reg + c.num then was[x] else r[x];
      ScatterGather(was, r1, t, x);
      CoveredCons(chunks, x);
      hide Covered, Gather, Put;
      assert Scatter(r, chunks, g) == Scatter(r1, t, Gather(was, t));
    } else {
      assert !Covered(chunks, x);
    }
  }

  lemma CoveredCons(chunks: seq<Chunk>, x: nat)
    requires chunks != []
    ensures Covered(chunks, x) <==> chunks[0].reg <= x < chunks[0].reg + chunks[0].num || Covered(chunks[1..], x)
  {
    var t := chunks[1..];
    if i :| 0 <= i < |t| && t[i].reg <= x < t[i].reg + t[i].num { assert t[i] == chunks[i + 1]; }
    if i :| 0 < i < |chunks| && chunks[i].reg <= x < chunks[i].reg + chunks[i].num { assert t[i - 1] == chunks[i]; }
  }

  // ---- one notification ----

  function CallbackOk(s: Pm, d: Id, a: Action): bool {
    d in s.devs && match a case Suspend => s.devs[d].driver.suspendOk case Resume => s.devs[d].driver.resumeOk
  }

  /** A list is walked up to and including its first failing callback. */
  function Reach(s: Pm, l: seq<Id>, a: Action): seq<Id> {
    if l == [] then [] else if CallbackOk(s, l[0], a) then [l[0]] + Reach(s, l[1..], a) else [l[0]]
  }

  function ReachAll(s: Pm, a: Action): seq<seq<Id>> {
    seq(|s.lists|, i requires 0 <= i < |s.lists| => Reach(s, s.lists[i], a))
  }

  /** The callbacks run, in order: highest list first to suspend, lowest first to resume. */
  function Visits(s: Pm, a: Action): seq<Id> {
    match a case Suspend => Down(ReachAll(s, a)) case Resume => Up(ReachAll(s, a))
  }

  ghost predicate AllOk(s: Pm, a: Action) {
    forall d :: Listed(s, d) ==> CallbackOk(s, d, a)
  }

  lemma {:induction false} ReachWhole(s: Pm, l: seq<Id>, a: Action)
    requires forall d :: d in l ==> CallbackOk(s, d, a)
    ensures Reach(s, l, a) == l
  {
    if l != [] { ReachWhole(s, l[1..], a); }
  }

  lemma {:induction false} InUp(lists: seq<seq<Id>>, i: nat, d: Id)
    requires i < |lists| && d in lists[i]
    ensures d in Up(lists)
  {
    if i > 0 { InUp(lists[1..], i - 1, d); }
  }

  lemma {:induction false} UpSplit(lists: seq<seq<Id>>, k: nat)
    requires k <= |lists|
    ensures Up(lists) == Up(lists[..k]) + Up(lists[k..])
    ensures Down(lists) == Down(lists[k..]) + Down(lists[..k])
  {
    if k > 0 {
      UpSplit(lists[1..], k - 1);
      assert lists[..k][1..] == lists[1..][..k - 1] && lists[1..][k - 1..] == lists[k..];
    } else {
      assert lists[..0] == [] && lists[0..] == lists;
    }
  }

  /** When no callback fails, each direction visits exactly the listed devices, each once, and
      splits at every priority: suspending finishes all lists from `k` up before any lower one,
      resuming the other way round. */
  lemma VisitsAll(s: Pm, num: nat, a: Action, k: nat)
    requires Inv(s, num) && AllOk(s, a) && k <= PRIORITIES
    ensures multiset(Visits(s, a)) == multiset(Up(s.lists))
    ensures forall d :: multiset(Visits(s, a))[d] == if Listed(s, d) then 1 else 0
    ensures Visits(s, a) == match a
      case Suspend => Down(s.lists[k..]) + Down(s.lists[..k])
      case Resume => Up(s.lists[..k]) + Up(s.lists[k..])
  {
    assert ReachAll(s, a) == s.lists by {
      forall i | 0 <= i < |s.lists| ensures Reach(s, s.lists[i], a) == s.lists[i] {
        forall d | d in s.lists[i] ensures CallbackOk(s, d, a) { InUp(s.lists, i, d); }
        ReachWhole(s, s.lists[i], a);
      }
    }
    UpSplit(s.lists, k);
    UpDown(s.lists);
    forall d ensures multiset(Visits(s, a))[d] == if Listed(s, d) then 1 else 0 {
      assert Listed(s, d) <==> d in multiset(Up(s.lists));
    }
  }

  /** The returned code is the last callback's. */
  function NotifyOk(s: Pm, a: Action): bool {
    var v := Visits(s, a);
    v == [] || CallbackOk(s, v[|v| - 1], a)
  }

  /** List `i` is the last one with any devices to be walked. */
  predicate WalkedLast(lists: seq<seq<Id>>, a: Action, i: nat) {
    && i < |lists| && lists[i] != []
    && forall j :: 0 <= j < |lists| && (if a == Suspend then j < i else i < j) ==> lists[j] == []
  }

  /** The last callback run in a list failed exactly when any of its callbacks fails. */
  lemma {:induction false} ReachLast(s: Pm, l: seq<Id>, a: Action)
    requires l != []
    ensures var r := Reach(s, l, a);
      r != [] && (CallbackOk(s, r[|r| - 1], a) <==> forall d :: d in l ==> CallbackOk(s, d, a))
  {
    hide CallbackOk;
    var t := l[1..];
    if CallbackOk(s, l[0], a) {
      InFirstOrRest(l);
      if t == [] {
        assert Reach(s, l, a) == [l[0]];
      } else {
        ReachLast(s, t, a);
        LastOfSuffix([l[0]], Reach(s, t, a));
      }
    } else {
      assert Reach(s, l, a) == [l[0]] && l[0] in l;
    }
  }

  lemma InFirstOrRest(l: seq<Id>)
    requires l != []
    ensures forall d :: d in l <==> d == l[0] || d in l[1..]
  {
    assert l == [l[0]] + l[1..];
  }

  lemma {:induction false} UpEmpty(lists: seq<seq<Id>>)
    requires forall j :: 0 <= j < |lists| ==> lists[j] == []
    ensures Up(lists) == [] && Down(lists) == []
  {
    if lists != [] { UpEmpty(lists[1..]); }
  }

  /** The last device of a whole walk is the last one of the last list with any devices. */
  lemma WalkEnds(lists: seq<seq<Id>>, a: Action, i: nat)
    requires WalkedLast(lists, a, i)
    ensures var v := match a case Suspend => Down(lists) case Resume => Up(lists);
      v != [] && v[|v| - 1] == lists[i][|lists[i]| - 1]
  {
    if a == Suspend { DownEnds(lists, i); } else { UpEnds(lists, i); }
  }

  lemma {:induction false} DownEnds(lists: seq<seq<Id>>, i: nat)
    requires WalkedLast(lists, Suspend, i)
    ensures Down(lists) != [] && Down(lists)[|Down(lists)| - 1] == lists[i][|lists[i]| - 1]
    decreases |lists|
  {
    var t := lists[1..];
    if i > 0 {
      LaterWalkedLast(lists, Suspend, i);
      hide WalkedLast;
      DownEnds(t, i - 1);
      assert Down(lists) == Down(t);
    } else {
      LastOfSuffix(Down(t), lists[0]);
    }
  }

  lemma {:induction false} UpEnds(lists: seq<seq<Id>>, i: nat)
    requires WalkedLast(lists, Resume, i)
    ensures Up(lists) != [] && Up(lists)[|Up(lists)| - 1] == lists[i][|lists[i]| - 1]
    decreases |lists|
  {
    var t := lists[1..];
    if i > 0 {
      LaterWalkedLast(lists, Resume, i);
      hide WalkedLast;
      UpEnds(t, i - 1);
      LastOfSuffix(lists[0], Up(t));
    } else {
      UpEmpty(t);
      assert Up(lists) == lists[0];
    }
  }

  lemma LastOfSuffix(a: seq<Id>, b: seq<Id>)
    requires b != []
    ensures a + b != [] && (a + b)[|a + b| - 1] == b[|b| - 1]
  {
  }

  lemma LaterWalkedLast(lists: seq<seq<Id>>, a: Action, i: nat)
    requires WalkedLast(lists, a, i) && i > 0
    ensures WalkedLast(lists[1..], a, i - 1) && lists[1..][i - 1] == lists[i]
    ensures a == Suspend ==> lists[0] == []
  {
  }

  lemma {:induction false} SomeWalkedLast(lists: seq<seq<Id>>, a: Action) returns (i: nat)
    ensures i < |lists| ==> WalkedLast(lists, a, i)
    ensures i >= |lists| ==> forall j :: 0 <= j < |lists| ==> lists[j] == []
  {
    if lists == [] { return 0; }
    var t := lists[1..];
    if a == Suspend && lists[0] != [] { return 0; }
    i := SomeWalkedLast(t, a);
    assert forall j :: 0 < j < |lists| ==> lists[j] == t[j - 1];
    i := if i >= |t| && lists[0] != [] then 0 else i + 1;
  }

  lemma OneWalkedLast(lists: seq<seq<Id>>, a: Action, i: nat)
    requires WalkedLast(lists, a, i)
    ensures forall k: nat :: WalkedLast(lists, a, k) ==> k == i
  {
  }

  /** `csi_pm_dev_notify` reports success exactly when every callback of the last list walked
      succeeds: the lowest list with any devices on suspend, the highest on resume.  A failure in
      any other list is never reported. */
  lemma ReportedIff(s: Pm, a: Action)
    ensures NotifyOk(s, a) <==>
      forall i: nat, d: Id :: WalkedLast(s.lists, a, i) && d in s.lists[i] ==> CallbackOk(s, d, a)
  {
    hide Reach, Up, Down, CallbackOk;
    var all := ReachAll(s, a);
    var i := SomeWalkedLast(s.lists, a);
    ReachesSame(s, a, i);
    if i < |s.lists| {
      WalkEnds(all, a, i);
      ReachLast(s, s.lists[i], a);
      OneWalkedLast(s.lists, a, i);
    } else {
      UpEmpty(all);
    }
  }

  /** A list is walked at all exactly when it has devices. */
  lemma ReachesSame(s: Pm, a: Action, i: nat)
    ensures forall j :: 0 <= j < |s.lists| ==> (ReachAll(s, a)[j] == [] <==> s.lists[j] == [])
    ensures WalkedLast(ReachAll(s, a), a, i) <==> WalkedLast(s.lists, a, i)
  {
    forall j | 0 <= j < |s.lists| ensures ReachAll(s, a)[j] == [] <==> s.lists[j] == [] {
      if s.lists[j] != [] { ReachLast(s, s.lists[j], a); }
    }
  }

  /** The state after registering device 2 with priority 1 and device 1 with priority 0. */
  function TwoLists(bad: Driver, good: Driver): Pm {
    Pm([], [[1], [2], [], []], map[1 := PmDev(good, 0, None), 2 := PmDev(bad, 0, None)])
  }

  lemma OneRegistered(bad: Driver, s1: Pm)
    requires s1 == Pm([], [[], [2], [], []], map[2 := PmDev(bad, 0, None)])
    ensures Register(Initial(0), 2, bad, 0, 1).0 == s1 && !Listed(s1, 1)
  {
    var s0 := Initial(0);
    assert [2] + s0.lists[1] == [2] && s0.lists[1 := [2]] == s1.lists;
    assert s0.devs[2 := PmDev(bad, 0, None)] == s1.devs;
    UpSecond([2]);
  }

  lemma UpSecond(l: seq<Id>)
    ensures Up([[], l, [], []]) == l
  {
    var none: seq<Id> := [];
    assert [none, l, none, none][1..] == [l, none, none] && [l, none, none][1..] == [none, none];
    UpEmpty([none, none]);
    assert Up([l, none, none]) == l;
  }

  lemma TwoRegistered(bad: Driver, good: Driver, s1: Pm)
    requires s1 == Pm([], [[], [2], [], []], map[2 := PmDev(bad, 0, None)])
    ensures Register(s1, 1, good, 0, 0).0 == TwoLists(bad, good)
  {
    assert [1] + s1.lists[0] == [1] && s1.lists[0 := [1]] == TwoLists(bad, good).lists;
    assert s1.devs[1 := PmDev(good, 0, None)] == TwoLists(bad, good).devs;
  }

  lemma TwoListsReached(bad: Driver, good: Driver)
    ensures var s0, first, second := Initial(0), CallRegister(2, bad, 0, 1), CallRegister(1, good, 0, 0);
      Legal(s0, first) && Legal(Do(s0, first), second) && Do(Do(s0, first), second) == TwoLists(bad, good)
  {
    hide Register;
    UpOne([]);
    var s1 := Pm([], [[], [2], [], []], map[2 := PmDev(bad, 0, None)]);
    OneRegistered(bad, s1);
    TwoRegistered(bad, good, s1);
  }

  /** The input: a failing callback in a higher list, hidden by a lower list that ends well. */
  lemma LaterListHidesFailure(bad: Driver, good: Driver)
    requires !bad.suspendOk && good.suspendOk
    ensures var s := TwoLists(bad, good);
      Listed(s, 2) && !CallbackOk(s, 2, Suspend) && NotifyOk(s, Suspend)
  {
    var s := TwoLists(bad, good);
    InUp(s.lists, 1, 2);
    ReportedIff(s, Suspend);
    OneWalkedLast(s.lists, Suspend, 0);
  }

  // ---- saving and restoring ----

  /** The device's callback can run: its registers exist, and it saves no more words than it asked
      for (none at all if it got no block). */
  ghost predicate Ready(s: Pm, d: Id, regs: Registers) {
    && d in s.devs && d in regs
    && InBank(s.devs[d].driver.chunks, |regs[d]|)
    && Total(s.devs[d].driver.chunks) <= if s.devs[d].reten.Some? then s.devs[d].words else 0
  }

  ghost predicate InRegion(s: Pm, d: Id, num: nat) {
    d in s.devs && (s.devs[d].reten.Some? ==> s.devs[d].reten.value + Total(s.devs[d].driver.chunks) <= num)
  }

  ghost predicate CanNotify(s: Pm, num: nat, regs: Registers, order: seq<Id>) {
    forall d :: d in order ==> Ready(s, d, regs) && InRegion(s, d, num)
  }

  /** The payload word at which a device's block starts; unused when it has none. */
  function Start(s: Pm, d: Id): nat
    requires d in s.devs
  {
    match s.devs[d].reten case Some(p) => p case None => 0
  }

  function SaveOne(s: Pm, d: Id, mem: seq<uint32>, regs: Registers): (r: seq<uint32>)
    requires Ready(s, d, regs) && InRegion(s, d, |mem|)
    ensures |r| == |mem|
  {
    if s.devs[d].driver.suspendOk then Put(mem, Start(s, d), Gather(regs[d], s.devs[d].driver.chunks)) else mem
  }

  function RestoreOne(s: Pm, d: Id, mem: seq<uint32>, regs: Registers): (r: Registers)
    requires Ready(s, d, regs) && InRegion(s, d, |mem|)
    ensures r.Keys == regs.Keys && |r[d]| == |regs[d]|
    ensures forall e :: e in regs && e != d ==> r[e] == regs[e]
  {
    var chunks := s.devs[d].driver.chunks;
    if s.devs[d].driver.resumeOk
    then regs[d := Scatter(regs[d], chunks, mem[Start(s, d)..Start(s, d) + Total(chunks)])]
    else regs
  }

  function SaveAll(s: Pm, order: seq<Id>, mem: seq<uint32>, regs: Registers): (r: seq<uint32>)
    requires CanNotify(s, |mem|, regs, order)
    ensures |r| == |mem|
    decreases |order|
  {
    if order == [] then mem else SaveAll(s, order[1..], SaveOne(s, order[0], mem, regs), regs)
  }

  function RestoreAll(s: Pm, order: seq<Id>, mem: seq<uint32>, regs: Registers): (r: Registers)
    requires CanNotify(s, |mem|, regs, order)
    ensures r.Keys == regs.Keys
    decreases |order|
  {
    if order == [] then regs
    else
      var regs1 := RestoreOne(s, order[0], mem, regs);
      assert forall d :: d in order[1..] ==> Ready(s, d, regs) ==> Ready(s, d, regs1);
      RestoreAll(s, order[1..], mem, regs1)
  }

  /** The number of a live block. */
  lemma LiveAt(bs: Layout, p: nat, w: nat) returns (i: nat)
    requires Live(bs, p, w)
    ensures i < |bs| && bs[i].Payload() == p && bs[i].used && bs[i].words >= w
  {
    i :| 0 <= i < |bs| && bs[i].Payload() == p && bs[i].used && bs[i].words >= w;
  }

  /** Every listed device can be notified in a state that meets the invariant. */
  lemma ListedCanNotify(s: Pm, num: nat, regs: Registers, order: seq<Id>)
    requires Inv(s, num)
    requires forall d :: Listed(s, d) ==> Ready(s, d, regs)
    requires forall d :: d in order ==> Listed(s, d)
    ensures CanNotify(s, num, regs, order)
  {
    forall d | d in order ensures InRegion(s, d, num) {
      ListedInRegion(s, num, regs, d);
    }
  }

  lemma ListedInRegion(s: Pm, num: nat, regs: Registers, d: Id)
    requires Inv(s, num) && Listed(s, d) && Ready(s, d, regs)
    ensures InRegion(s, d, num) && WordsExist(s, d, num)
  {
    assert Keeps(s, d);
    if Reten(s, d).Some? {
      var i := LiveAt(s.blocks, Reten(s, d).value, s.devs[d].words);
      EndBound(s.blocks, num, i);
    }
  }

  /** The words a resume callback reads. */
  predicate WordsExist(s: Pm, d: Id, num: nat) {
    d in s.devs && Start(s, d) + Total(s.devs[d].driver.chunks) <= num
  }

  function Words(s: Pm, d: Id, mem: seq<uint32>): (r: seq<uint32>)
    requires WordsExist(s, d, |mem|)
    ensures |r| == Total(s.devs[d].driver.chunks)
  {
    mem[Start(s, d)..Start(s, d) + Total(s.devs[d].driver.chunks)]
  }

  /** Word `x` belongs to the part of the region that `d` saves into. */
  ghost predicate Own(s: Pm, d: Id, x: nat) {
    d in s.devs && s.devs[d].reten.Some? && Start(s, d) <= x < Start(s, d) + s.devs[d].words
  }

  /** What two listed devices save into has no word in common, and no word of any header. */
  lemma OwnApart(s: Pm, num: nat, d: Id, e: Id, x: nat)
    requires Inv(s, num) && Listed(s, d) && Listed(s, e) && Own(s, d, x)
    ensures !IsHeaderWord(s.blocks, x)
    ensures Own(s, e, x) ==> d == e
  {
    assert Keeps(s, d) && Keeps(s, e);
    var i := LiveAt(s.blocks, Start(s, d), s.devs[d].words);
    forall j | 0 <= j < |s.blocks| ensures !(s.blocks[j].at <= x < s.blocks[j].at + HEADER) {
      PayloadsApart(s.blocks, num, i, j, x);
    }
    if Own(s, e, x) {
      assert d != e ==> Apart(s, d, e);
      var j := LiveAt(s.blocks, Start(s, e), s.devs[e].words);
      PayloadsApart(s.blocks, num, i, j, x);
    }
  }

  /** Saving changes only words that visited devices save into. */
  lemma {:induction false} SaveAllFrame(s: Pm, order: seq<Id>, mem: seq<uint32>, regs: Registers, x: nat)
    requires CanNotify(s, |mem|, regs, order) && x < |mem|
    requires forall d :: d in order ==> !Own(s, d, x) || !CallbackOk(s, d, Suspend)
    ensures SaveAll(s, order, mem, regs)[x] == mem[x]
    decreases |order|
  {
    if order != [] {
      var d := order[0];
      assert Ready(s, d, regs) && (!Own(s, d, x) || !CallbackOk(s, d, Suspend));
      assert SaveOne(s, d, mem, regs)[x] == mem[x];
      SaveAllFrame(s, order[1..], SaveOne(s, d, mem, regs), regs, x);
    }
  }

  ghost predicate Stored(s: Pm, d: Id, mem: seq<uint32>, regs: Registers)
    requires Ready(s, d, regs) && WordsExist(s, d, |mem|)
  {
    Words(s, d, mem) == Gather(regs[d], s.devs[d].driver.chunks)
  }

  lemma OnlyOnce(order: seq<Id>)
    requires order != [] && forall e :: multiset(order)[e] <= 1
    ensures order[0] !in order[1..]
    ensures forall e :: multiset(order[1..])[e] <= 1
  {
    var all: multiset<Id> := multiset(order);
    var rest: multiset<Id> := multiset(order[1..]);
    assert order == [order[0]] + order[1..];
    assert all == multiset{order[0]} + rest && all[order[0]] <= 1;
    assert forall e :: rest[e] <= all[e];
  }

  /** After all of them have run, the words of each one that saved are still there, whatever the others
      did. */
  lemma {:induction false} SaveAllStores(s: Pm, num: nat, order: seq<Id>, mem: seq<uint32>, regs: Registers, d: Id)
    requires Inv(s, num) && |mem| == num && CanNotify(s, num, regs, order)
    requires forall e :: e in order ==> Listed(s, e)
    requires forall e :: multiset(order)[e] <= 1
    requires d in order && CallbackOk(s, d, Suspend) && WordsExist(s, d, num)
    ensures Stored(s, d, SaveAll(s, order, mem, regs), regs)
    decreases |order|
  {
    var e, t := order[0], order[1..];
    var mem1 := SaveOne(s, e, mem, regs);
    OnlyOnce(order);
    if e == d {
      StoredFirst(s, num, order, mem, regs);
    } else {
      hide SaveOne, Stored;
      SaveAllStores(s, num, t, mem1, regs, d);
    }
  }

  lemma StoredFirst(s: Pm, num: nat, order: seq<Id>, mem: seq<uint32>, regs: Registers)
    requires Inv(s, num) && |mem| == num && CanNotify(s, num, regs, order) && order != []
    requires (forall e :: e in order ==> Listed(s, e)) && order[0] !in order[1..]
    requires CallbackOk(s, order[0], Suspend) && WordsExist(s, order[0], num)
    ensures Stored(s, order[0], SaveAll(s, order, mem, regs), regs)
  {
    hide Inv, SaveOne, Gather, Words;
    var d, t := order[0], order[1..];
    var mem1 := SaveOne(s, d, mem, regs);
    SavesWords(s, d, mem, regs);
    LaterKeepAll(s, num, t, mem1, regs, d);
  }

  lemma SavesWords(s: Pm, d: Id, mem: seq<uint32>, regs: Registers)
    requires Ready(s, d, regs) && InRegion(s, d, |mem|) && WordsExist(s, d, |mem|) && CallbackOk(s, d, Suspend)
    ensures Stored(s, d, SaveOne(s, d, mem, regs), regs)
  {
  }

  lemma LaterKeepAll(s: Pm, num: nat, order: seq<Id>, mem: seq<uint32>, regs: Registers, d: Id)
    requires Inv(s, num) && |mem| == num && CanNotify(s, num, regs, order) && Listed(s, d) && d !in order
    requires (forall e :: e in order ==> Listed(s, e)) && Ready(s, d, regs) && WordsExist(s, d, num)
    ensures Words(s, d, SaveAll(s, order, mem, regs)) == Words(s, d, mem)
  {
    hide Inv, SaveAll;
    var w, w1 := Words(s, d, mem), Words(s, d, SaveAll(s, order, mem, regs));
    forall k | 0 <= k < |w| ensures w1[k] == w[k] {
      LaterKeep(s, num, order, mem, regs, d, Start(s, d) + k);
    }
  }

  /** What others save later leaves a device's own words alone. */
  lemma LaterKeep(s: Pm, num: nat, order: seq<Id>, mem: seq<uint32>, regs: Registers, d: Id, x: nat)
    requires Inv(s, num) && |mem| == num && CanNotify(s, num, regs, order) && Listed(s, d) && d !in order
    requires (forall e :: e in order ==> Listed(s, e)) && Ready(s, d, regs)
    requires Start(s, d) <= x < Start(s, d) + Total(s.devs[d].driver.chunks) && x < num
    ensures SaveAll(s, order, mem, regs)[x] == mem[x]
  {
    assert Own(s, d, x);
    UnsavedWord(s, num, order, mem, regs, d, x);
  }

  /** And the words of one that did not save are what they were. */
  lemma UnsavedKept(s: Pm, num: nat, order: seq<Id>, mem: seq<uint32>, regs: Registers, d: Id)
    requires Inv(s, num) && |mem| == num && CanNotify(s, num, regs, order) && Listed(s, d) && Ready(s, d, regs)
    requires (forall e :: e in order ==> Listed(s, e)) && (d !in order || !CallbackOk(s, d, Suspend))
    ensures WordsExist(s, d, num) && Words(s, d, SaveAll(s, order, mem, regs)) == Words(s, d, mem)
  {
    hide Inv, SaveAll;
    ListedInRegion(s, num, regs, d);
    var w, w1 := Words(s, d, mem), Words(s, d, SaveAll(s, order, mem, regs));
    forall k | 0 <= k < |w| ensures w1[k] == w[k] {
      UnsavedWord(s, num, order, mem, regs, d, Start(s, d) + k);
    }
  }

  lemma UnsavedWord(s: Pm, num: nat, order: seq<Id>, mem: seq<uint32>, regs: Registers, d: Id, x: nat)
    requires Inv(s, num) && |mem| == num && CanNotify(s, num, regs, order) && Listed(s, d) && Own(s, d, x) && x < num
    requires (forall e :: e in order ==> Listed(s, e)) && (d !in order || !CallbackOk(s, d, Suspend))
    ensures SaveAll(s, order, mem, regs)[x] == mem[x]
  {
    hide Inv, Own, SaveAll;
    forall f | f in order ensures !Own(s, f, x) || !CallbackOk(s, f, Suspend) { OwnApart(s, num, d, f, x); }
    SaveAllFrame(s, order, mem, regs, x);
  }

  /** `r` has the registers of `was` that `chunks` covers, and otherwise those of `lost`. */
  ghost predicate Back(chunks: seq<Chunk>, was: seq<uint32>, lost: seq<uint32>, r: seq<uint32>) {
    && |r| == |lost| == |was|
    && forall x :: 0 <= x < |r| ==> r[x] == if Covered(chunks, x) then was[x] else lost[x]
  }

  /** Stored words put back are the registers they were saved from. */
  lemma StoredIsBack(s: Pm, mem: seq<uint32>, was: Registers, lost: seq<uint32>, d: Id)
    requires Ready(s, d, was) && WordsExist(s, d, |mem|) && |was[d]| == |lost|
    requires Stored(s, d, mem, was)
    ensures var chunks := s.devs[d].driver.chunks;
      Back(chunks, was[d], lost, Scatter(lost, chunks, Words(s, d, mem)))
  {
    hide Gather, Scatter, Covered, Words;
    var chunks := s.devs[d].driver.chunks;
    var r := Scatter(lost, chunks, Gather(was[d], chunks));
    forall x | 0 <= x < |r| ensures r[x] == if Covered(chunks, x) then was[d][x] else lost[x] {
      ScatterGather(was[d], lost, chunks, x);
    }
  }

  lemma {:induction false} RestoreAllFrame(s: Pm, order: seq<Id>, mem: seq<uint32>, regs: Registers, d: Id)
    requires CanNotify(s, |mem|, regs, order) && d !in order && d in regs
    ensures RestoreAll(s, order, mem, regs)[d] == regs[d]
    decreases |order|
  {
    if order != [] {
      var regs1 := RestoreOne(s, order[0], mem, regs);
      assert forall e :: e in order[1..] ==> Ready(s, e, regs) ==> Ready(s, e, regs1);
      RestoreAllFrame(s, order[1..], mem, regs1, d);
    }
  }

  /** Restoring gives each visited device whose callback succeeds the words of its block, and leaves the
      others alone. */
  lemma {:induction false} RestoreAllGives(s: Pm, order: seq<Id>, mem: seq<uint32>, regs: Registers, d: Id)
    requires CanNotify(s, |mem|, regs, order) && d in order && (forall e :: multiset(order)[e] <= 1)
    requires Ready(s, d, regs) && WordsExist(s, d, |mem|)
    ensures RestoreAll(s, order, mem, regs)[d] ==
      if CallbackOk(s, d, Resume) then Scatter(regs[d], s.devs[d].driver.chunks, Words(s, d, mem)) else regs[d]
    decreases |order|
  {
    var e, t := order[0], order[1..];
    var regs1 := RestoreOne(s, e, mem, regs);
    OnlyOnce(order);
    assert forall f :: f in t ==> Ready(s, f, regs) ==> Ready(s, f, regs1);
    if e == d {
      RestoreAllFrame(s, t, mem, regs1, d);
    } else {
      RestoreAllGives(s, t, mem, regs1, d);
    }
  }

  /** `mem1` still stores the allocator's list word for word, and differs from `mem` only in words
      that listed devices save into. */
  ghost predicate Intact(s: Pm, base: nat, mem: seq<uint32>, mem1: seq<uint32>) {
    && |mem1| == |mem|
    && Encodes(mem1, base, s.blocks)
    && (forall x :: 0 <= x < |mem| && IsHeaderWord(s.blocks, x) ==> mem1[x] == mem[x])
    && (forall x :: 0 <= x < |mem| && mem1[x] != mem[x] ==> exists d :: Listed(s, d) && Own(s, d, x))
  }

  /** In `r`, device `d` has back exactly the registers it saved out of `was`, and the rest as lost. */
  ghost predicate Restored(s: Pm, d: Id, was: seq<uint32>, lost: seq<uint32>, r: seq<uint32>) {
    if Listed(s, d) && d in s.devs then Back(s.devs[d].driver.chunks, was, lost, r) else r == lost
  }

  ghost predicate AllReady(s: Pm, regs: Registers) {
    forall d :: Listed(s, d) ==> Ready(s, d, regs)
  }

  lemma {:induction false} ReachWithin(s: Pm, l: seq<Id>, a: Action, d: Id)
    requires d in Reach(s, l, a)
    ensures d in l
  {
    if l != [] && d != l[0] { ReachWithin(s, l[1..], a, d); }
  }

  lemma {:induction false} UpFrom(lists: seq<seq<Id>>, d: Id) returns (i: nat)
    requires d in Up(lists)
    ensures i < |lists| && d in lists[i]
  {
    if d in lists[0] { i := 0; } else { i := UpFrom(lists[1..], d); i := i + 1; }
  }

  /** Failing callbacks or not, only listed devices are visited, and each can be served. */
  lemma VisitsWithin(s: Pm, num: nat, a: Action, regs: Registers)
    requires Inv(s, num) && AllReady(s, regs)
    ensures forall d :: d in Visits(s, a) ==> Listed(s, d)
    ensures CanNotify(s, num, regs, Visits(s, a))
  {
    var all := ReachAll(s, a);
    forall d | d in Visits(s, a) ensures Listed(s, d) {
      UpDown(all);
      assert d in multiset(Up(all));
      var i := UpFrom(all, d);
      ReachWithin(s, s.lists[i], a, d);
      InUp(s.lists, i, d);
    }
    ListedCanNotify(s, num, regs, Visits(s, a));
  }

  lemma {:induction false} ReachCounts(s: Pm, l: seq<Id>, a: Action)
    ensures multiset(Reach(s, l, a)) <= multiset(l)
  {
    if l != [] {
      assert l == [l[0]] + l[1..];
      ReachCounts(s, l[1..], a);
    }
  }

  lemma {:induction false} UpCounts(xs: seq<seq<Id>>, ys: seq<seq<Id>>)
    requires |xs| == |ys| && forall i :: 0 <= i < |xs| ==> multiset(xs[i]) <= multiset(ys[i])
    ensures multiset(Up(xs)) <= multiset(Up(ys))
  {
    if xs != [] {
      UpCounts(xs[1..], ys[1..]);
      assert multiset(Up(xs)) == multiset(xs[0]) + multiset(Up(xs[1..]));
      assert multiset(Up(ys)) == multiset(ys[0]) + multiset(Up(ys[1..]));
    }
  }

  /** Failures or not, no device is visited twice. */
  lemma VisitsOnce(s: Pm, num: nat, a: Action)
    requires Inv(s, num)
    ensures forall d :: multiset(Visits(s, a))[d] <= 1
  {
    var all := ReachAll(s, a);
    forall i | 0 <= i < |all| ensures multiset(all[i]) <= multiset(s.lists[i]) {
      ReachCounts(s, s.lists[i], a);
    }
    UpCounts(all, s.lists);
    UpDown(all);
    var v, u: multiset<Id> := multiset(Visits(s, a)), multiset(Up(s.lists));
    assert v <= u;
    forall d ensures v[d] <= 1 {
      assert u[d] <= 1;
    }
  }

  lemma VisitsListed(s: Pm, num: nat, a: Action, d: Id)
    requires Inv(s, num) && AllOk(s, a) && Listed(s, d)
    ensures d in Visits(s, a) && CallbackOk(s, d, a)
  {
    VisitsAll(s, num, a, 0);
    assert d in Visits(s, a) <==> d in multiset(Visits(s, a));
  }

  /** Suspending, even when some callbacks fail, damages nothing that is not its own. */
  lemma SuspendIsIntact(s: Pm, num: nat, base: nat, mem: seq<uint32>, regs: Registers)
    requires Inv(s, num) && |mem| == num && Encodes(mem, base, s.blocks) && AllReady(s, regs)
    ensures CanNotify(s, num, regs, Visits(s, Suspend))
    ensures Intact(s, base, mem, SaveAll(s, Visits(s, Suspend), mem, regs))
  {
    VisitsWithin(s, num, Suspend, regs);
    var down := Visits(s, Suspend);
    var mem1 := SaveAll(s, down, mem, regs);
    forall x | 0 <= x < num && mem1[x] != mem[x]
      ensures exists d :: Listed(s, d) && Own(s, d, x)
      ensures !IsHeaderWord(s.blocks, x)
    {
      if forall d :: d in down ==> !Own(s, d, x) { SaveAllFrame(s, down, mem, regs, x); }
      var d :| d in down && Own(s, d, x);
      OwnApart(s, num, d, d, x);
    }
    EncodesFrame(mem, mem1, base, s.blocks);
  }

  /** The device was reached and its callback succeeded. */
  ghost predicate Served(s: Pm, d: Id, a: Action) { d in Visits(s, a) && CallbackOk(s, d, a) }

  /** What one device has after suspend, loss of the registers and resume.  One that was saved and
      resumed has its saved registers back.  One that was resumed without having been saved has
      whatever words its block held before the suspend.  One that was not resumed has nothing back. */
  ghost predicate Outcome(s: Pm, d: Id, mem: seq<uint32>, was: seq<uint32>, lost: seq<uint32>, r: seq<uint32>)
    requires Served(s, d, Resume) ==> WordsExist(s, d, |mem|) && InBank(s.devs[d].driver.chunks, |lost|)
  {
    if !Served(s, d, Resume) then r == lost
    else if Served(s, d, Suspend) then Back(s.devs[d].driver.chunks, was, lost, r)
    else r == Scatter(lost, s.devs[d].driver.chunks, Words(s, d, mem))
  }

  ghost predicate CanResume(s: Pm, num: nat, regs: Registers) {
    forall d :: Served(s, d, Resume) ==> WordsExist(s, d, num) && Ready(s, d, regs)
  }

  /** Suspend everything, lose the registers, resume everything, with any callbacks failing.

      For every state that meets the invariant and whatever the registers hold on wake-up (`lost`):
      each device has its outcome whatever the others do, the allocator's list is still stored word
      for word, and no word outside the listed devices' blocks has changed. */
  lemma DeepSleepOutcome(s: Pm, num: nat, base: nat, mem: seq<uint32>, regs: Registers, lost: Registers)
    requires Inv(s, num) && |mem| == num && Encodes(mem, base, s.blocks)
    requires AllReady(s, regs) && AllReady(s, lost)
    requires lost.Keys == regs.Keys && forall d :: d in regs ==> |lost[d]| == |regs[d]|
    ensures CanNotify(s, num, regs, Visits(s, Suspend)) && CanNotify(s, num, lost, Visits(s, Resume))
    ensures CanResume(s, num, lost)
    ensures var mem1 := SaveAll(s, Visits(s, Suspend), mem, regs);
      var r := RestoreAll(s, Visits(s, Resume), mem1, lost);
      && Intact(s, base, mem, mem1)
      && forall d :: d in regs ==> Outcome(s, d, mem, regs[d], lost[d], r[d])
  {
    SuspendIsIntact(s, num, base, mem, regs);
    VisitsWithin(s, num, Suspend, regs);
    VisitsWithin(s, num, Resume, lost);
    CanAllResume(s, num, lost);
    forall d | d in regs
      ensures Outcome(s, d, mem, regs[d], lost[d],
                      RestoreAll(s, Visits(s, Resume), SaveAll(s, Visits(s, Suspend), mem, regs), lost)[d])
    {
      DeviceOutcome(s, num, mem, regs, lost, d);
    }
  }

  lemma CanAllResume(s: Pm, num: nat, regs: Registers)
    requires Inv(s, num) && AllReady(s, regs)
    ensures CanResume(s, num, regs)
  {
    VisitsWithin(s, num, Resume, regs);
    forall d | Served(s, d, Resume) ensures WordsExist(s, d, num) && Ready(s, d, regs) {
      assert Listed(s, d);
      ListedInRegion(s, num, regs, d);
    }
  }

  lemma DeviceOutcome(s: Pm, num: nat, mem: seq<uint32>, regs: Registers, lost: Registers, d: Id)
    requires Inv(s, num) && |mem| == num && AllReady(s, regs) && AllReady(s, lost) && CanResume(s, num, lost)
    requires CanNotify(s, num, regs, Visits(s, Suspend)) && CanNotify(s, num, lost, Visits(s, Resume))
    requires d in regs && d in lost && |lost[d]| == |regs[d]|
    ensures var r := RestoreAll(s, Visits(s, Resume), SaveAll(s, Visits(s, Suspend), mem, regs), lost);
      Outcome(s, d, mem, regs[d], lost[d], r[d])
  {
    hide Visits, SaveAll, RestoreAll, Inv, Stored;
    var down, up := Visits(s, Suspend), Visits(s, Resume);
    var mem1 := SaveAll(s, down, mem, regs);
    VisitsWithin(s, num, Suspend, regs);
    VisitsWithin(s, num, Resume, lost);
    VisitsOnce(s, num, Suspend);
    VisitsOnce(s, num, Resume);
    if d !in up {
      RestoreAllFrame(s, up, mem1, lost, d);
    } else {
      assert Listed(s, d);
      ListedInRegion(s, num, lost, d);
      RestoreAllGives(s, up, mem1, lost, d);
      if Served(s, d, Suspend) {
        SaveAllStores(s, num, down, mem, regs, d);
        StoredIsBack(s, mem1, regs, lost[d], d);
      } else {
        UnsavedKept(s, num, down, mem, regs, d);
      }
    }
  }

  /** When no callback fails, each listed device gets back exactly the registers it saved, and no other
      register is written. */
  lemma DeepSleepRoundTrip(s: Pm, num: nat, base: nat, mem: seq<uint32>, regs: Registers, lost: Registers)
    requires Inv(s, num) && |mem| == num && Encodes(mem, base, s.blocks)
    requires AllOk(s, Suspend) && AllOk(s, Resume) && AllReady(s, regs) && AllReady(s, lost)
    requires lost.Keys == regs.Keys && forall d :: d in regs ==> |lost[d]| == |regs[d]|
    ensures CanNotify(s, num, regs, Visits(s, Suspend)) && CanNotify(s, num, lost, Visits(s, Resume))
    ensures var mem1 := SaveAll(s, Visits(s, Suspend), mem, regs);
      var r := RestoreAll(s, Visits(s, Resume), mem1, lost);
      && Intact(s, base, mem, mem1)
      && forall d :: d in regs ==> Restored(s, d, regs[d], lost[d], r[d])
  {
    hide Visits, SaveAll, RestoreAll, Inv, Intact;
    DeepSleepOutcome(s, num, base, mem, regs, lost);
    forall d | d in regs
      ensures Restored(s, d, regs[d], lost[d],
                       RestoreAll(s, Visits(s, Resume), SaveAll(s, Visits(s, Suspend), mem, regs), lost)[d])
    {
      VisitsWithin(s, num, Resume, lost);
      if Listed(s, d) {
        VisitsListed(s, num, Suspend, d);
        VisitsListed(s, num, Resume, d);
      }
    }
  }

  // ---- behind a failure ----

  /** A list is walked as a prefix that ends no later than a failing callback. */
  lemma {:induction false} ReachStops(s: Pm, l: seq<Id>, a: Action, j: nat)
    requires j < |l| && !CallbackOk(s, l[j], a)
    ensures var r := Reach(s, l, a); |r| <= j + 1 && r == l[..|r|]
  {
    if CallbackOk(s, l[0], a) {
      ReachStops(s, l[1..], a, j - 1);
      assert l == [l[0]] + l[1..];
    }
  }

  lemma {:induction false} UpAtLeast(lists: seq<seq<Id>>, i: nat, d: Id)
    requires i < |lists|
    ensures multiset(lists[i])[d] <= multiset(Up(lists))[d]
  {
    assert multiset(Up(lists)) == multiset(lists[0]) + multiset(Up(lists[1..]));
    if i > 0 { UpAtLeast(lists[1..], i - 1, d); }
  }

  lemma {:induction false} UpTwice(lists: seq<seq<Id>>, i: nat, j: nat, d: Id)
    requires i < j < |lists| && d in lists[i] && d in lists[j]
    ensures multiset(Up(lists))[d] >= 2
  {
    assert multiset(Up(lists)) == multiset(lists[0]) + multiset(Up(lists[1..]));
    if i > 0 {
      UpTwice(lists[1..], i - 1, j - 1, d);
    } else {
      UpAtLeast(lists[1..], j - 1, d);
      assert d in multiset(lists[j]);
    }
  }

  lemma TwiceInList(l: seq<Id>, m: nat, k: nat)
    requires m <= k < |l| && l[k] in l[..m]
    ensures multiset(l)[l[k]] >= 2
  {
    assert l == l[..m] + l[m..];
    assert l[k] in l[m..] by { assert l[m..][k - m] == l[k]; }
    assert l[k] in multiset(l[..m]) && l[k] in multiset(l[m..]);
  }

  /** A device behind a failing one in the same list is not reached.  So if that list is not the last
      one walked, the failure is not reported, the core sleeps, and the device is resumed, when the
      resume reaches it, from words that this suspend did not save (`DeepSleepOutcome`). */
  lemma BehindFailure(s: Pm, num: nat, a: Action, i: nat, j: nat, k: nat)
    requires Inv(s, num) && i < |s.lists| && j < k < |s.lists[i]| && !CallbackOk(s, s.lists[i][j], a)
    ensures !Served(s, s.lists[i][k], a)
  {
    var l, all := s.lists[i], ReachAll(s, a);
    var d := l[k];
    assert OnceEach(s.lists) && multiset(Up(s.lists))[d] <= 1;
    if d in Visits(s, a) {
      UpDown(all);
      assert d in multiset(Up(all));
      var n := UpFrom(all, d);
      ReachWithin(s, s.lists[n], a, d);
      if n == i {
        ReachStops(s, l, a, j);
        TwiceInList(l, |all[i]|, k);
        UpAtLeast(s.lists, i, d);
      } else {
        UpTwice(s.lists, if n < i then n else i, if n < i then i else n, d);
      }
    }
  }

  /** The hypothesis that a callback stays within what it asked for is needed: one word too many
      lands on the `next` word of the following header, and unless it happens to hold that very
      address the list is no longer stored.  (csi_spi_enable_pm asks for 36 bytes and its
      callback saves 12 words.) */
  lemma OverrunBreaksList(bs: Layout, base: nat, mem: seq<uint32>, i: nat, data: seq<uint32>)
    requires Tiles(bs, |mem|) && Encodes(mem, base, bs) && i + 1 < |bs|
    requires |data| > bs[i].words && bs[i].Payload() + |data| <= |mem|
    requires data[bs[i].words] != NextWord(bs, base, i + 1)
    ensures !Encodes(Put(mem, bs[i].Payload(), data), base, bs)
  {
    var mem1 := Put(mem, bs[i].Payload(), data);
    assert Abuts(bs, i + 1);
    assert mem1[bs[i + 1].at] == data[bs[i].words];
    assert !HeaderStored(mem1, base, bs, i + 1);
  }
}
