/** Device registration and suspend/resume of power_manage.c, as values.

    A device is known by its address (`Id`).  Its callback is a `Driver`: the runs of registers it
    saves one after the other into its retention block and restores from there, and whether it
    reports success.  A callback that fails saves and restores nothing.  The registers
    themselves are a map from device to register words.
  */
module PowerManagement {
  import opened Wrappers
  import opened MachineWords
  import opened RetentionLayout
  import opened RetentionMemory

  const PRIORITIES := 4  // CONFIG_PM_DEV_PRIORITY

  type Id = nat
  type Registers = map<Id, seq<uint32>>

  datatype Action = Suspend | Resume
  datatype Chunk = Chunk(reg: nat, num: nat)
  datatype Driver = Driver(chunks: seq<Chunk>, suspendOk: bool, resumeOk: bool)

  /** `csi_pm_dev_t`: the callback, the size asked for in words, and the payload index of the
      retention block (`None` for a null `reten_mem`). */
  datatype PmDev = PmDev(driver: Driver, words: nat, reten: Option<nat>)

  datatype Pm = Pm(blocks: Layout, lists: seq<seq<Id>>, devs: map<Id, PmDev>)

  // ---- registration ----

  function Up(lists: seq<seq<Id>>): seq<Id> {
    if lists == [] then [] else lists[0] + Up(lists[1..])
  }

  function Down(lists: seq<seq<Id>>): seq<Id> {
    if lists == [] then [] else Down(lists[1..]) + lists[0]
  }

  predicate Listed(s: Pm, d: Id) { d in Up(s.lists) }

  /** `csi_pm_dev_register`: the device goes to the head of its list whether or not a block could
      be had for it. */
  function Register(s: Pm, d: Id, driver: Driver, words: nat, priority: nat): (Pm, bool)
    requires priority < |s.lists|
  {
    var (r, bs) := Alloc(s.blocks, words);
    (Pm(bs, s.lists[priority := [d] + s.lists[priority]], s.devs[d := PmDev(driver, words, r)]), r.Some?)
  }

  function RemoveFirst(l: seq<Id>, d: Id): seq<Id> {
    if l == [] then [] else if l[0] == d then l[1..] else [l[0]] + RemoveFirst(l[1..], d)
  }

  function RemoveFromAll(lists: seq<seq<Id>>, d: Id): seq<seq<Id>> {
    seq(|lists|, i requires 0 <= i < |lists| => RemoveFirst(lists[i], d))
  }

  function Reten(s: Pm, d: Id): Option<nat> {
    if d in s.devs then s.devs[d].reten else None
  }

  /** `csi_pm_dev_unregister`: off every list, then the block its record names is freed. */
  function Unregister(s: Pm, d: Id): Pm {
    var r := Reten(s, d);
    s.(lists := RemoveFromAll(s.lists, d), blocks := if r.Some? then Free(s.blocks, r.value) else s.blocks)
  }

  ghost predicate OnceEach(lists: seq<seq<Id>>) {
    forall d :: multiset(Up(lists))[d] <= 1
  }

  ghost predicate Keeps(s: Pm, d: Id) {
    d in s.devs && (Reten(s, d).Some? ==> Live(s.blocks, Reten(s, d).value, s.devs[d].words))
  }

  ghost predicate Apart(s: Pm, d: Id, e: Id) {
    Reten(s, d).Some? ==> Reten(s, e) != Reten(s, d)
  }

  /** What holds between calls: the list tiles the region, no device is listed twice, and each
      listed device that was given a block still has it, to itself. */
  ghost predicate Inv(s: Pm, num: nat) {
    && Tiles(s.blocks, num)
    && |s.lists| == PRIORITIES
    && OnceEach(s.lists)
    && (forall d :: Listed(s, d) ==> Keeps(s, d))
    && (forall d, e :: Listed(s, d) && Listed(s, e) && d != e ==> Apart(s, d, e))
  }

  function Initial(num: nat): Pm
    requires num == 0 || num >= 3
  {
    Pm(if num == 0 then [] else Fresh(num), [[], [], [], []], map[])
  }

  lemma UpOne(l: seq<Id>)
    ensures Up([l, [], [], []]) == l
  {
    var none: seq<Id> := [];
    assert Up([none]) == [] by { assert [none][1..] == []; }
    assert Up([none, none]) == [] by { assert [none, none][1..] == [none]; }
    assert Up([none, none, none]) == [] by { assert [none, none, none][1..] == [none, none]; }
    assert [l, none, none, none][1..] == [none, none, none];
  }

  lemma InitialInv(num: nat)
    requires num == 0 || num >= 3
    ensures Inv(Initial(num), num)
  {
    UpOne([]);
  }

  lemma {:induction false} UpDown(lists: seq<seq<Id>>)
    ensures multiset(Up(lists)) == multiset(Down(lists))
  {
    if lists != [] { UpDown(lists[1..]); }
  }

  lemma {:induction false} UpAdd(lists: seq<seq<Id>>, i: nat, d: Id)
    requires i < |lists|
    ensures multiset(Up(lists[i := [d] + lists[i]])) == multiset(Up(lists)) + multiset{d}
  {
    var u := lists[i := [d] + lists[i]];
    if i == 0 {
      assert u[1..] == lists[1..];
      assert Up(u) == [d] + Up(lists);
      assert multiset([d] + Up(lists)) == multiset{d} + multiset(Up(lists));
    } else {
      var t, v := Up(lists[1..]), Up(u[1..]);
      assert u[1..] == lists[1..][i - 1 := [d] + lists[1..][i - 1]];
      UpAdd(lists[1..], i - 1, d);
      assert multiset(lists[0] + v) == multiset(lists[0]) + multiset(v);
      assert multiset(lists[0] + t) == multiset(lists[0]) + multiset(t);
    }
  }

  lemma {:induction false} RemoveFirstCount(l: seq<Id>, d: Id)
    ensures multiset(RemoveFirst(l, d)) == multiset(l) - multiset{d}
  {
    if l != [] {
      assert l == [l[0]] + l[1..];
      RemoveFirstCount(l[1..], d);
      assert multiset(l) == multiset{l[0]} + multiset(l[1..]);
      if l[0] != d {
        assert multiset(RemoveFirst(l, d)) == multiset{l[0]} + multiset(RemoveFirst(l[1..], d));
      }
    }
  }

  /** Off every list: no count grows, and with at most one listing none is left. */
  lemma {:induction false} RemoveFromAllCount(lists: seq<seq<Id>>, d: Id, e: Id)
    ensures multiset(Up(RemoveFromAll(lists, d)))[e] <= multiset(Up(lists))[e]
    ensures e != d ==> multiset(Up(RemoveFromAll(lists, d)))[e] == multiset(Up(lists))[e]
    ensures multiset(Up(lists))[d] <= 1 ==> multiset(Up(RemoveFromAll(lists, d)))[d] == 0
  {
    if lists != [] {
      var r := RemoveFromAll(lists, d);
      assert r[1..] == RemoveFromAll(lists[1..], d);
      assert r[0] == RemoveFirst(lists[0], d);
      RemoveFirstCount(lists[0], d);
      RemoveFromAllCount(lists[1..], d, e);
      assert Up(lists) == lists[0] + Up(lists[1..]) && Up(r) == r[0] + Up(r[1..]);
    }
  }

  lemma RegisterLists(s: Pm, d: Id, driver: Driver, words: nat, priority: nat)
    requires priority < |s.lists| && OnceEach(s.lists) && !Listed(s, d)
    ensures var s' := Register(s, d, driver, words, priority).0;
      OnceEach(s'.lists) && forall e :: Listed(s', e) <==> Listed(s, e) || e == d
  {
    var s' := Register(s, d, driver, words, priority).0;
    UpAdd(s.lists, priority, d);
    forall e ensures Listed(s', e) <==> Listed(s, e) || e == d {
      assert Listed(s', e) <==> e in multiset(Up(s'.lists));
      assert Listed(s, e) <==> e in multiset(Up(s.lists));
    }
    assert multiset(Up(s.lists))[d] == 0;
  }

  lemma RegisterInv(s: Pm, num: nat, d: Id, driver: Driver, words: nat, priority: nat)
    requires Inv(s, num) && priority < PRIORITIES && !Listed(s, d)
    ensures Inv(Register(s, d, driver, words, priority).0, num)
  {
    var s' := Register(s, d, driver, words, priority).0;
    RegisterLists(s, d, driver, words, priority);
    StepTiles(s.blocks, num, DoAlloc(words));
    AllocGivesLive(s.blocks, num, words);
    assert Keeps(s', d);
    forall e | Listed(s, e) ensures Keeps(s', e) && Apart(s', e, d) && Apart(s', d, e) {
      assert Keeps(s, e);
      if Reten(s, e).Some? {
        AllocKeepsLive(s.blocks, num, words, Reten(s, e).value, s.devs[e].words);
        assert Live(s.blocks, Reten(s, e).value, 0);
      }
    }
    forall e, f | Listed(s, e) && Listed(s, f) && e != f ensures Apart(s', e, f) {
      assert Apart(s, e, f);
    }
  }

  /** Some free block has room for that many words. */
  ghost predicate FreeRoom(bs: Layout, words: nat) {
    exists i :: 0 <= i < |bs| && !bs[i].used && bs[i].words >= words
  }

  /** What registering comes to: success exactly when some free block was big enough; the device first in
      its list, ahead of the others in their order, and in no other; its record with what was asked
      for and, on success, a block that nobody had. */
  lemma RegisterMeans(s: Pm, num: nat, d: Id, driver: Driver, words: nat, priority: nat)
    requires Tiles(s.blocks, num) && priority < |s.lists|
    ensures var (s', ok) := Register(s, d, driver, words, priority);
      && (ok <==> FreeRoom(s.blocks, words))
      && |s'.lists| == |s.lists| && s'.lists[priority] == [d] + s.lists[priority]
      && (forall i :: 0 <= i < |s.lists| && i != priority ==> s'.lists[i] == s.lists[i])
      && s'.devs.Keys == s.devs.Keys + {d} && (forall e :: e in s.devs && e != d ==> s'.devs[e] == s.devs[e])
      && s'.devs[d].driver == driver && s'.devs[d].words == words
      && (!ok ==> s'.devs[d].reten == None && s'.blocks == s.blocks)
      && (ok ==> s'.devs[d].reten.Some? && !Live(s.blocks, s'.devs[d].reten.value, 0)
                 && Live(s'.blocks, s'.devs[d].reten.value, words))
  {
    AllocGivesLive(s.blocks, num, words);
    SomeIff(s.blocks, words);
    hide Live, Chosen, FreeRoom;
  }

  lemma SomeIff(bs: Layout, words: nat)
    ensures Alloc(bs, words).0.Some? <==> FreeRoom(bs, words)
  {
    var i := Chosen(bs, words);
    assert i < |bs| ==> !bs[i].used && bs[i].words >= words;
  }

  /** Taking a device off a list: its first entry goes, the rest keeps its order. */
  ghost predicate WithoutFirst(l: seq<Id>, d: Id, r: seq<Id>) {
    if d !in l then r == l
    else exists i :: 0 <= i < |l| && l[i] == d && d !in l[..i] && r == l[..i] + l[i + 1..]
  }

  lemma {:induction false} RemoveFirstAt(l: seq<Id>, d: Id) returns (i: nat)
    requires d in l
    ensures i < |l| && l[i] == d && d !in l[..i] && RemoveFirst(l, d) == l[..i] + l[i + 1..]
  {
    if l[0] == d {
      return 0;
    }
    var t := l[1..];
    i := RemoveFirstAt(t, d);
    ShiftedParts(l, i);
    i := i + 1;
  }

  lemma ShiftedParts(l: seq<Id>, i: nat)
    requires i + 1 < |l|
    ensures var t := l[1..]; l[..i + 1] == [l[0]] + t[..i] && l[i + 2..] == t[i + 1..] && l[i + 1] == t[i]
  {
  }

  lemma {:induction false} RemoveFirstNone(l: seq<Id>, d: Id)
    requires d !in l
    ensures RemoveFirst(l, d) == l
  {
    if l != [] { RemoveFirstNone(l[1..], d); }
  }

  lemma RemoveFirstIs(l: seq<Id>, d: Id)
    ensures WithoutFirst(l, d, RemoveFirst(l, d))
  {
    hide RemoveFirst;
    if d in l {
      var i := RemoveFirstAt(l, d);
    } else {
      RemoveFirstNone(l, d);
    }
  }

  /** What unregistering comes to: off every list, the block that the record names free, all else as it
      was. */
  lemma UnregisterMeans(s: Pm, d: Id)
    ensures var s' := Unregister(s, d);
      && |s'.lists| == |s.lists| && (forall i :: 0 <= i < |s.lists| ==> WithoutFirst(s.lists[i], d, s'.lists[i]))
      && s'.devs == s.devs && |s'.blocks| == |s.blocks|
      && (forall i :: 0 <= i < |s.blocks| ==>
            s'.blocks[i] == if d in s.devs && s.devs[d].reten == Some(s.blocks[i].Payload())
                            then s.blocks[i].(used := false) else s.blocks[i])
  {
    forall i | 0 <= i < |s.lists| ensures WithoutFirst(s.lists[i], d, Unregister(s, d).lists[i]) {
      RemoveFirstIs(s.lists[i], d);
    }
  }

  lemma UnregisterLists(s: Pm, d: Id)
    requires OnceEach(s.lists)
    ensures var s' := Unregister(s, d);
      OnceEach(s'.lists) && forall e :: Listed(s', e) <==> Listed(s, e) && e != d
  {
    var s' := Unregister(s, d);
    forall e
      ensures multiset(Up(s'.lists))[e] <= 1
      ensures Listed(s', e) <==> Listed(s, e) && e != d
    {
      RemoveFromAllCount(s.lists, d, e);
      assert Listed(s, e) <==> e in multiset(Up(s.lists));
      assert Listed(s', e) <==> e in multiset(Up(s'.lists));
    }
  }

  /** Unregistering keeps the invariant exactly when no other listed device holds the block that
      the device's record names.  A registered device always meets this; a second unregister of the
      same device need not, since its record keeps the old address. */
  lemma UnregisterInvIff(s: Pm, num: nat, d: Id)
    requires Inv(s, num)
    ensures Inv(Unregister(s, d), num) <==> forall e :: Listed(s, e) && e != d ==> Apart(s, d, e)
    ensures Listed(s, d) ==> Inv(Unregister(s, d), num)
  {
    var s' := Unregister(s, d);
    var r := Reten(s, d);
    UnregisterLists(s, d);
    if r.Some? { FreeTiles(s.blocks, num, r.value); }
    forall e | Listed(s, e) && e != d ensures Keeps(s', e) <==> Apart(s, d, e) {
      assert Keeps(s, e);
      if r.Some? && Reten(s, e).Some? && Reten(s, e) != r {
        FreeKeepsLive(s.blocks, Reten(s, e).value, r.value, s.devs[e].words);
      }
    }
    forall e, f | Listed(s', e) && Listed(s', f) && e != f ensures Apart(s', e, f) {
      assert Apart(s, e, f);
    }
    if !(forall e :: Listed(s, e) && e != d ==> Apart(s, d, e)) {
      var e :| Listed(s, e) && e != d && !Apart(s, d, e);
      assert Listed(s', e) && !Keeps(s', e);
    }
  }

  datatype Call =
    | CallRegister(dev: Id, driver: Driver, words: nat, priority: nat)
    | CallUnregister(dev: Id)

  /** What power_manage.c demands of its callers. */
  predicate Legal(s: Pm, c: Call) {
    match c
    case CallRegister(d, _, _, priority) => priority < |s.lists| && !Listed(s, d)
    case CallUnregister(d) => Listed(s, d)
  }

  function Do(s: Pm, c: Call): Pm
    requires Legal(s, c)
  {
    match c
    case CallRegister(d, driver, words, priority) => Register(s, d, driver, words, priority).0
    case CallUnregister(d) => Unregister(s, d)
  }

  ghost predicate LegalRun(s: Pm, cs: seq<Call>)
    decreases |cs|
  {
    cs == [] || (Legal(s, cs[0]) && LegalRun(Do(s, cs[0]), cs[1..]))
  }

  function DoAll(s: Pm, cs: seq<Call>): Pm
    requires LegalRun(s, cs)
    decreases |cs|
  {
    if cs == [] then s else DoAll(Do(s, cs[0]), cs[1..])
  }

  /** Every run of registrations and unregistrations keeps the invariant. */
  lemma {:induction false} RunInv(s: Pm, num: nat, cs: seq<Call>)
    requires Inv(s, num) && LegalRun(s, cs)
    ensures Inv(DoAll(s, cs), num)
    decreases |cs|
  {
    if cs != [] {
      match cs[0] {
        case CallRegister(d, driver, words, priority) => RegisterInv(s, num, d, driver, words, priority);
        case CallUnregister(d) => UnregisterInvIff(s, num, d);
      }
      RunInv(Do(s, cs[0]), num, cs[1..]);
    }
  }

  /** The state after registering device 1, unregistering it and registering device 2. */
  function Reused(driver: Driver): Pm {
    Pm([Block(0, 4, true), Block(6, 8, false)], [[2], [], [], []],
       map[1 := PmDev(driver, 4, Some(2)), 2 := PmDev(driver, 4, Some(2))])
  }

  lemma ReusedIsReached(driver: Driver)
    ensures var s0 := Initial(16);
      var first, second := CallRegister(1, driver, 4, 0), CallRegister(2, driver, 4, 0);
      && Legal(s0, first)
      && Legal(Do(s0, first), CallUnregister(1))
      && Legal(Do(Do(s0, first), CallUnregister(1)), second)
      && Do(Do(Do(s0, first), CallUnregister(1)), second) == Reused(driver)
  {
    hide Register, Unregister;
    var s1 := Pm([Block(0, 4, true), Block(6, 8, false)], [[1], [], [], []], map[1 := PmDev(driver, 4, Some(2))]);
    var s2 := s1.(blocks := [Block(0, 4, false), Block(6, 8, false)], lists := [[], [], [], []]);
    UpOne([]);
    UpOne([1]);
    FirstRegistered(driver, s1);
    ThenUnregistered(s1, s2);
    ThenReused(driver, s2);
  }

  lemma FirstRegistered(driver: Driver, s1: Pm)
    requires s1 == Pm([Block(0, 4, true), Block(6, 8, false)], [[1], [], [], []], map[1 := PmDev(driver, 4, Some(2))])
    ensures Register(Initial(16), 1, driver, 4, 0).0 == s1
  {
    var s0 := Initial(16);
    assert Chosen(s0.blocks, 4) == 0;
    assert Carve(s0.blocks, 0, 4) == s1.blocks;
    assert [1] + s0.lists[0] == s1.lists[0];
    assert s0.lists[0 := [1] + s0.lists[0]] == s1.lists;
  }

  lemma ThenUnregistered(s1: Pm, s2: Pm)
    requires s1.blocks == [Block(0, 4, true), Block(6, 8, false)] && s1.lists == [[1], [], [], []]
    requires Reten(s1, 1) == Some(2)
    requires s2 == s1.(blocks := [Block(0, 4, false), Block(6, 8, false)], lists := [[], [], [], []])
    ensures Unregister(s1, 1) == s2
  {
    assert RemoveFirst([1], 1) == [];
    assert RemoveFromAll(s1.lists, 1) == s2.lists;
    assert Free(s1.blocks, 2) == s2.blocks;
  }

  lemma ThenReused(driver: Driver, s2: Pm)
    requires s2 == Pm([Block(0, 4, false), Block(6, 8, false)], [[], [], [], []], map[1 := PmDev(driver, 4, Some(2))])
    ensures Register(s2, 2, driver, 4, 0).0 == Reused(driver)
  {
    assert Chosen(s2.blocks, 4) == 0;
    assert Carve(s2.blocks, 0, 4) == Reused(driver).blocks;
    assert [2] + s2.lists[0] == Reused(driver).lists[0];
    assert s2.lists[0 := [2] + s2.lists[0]] == Reused(driver).lists;
    assert s2.devs[2 := PmDev(driver, 4, Some(2))] == Reused(driver).devs;
  }

  /** Unregistering a device twice can free a block that another device was given meanwhile:
      here device 1 is not listed any more, and freeing what its record names takes device 2's block. */
  lemma StaleUnregisterBreaksAnother(driver: Driver)
    ensures var s := Reused(driver);
      Inv(s, 16) && !Listed(s, 1) && !Inv(Unregister(s, 1), 16)
  {
    var s := Reused(driver);
    ReusedIsReached(driver);
    var first, second := CallRegister(1, driver, 4, 0), CallRegister(2, driver, 4, 0);
    InitialInv(16);
    var s0 := Initial(16);
    RegisterInv(s0, 16, 1, driver, 4, 0);
    UnregisterInvIff(Do(s0, first), 16, 1);
    RegisterInv(Do(Do(s0, first), CallUnregister(1)), 16, 2, driver, 4, 0);
    UpOne([2]);
    UnregisterInvIff(s, 16, 1);
    assert Listed(s, 2) && !Apart(s, 1, 2);
  }
}
