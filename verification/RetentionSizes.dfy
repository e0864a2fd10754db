/** The allocator's size words, for requests of any number of bytes.

    A node's size word holds a number of bytes with the used bit in bit 0, and every test of the two
    passes is made on that word.  For requests that are multiples of 4 this is the block list of
    `RetentionLayout`.  Drivers also ask for 10 and for 25 bytes; headers then lie at any byte, so a
    node is here its byte offset in the region and its size word.  `holders` is not stored anywhere:
    it has, for each caller that holds the payload, the number of bytes it asked for.
  */
module RetentionSizes {
  import opened Wrappers
  import opened MachineWords
  import opened RetentionLayout

  datatype Node = Node(at: nat, word: nat, holders: seq<nat>)
  type Nodes = seq<Node>

  // ---- the operations ----

  /** First pass: the first node whose word equals the request, else `|ns|`. */
  function FirstEqual(ns: Nodes, size: nat): (i: nat)
    ensures i <= |ns|
    ensures i < |ns| ==> ns[i].word == size
    ensures forall j :: 0 <= j < i ==> ns[j].word != size
  {
    if ns == [] || ns[0].word == size then 0 else
      var k := FirstEqual(ns[1..], size);
      assert forall j :: 0 < j < 1 + k ==> ns[j] == ns[1..][j - 1];
      1 + k
  }

  /** Second pass: the first node with a larger word and no used bit, else `|ns|`. */
  function FirstLarger(ns: Nodes, size: nat): (i: nat)
    ensures i <= |ns|
    ensures i < |ns| ==> ns[i].word > size && !Bit0(ns[i].word)
    ensures forall j :: 0 <= j < i ==> ns[j].word <= size || Bit0(ns[j].word)
  {
    if ns == [] || (ns[0].word > size && !Bit0(ns[0].word)) then 0 else
      var k := FirstLarger(ns[1..], size);
      assert forall j :: 0 < j < 1 + k ==> ns[j] == ns[1..][j - 1];
      1 + k
  }

  /** Node `i` split after `size` bytes, in 32-bit arithmetic. */
  function SplitNode(ns: Nodes, i: nat, size: nat): Nodes
    requires i < |ns|
  {
    var n := ns[i];
    var first := Node(n.at, SetBit0(size), n.holders + [size]);
    var rest := Node(n.at + 8 + size, (n.word - size - 8) % TWO_32, []);
    ns[..i] + [first, rest] + ns[i + 1..]
  }

  function Taken(n: Node, size: nat): Node { n.(word := SetBit0(n.word), holders := n.holders + [size]) }

  /** Frees come from callers that hold the payload; a payload that nobody holds may be freed too. */
  function Freed(n: Node, who: nat): Node {
    if n.holders == [] then n.(word := ClearBit0(n.word))
    else if who < |n.holders| then
      n.(word := ClearBit0(n.word), holders := n.holders[..who] + n.holders[who + 1..])
    else n
  }

  /** `pm_alloc_reten_mem`: the node handed out, and the list after it. */
  function Request(ns: Nodes, size: uint32): (r: (Option<nat>, Nodes))
    ensures r.0.Some? ==> r.0.value < |ns| && r.0.value < |r.1|
  {
    var e, f := FirstEqual(ns, size), FirstLarger(ns, size);
    if e < |ns| then (Some(e), ns[e := Taken(ns[e], size)])
    else if f == |ns| then (None, ns)
    else if ns[f].word >= (size + 12) % TWO_32 then (Some(f), SplitNode(ns, f, size))
    else (Some(f), ns[f := Taken(ns[f], size)])
  }

  /** `pm_free_reten_mem`; an address that is no payload is a number beyond the list. */
  function FreeNode(ns: Nodes, i: nat, who: nat): Nodes {
    if i < |ns| then ns[i := Freed(ns[i], who)] else ns
  }

  datatype SizeOp = Ask(size: uint32) | GiveBack(node: nat, who: nat)

  function SizeStep(ns: Nodes, op: SizeOp): Nodes {
    match op case Ask(size) => Request(ns, size).1 case GiveBack(i, who) => FreeNode(ns, i, who)
  }

  function SizeRun(ns: Nodes, ops: seq<SizeOp>): Nodes
    decreases |ops|
  {
    if ops == [] then ns else SizeRun(SizeStep(ns, ops[0]), ops[1..])
  }

  /** A region of `num` words that the address space can hold. */
  predicate Region(num: nat) { 3 <= num < 0x4000_0000 }

  /** What `csi_pm_set_reten_mem` leaves. */
  function FreshNode(num: nat): Nodes
    requires Region(num)
  {
    [Node(0, 4 * num - 8, [])]
  }

  // ---- one and two requests on a fresh region ----

  lemma {:induction false} SizeRunConcat(ns: Nodes, ops: seq<SizeOp>, more: seq<SizeOp>)
    ensures SizeRun(ns, ops + more) == SizeRun(SizeRun(ns, ops), more)
    decreases |ops|
  {
    hide SizeStep;
    if ops == [] {
      assert ops + more == more;
    } else {
      assert (ops + more)[0] == ops[0] && (ops + more)[1..] == ops[1..] + more;
      SizeRunConcat(SizeStep(ns, ops[0]), ops[1..], more);
    }
  }

  lemma SizeRunOne(ns: Nodes, op: SizeOp)
    ensures SizeRun(ns, [op]) == SizeStep(ns, op)
  {
    assert [op][1..] == [];
  }

  lemma FirstRequest(num: nat, size: uint32)
    requires Region(num) && size + 20 <= 4 * num
    ensures SizeRun(FreshNode(num), [Ask(size)]) ==
      [Node(0, SetBit0(size), [size]), Node(8 + size, 4 * num - 16 - size, [])]
  {
    var ns := FreshNode(num);
    SizeRunOne(ns, Ask(size));
    FreshSplits(num, size);
    SplitWhole(ns[0], size);
  }

  lemma FreshSplits(num: nat, size: uint32)
    requires Region(num) && size + 20 <= 4 * num
    ensures Request(FreshNode(num), size).1 == SplitNode(FreshNode(num), 0, size)
  {
    var ns := FreshNode(num);
    assert ns[0].word == 2 * (2 * num - 4);
    assert FirstEqual(ns, size) == 1 && FirstLarger(ns, size) == 0;
  }

  lemma SplitWhole(n: Node, size: nat)
    requires n.holders == [] && size + 8 <= n.word < TWO_32
    ensures SplitNode([n], 0, size) ==
      [Node(n.at, SetBit0(size), [size]), Node(n.at + 8 + size, n.word - size - 8, [])]
  {
    assert [n][..0] == [] && [n][1..] == [] && n.holders + [size] == [size];
  }

  /** The first node, when its word is the request, is what the request gets. */
  lemma FirstMatches(ns: Nodes, size: uint32)
    requires ns != [] && ns[0].word == size
    ensures Request(ns, size) == (Some(0), ns[0 := Taken(ns[0], size)])
  {
  }

  /** The input: the same odd request twice, on a fresh region with room to split, gives the same
      payload to two callers. */
  lemma OddRequestTwice(num: nat, size: uint32)
    requires Region(num) && size + 20 <= 4 * num && size % 2 == 1
    ensures var rest := Node(8 + size, 4 * num - 16 - size, []);
      SizeRun(FreshNode(num), [Ask(size), Ask(size)]) == [Node(0, size, [size, size]), rest]
  {
    hide SizeRun, Request;
    var ns := SizeRun(FreshNode(num), [Ask(size)]);
    FirstRequest(num, size);
    FirstMatches(ns, size);
    assert [Ask(size), Ask(size)] == [Ask(size)] + [Ask(size)] && [size] + [size] == [size, size];
    SizeRunConcat(FreshNode(num), [Ask(size)], [Ask(size)]);
    SizeRunOne(ns, Ask(size));
  }

  /** And once one of the two has given it back, the even request just below gets it as well, while
      the other still has it. */
  lemma EvenAfterOddTwice(num: nat, size: uint32)
    requires Region(num) && size + 21 <= 4 * num && size % 2 == 0
    ensures var odd: uint32 := size + 1;
      var ns := SizeRun(FreshNode(num), [Ask(odd), Ask(odd)] + [GiveBack(0, 0)] + [Ask(size)]);
      |ns| == 2 && ns[0].holders == [odd, size]
  {
    hide SizeRun, Request, SetBit0, ClearBit0;
    var odd: uint32 := size + 1;
    var two, back := [Ask(odd), Ask(odd)], [GiveBack(0, 0)];
    OddRequestTwice(num, odd);
    var n2 := SizeRun(FreshNode(num), two);
    SizeRunConcat(FreshNode(num), two, back);
    SizeRunOne(n2, GiveBack(0, 0));
    var n3 := SizeRun(FreshNode(num), two + back);
    assert n2[0].holders[..0] + n2[0].holders[1..] == [odd];
    Masked(odd);
    assert n3[0].word == size && n3[0].holders == [odd];
    FirstMatches(n3, size);
    SizeRunConcat(FreshNode(num), two + back, [Ask(size)]);
    SizeRunOne(n3, Ask(size));
    assert [odd] + [size] == [odd, size];
  }

  // ---- when a payload has two holders ----

  ghost predicate Even(ops: seq<SizeOp>) {
    forall k :: 0 <= k < |ops| && ops[k].Ask? ==> ops[k].size % 2 == 0
  }

  /** At most one caller holds the payload, and then the used bit is set and the size is enough. */
  ghost predicate HeldWell(n: Node) {
    n.holders != [] ==> |n.holders| == 1 && Bit0(n.word) && n.holders[0] <= ClearBit0(n.word)
  }

  ghost predicate AllHeldWell(ns: Nodes) {
    forall i :: 0 <= i < |ns| ==> HeldWell(ns[i])
  }

  lemma TakenHeldWell(n: Node, size: nat)
    requires HeldWell(n) && !Bit0(n.word) && size <= n.word
    ensures HeldWell(Taken(n, size))
  {
    TakenMask(n.word);
    Masked(n.word);
  }

  lemma SplitHeldWell(ns: Nodes, i: nat, size: nat)
    requires AllHeldWell(ns) && i < |ns| && !Bit0(ns[i].word) && size % 2 == 0
    ensures AllHeldWell(SplitNode(ns, i, size))
  {
    var r := SplitNode(ns, i, size);
    TakenMask(size);
    Masked(size);
    hide SetBit0, ClearBit0;
    assert HeldWell(ns[i]);
    assert Bit0(SetBit0(size)) by { SetIsSet(size); }
    forall k | 0 <= k < |r| ensures HeldWell(r[k]) {
      if k < i {
        assert r[k] == ns[k];
      } else if k > i + 1 {
        assert r[k] == ns[k - 1];
      }
    }
  }

  lemma SetIsSet(x: nat)
    ensures Bit0(SetBit0(x))
  {
  }

  lemma SetHeldWell(ns: Nodes, i: nat, n: Node)
    requires AllHeldWell(ns) && i < |ns| && HeldWell(n)
    ensures AllHeldWell(ns[i := n])
  {
    hide HeldWell;
  }

  lemma RequestHeldWell(ns: Nodes, size: uint32)
    requires AllHeldWell(ns) && size % 2 == 0
    ensures AllHeldWell(Request(ns, size).1)
  {
    hide AllHeldWell, HeldWell, SplitNode, Taken;
    var e, f := FirstEqual(ns, size), FirstLarger(ns, size);
    if e < |ns| {
      OneHeldWell(ns, e);
      TakenHeldWell(ns[e], size);
      SetHeldWell(ns, e, Taken(ns[e], size));
    } else if f < |ns| {
      OneHeldWell(ns, f);
      SplitHeldWell(ns, f, size);
      TakenHeldWell(ns[f], size);
      SetHeldWell(ns, f, Taken(ns[f], size));
    }
  }

  lemma OneHeldWell(ns: Nodes, i: nat)
    requires AllHeldWell(ns) && i < |ns|
    ensures HeldWell(ns[i])
  {
  }

  lemma {:induction false} RunHeldWell(ns: Nodes, ops: seq<SizeOp>)
    requires AllHeldWell(ns) && Even(ops)
    ensures AllHeldWell(SizeRun(ns, ops))
    decreases |ops|
  {
    hide AllHeldWell, Request;
    if ops != [] {
      match ops[0] {
        case Ask(size) => RequestHeldWell(ns, size);
        case GiveBack(i, who) =>
          if i < |ns| {
            OneHeldWell(ns, i);
            SetHeldWell(ns, i, Freed(ns[i], who));
          }
      }
      RunHeldWell(SizeStep(ns, ops[0]), ops[1..]);
    }
  }

  predicate Uses(ops: seq<SizeOp>, sizes: set<uint32>) {
    forall k :: 0 <= k < |ops| && ops[k].Ask? ==> ops[k].size in sizes
  }

  /** No payload has two holders after the run `ops`. */
  ghost predicate HeldOnce(num: nat, ops: seq<SizeOp>)
    requires Region(num)
  {
    var ns := SizeRun(FreshNode(num), ops);
    forall i :: 0 <= i < |ns| ==> |ns[i].holders| <= 1
  }

  /** The first pass does not look at the used bit.  In every run of requests of the given sizes no
      payload is handed out that somebody holds, exactly when all the sizes are even. */
  lemma HeldOnceIff(sizes: set<uint32>)
    requires forall size :: size in sizes ==> size + 24 <= TWO_32
    ensures (forall num, ops :: Region(num) && Uses(ops, sizes) ==> HeldOnce(num, ops)) <==>
      forall size :: size in sizes ==> size % 2 == 0
  {
    if size :| size in sizes && size % 2 == 1 {
      var num, ops := (size + 23) / 4, [Ask(size), Ask(size)];
      OddRequestTwice(num, size);
      assert Uses(ops, sizes);
      var ns := SizeRun(FreshNode(num), ops);
      assert |ns[0].holders| == 2;
      assert !HeldOnce(num, ops);
    } else {
      forall num, ops | Region(num) && Uses(ops, sizes) ensures HeldOnce(num, ops) {
        assert Even(ops);
        RunHeldWell(FreshNode(num), ops);
        assert forall i :: 0 <= i < |SizeRun(FreshNode(num), ops)| ==> HeldWell(SizeRun(FreshNode(num), ops)[i]);
      }
    }
  }

  // ---- what an odd request leaves ----

  lemma EvenCannotMatch(ns: Nodes, size: uint32)
    requires size % 2 == 0 && forall i :: 0 <= i < |ns| ==> Bit0(ns[i].word)
    ensures Request(ns, size).0 == None
  {
  }

  lemma MatchServes(ns: Nodes, i: nat, size: uint32)
    requires i < |ns| && ns[i].word == size
    ensures Request(ns, size).0.Some?
  {
    assert FirstEqual(ns, size) <= i;
  }

  ghost predicate Serves(num: nat, first: uint32, more: uint32)
    requires Region(num)
  {
    Request(SizeRun(FreshNode(num), [Ask(first)]), more).0.Some?
  }

  /** What an odd request leaves of the region looks used: after a first request that splits the fresh
      region, some even request can still be met exactly when the first one was even. */
  lemma RestUsableIff(num: nat, first: uint32)
    requires Region(num) && first + 20 <= 4 * num
    ensures (exists more: uint32 :: more % 2 == 0 && Serves(num, first, more)) <==> first % 2 == 0
  {
    RestParity(num, first);
    if first % 2 == 0 {
      EvenRestServes(num, first);
    } else {
      OddRestDoesNot(num, first);
    }
  }

  lemma RestParity(num: nat, first: nat)
    requires first + 20 <= 4 * num
    ensures (4 * num - 16 - first) % 2 == first % 2
  {
    assert 4 * num - 16 == 2 * (2 * num - 8);
  }

  lemma EvenRestServes(num: nat, first: uint32)
    requires Region(num) && first + 20 <= 4 * num && first % 2 == 0
    ensures Serves(num, first, 4 * num - 16 - first)
  {
    hide SizeRun, Request;
    FirstRequest(num, first);
    MatchServes(SizeRun(FreshNode(num), [Ask(first)]), 1, 4 * num - 16 - first);
  }

  lemma OddRestDoesNot(num: nat, first: uint32)
    requires Region(num) && first + 20 <= 4 * num && first % 2 == 1
    ensures forall more: uint32 :: more % 2 == 0 ==> !Serves(num, first, more)
  {
    hide SizeRun, Request;
    FirstRequest(num, first);
    RestParity(num, first);
    forall more: uint32 | more % 2 == 0 ensures !Serves(num, first, more) {
      EvenCannotMatch(SizeRun(FreshNode(num), [Ask(first)]), more);
    }
  }

  // ---- payloads stay apart ----

  /** Where the next node, or the end of the region, is. */
  function Next(ns: Nodes, num: nat, i: nat): nat
    requires i < |ns|
  {
    if i + 1 < |ns| then ns[i + 1].at else 4 * num
  }

  ghost predicate Clear(ns: Nodes, num: nat, i: nat)
    requires i < |ns|
  {
    ns[i].at + 8 + ClearBit0(ns[i].word) <= Next(ns, num, i) <= 4 * num
  }

  /** Every node ends before the next begins, and the last inside the region. */
  ghost predicate Spaced(ns: Nodes, num: nat) {
    forall i :: 0 <= i < |ns| ==> Clear(ns, num, i)
  }

  lemma SetSpaced(ns: Nodes, num: nat, i: nat, n: Node)
    requires Spaced(ns, num) && i < |ns| && n.at == ns[i].at && ClearBit0(n.word) == ClearBit0(ns[i].word)
    ensures Spaced(ns[i := n], num)
  {
    var r := ns[i := n];
    forall k | 0 <= k < |r| ensures Clear(r, num, k) {
      assert Clear(ns, num, k);
    }
  }

  lemma SplitSpaced(ns: Nodes, num: nat, i: nat, size: nat)
    requires Spaced(ns, num) && i < |ns| && ns[i].word % 2 == 0 && size + 12 <= ns[i].word < TWO_32
    ensures Spaced(SplitNode(ns, i, size), num)
  {
    hide SetBit0, ClearBit0;
    var r := SplitNode(ns, i, size);
    assert (ns[i].word - size - 8) % TWO_32 == ns[i].word - size - 8;
    SplitParts(ns[i].word, size);
    Masked(SetBit0(size));
    Masked(size);
    Masked(ns[i].word - size - 8);
    Masked(ns[i].word);
    forall k | 0 <= k < |r| ensures Clear(r, num, k) {
      if k < i {
        assert r[k] == ns[k] && r[k + 1].at == ns[k + 1].at && Clear(ns, num, k);
      } else if k > i + 1 {
        assert r[k] == ns[k - 1] && Clear(ns, num, k - 1);
      } else {
        assert Clear(ns, num, i);
        assert i + 1 < |ns| ==> r[i + 2] == ns[i + 1];
      }
    }
  }

  lemma Masked(x: nat)
    ensures ClearBit0(x) <= x <= ClearBit0(x) + 1
    ensures ClearBit0(SetBit0(x)) <= x
    ensures x % 2 == 0 ==> ClearBit0(x) == x
    ensures x % 2 == 1 ==> ClearBit0(x) + 1 == x
  {
  }

  lemma RequestSpaced(num: nat, ns: Nodes, size: uint32)
    requires Region(num) && Spaced(ns, num)
    ensures Spaced(Request(ns, size).1, num)
  {
    hide Spaced, SplitNode, SetBit0, ClearBit0;
    var e, f := FirstEqual(ns, size), FirstLarger(ns, size);
    if e < |ns| {
      TakenMask(ns[e].word);
      SetSpaced(ns, num, e, Taken(ns[e], size));
    } else if f < |ns| {
      WordBound(ns, num, f);
      RequestLarger(ns, size);
      if ns[f].word >= size + 12 {
        SplitSpaced(ns, num, f, size);
      } else {
        TakenMask(ns[f].word);
        SetSpaced(ns, num, f, Taken(ns[f], size));
      }
    }
  }

  lemma TakenMask(x: nat)
    ensures ClearBit0(SetBit0(x)) == ClearBit0(x) && ClearBit0(ClearBit0(x)) == ClearBit0(x)
  {
  }

  lemma WordBound(ns: Nodes, num: nat, i: nat)
    requires Region(num) && Spaced(ns, num) && i < |ns| && !Bit0(ns[i].word)
    ensures ns[i].word <= TWO_32 - 12
  {
    assert Clear(ns, num, i);
  }

  /** Over every run of requests of any sizes, each node with its masked size ends before the next one
      begins.  The masked size is what the list knows, not what an odd request asked for. */
  lemma {:induction false} RunSpaced(num: nat, ns: Nodes, ops: seq<SizeOp>)
    requires Region(num) && Spaced(ns, num)
    ensures Spaced(SizeRun(ns, ops), num)
    decreases |ops|
  {
    hide Spaced, Request, ClearBit0;
    if ops != [] {
      match ops[0] {
        case Ask(size) => RequestSpaced(num, ns, size);
        case GiveBack(i, who) =>
          if i < |ns| {
            TakenMask(ns[i].word);
            SetSpaced(ns, num, i, Freed(ns[i], who));
          }
      }
      RunSpaced(num, SizeStep(ns, ops[0]), ops[1..]);
    }
  }

  /** What that means for two nodes, however far apart in the list. */
  lemma {:induction false} SpacedOrder(ns: Nodes, num: nat, i: nat, j: nat)
    requires Spaced(ns, num) && i < j < |ns|
    ensures ns[i].at + 8 + ClearBit0(ns[i].word) <= ns[j].at
    decreases j
  {
    assert Clear(ns, num, j - 1);
    if i < j - 1 { SpacedOrder(ns, num, i, j - 1); }
  }

  // ---- room for what was asked ----

  /** The payload handed out has `size` bytes before the next node or the end of the region. */
  ghost predicate HasRoom(ns: Nodes, num: nat, i: nat, size: nat) {
    i < |ns| && ns[i].at + 8 + size <= Next(ns, num, i)
  }

  /** A request for `size` bytes after the run `ops` gets that many, if it gets any. */
  ghost predicate GetsRoom(num: nat, ops: seq<SizeOp>, size: uint32)
    requires Region(num)
  {
    var (r, ns) := Request(SizeRun(FreshNode(num), ops), size);
    r.Some? ==> HasRoom(ns, num, r.value, size)
  }

  /** A caller gets the bytes it asked for, after every run of requests of any sizes, exactly when it
      asks for an even number. */
  lemma GetsRoomIff(size: uint32)
    requires size + 24 <= TWO_32
    ensures (forall num, ops :: Region(num) ==> GetsRoom(num, ops, size)) <==> size % 2 == 0
  {
    if size % 2 == 0 {
      forall num, ops | Region(num) ensures GetsRoom(num, ops, size) {
        FreshSpaced(num);
        RunSpaced(num, FreshNode(num), ops);
        RequestRoom(num, SizeRun(FreshNode(num), ops), size);
      }
    } else {
      var num := (size + 23) / 4;
      OddAfterEven(num, size);
      assert !GetsRoom(num, [Ask(size - 1)], size);
    }
  }

  lemma FreshSpaced(num: nat)
    requires Region(num)
    ensures Spaced(FreshNode(num), num)
  {
  }

  lemma RequestRoom(num: nat, ns: Nodes, size: uint32)
    requires Region(num) && Spaced(ns, num) && size % 2 == 0
    ensures var (r, ns') := Request(ns, size); r.Some? ==> HasRoom(ns', num, r.value, size)
  {
    hide Spaced, SetBit0, ClearBit0;
    var e, f := FirstEqual(ns, size), FirstLarger(ns, size);
    if e < |ns| {
      ClearAt(ns, num, e);
      Masked(ns[e].word);
    } else if f < |ns| {
      ClearAt(ns, num, f);
      Masked(ns[f].word);
      WordBound(ns, num, f);
      RequestLarger(ns, size);
      if ns[f].word >= size + 12 {
        var r := SplitNode(ns, f, size);
        assert r[f].at == ns[f].at && r[f + 1].at == ns[f].at + 8 + size;
      }
    }
  }

  lemma ClearAt(ns: Nodes, num: nat, i: nat)
    requires Spaced(ns, num) && i < |ns|
    ensures Clear(ns, num, i)
  {
  }

  /** The input: an even request, then the odd one just above it, which is given the same payload and
      with it the first byte of the next header. */
  lemma OddAfterEven(num: nat, size: uint32)
    requires Region(num) && size + 19 <= 4 * num && size % 2 == 1
    ensures var ns := SizeRun(FreshNode(num), [Ask(size - 1)]);
      && Request(ns, size).0 == Some(0)
      && var r := Request(ns, size).1; |r| == 2 && r[0].at + 8 + size == r[1].at + 1
  {
    hide SizeRun, Request;
    FirstRequest(num, size - 1);
    var ns := SizeRun(FreshNode(num), [Ask(size - 1)]);
    FirstMatches(ns, size);
  }

  /** The bytes that callers hold, of a whole state: each within its node. */
  ghost predicate HoldersApart(ns: Nodes, num: nat) {
    forall i, k :: 0 <= i < |ns| && 0 <= k < |ns[i].holders| ==>
      |ns[i].holders| == 1 && HasRoom(ns, num, i, ns[i].holders[k])
  }

  /** So in every state of every run of even requests, what callers asked for and hold reaches into no
      header, into no other payload and not past the region. */
  lemma EvenRunsApart(num: nat, ops: seq<SizeOp>)
    requires Region(num) && Even(ops)
    ensures HoldersApart(SizeRun(FreshNode(num), ops), num)
  {
    var ns := SizeRun(FreshNode(num), ops);
    FreshSpaced(num);
    RunSpaced(num, FreshNode(num), ops);
    RunHeldWell(FreshNode(num), ops);
    hide SizeRun, ClearBit0;
    forall i, k | 0 <= i < |ns| && 0 <= k < |ns[i].holders|
      ensures |ns[i].holders| == 1 && HasRoom(ns, num, i, ns[i].holders[k])
    {
      ClearAt(ns, num, i);
      OneHeldWell(ns, i);
    }
  }

  // ---- conservation ----

  /** Headers and payload sizes, in bytes. */
  function Bytes(ns: Nodes): nat {
    if ns == [] then 0 else Bytes(ns[..|ns| - 1]) + 8 + ClearBit0(ns[|ns| - 1].word)
  }

  lemma {:induction false} BytesConcat(a: Nodes, b: Nodes)
    ensures Bytes(a + b) == Bytes(a) + Bytes(b)
    decreases |b|
  {
    if b == [] {
      assert a + b == a;
    } else {
      var n := |b| - 1;
      assert (a + b)[..|a + b| - 1] == a + b[..n];
      BytesConcat(a, b[..n]);
    }
  }

  lemma BytesAt(ns: Nodes, i: nat, mid: Nodes)
    requires i < |ns|
    ensures Bytes(ns[..i] + mid + ns[i + 1..]) == Bytes(ns) - 8 - ClearBit0(ns[i].word) + Bytes(mid)
  {
    hide Bytes, ClearBit0;
    BytesThree(ns[..i], mid, ns[i + 1..]);
    BytesThree(ns[..i], [ns[i]], ns[i + 1..]);
    BytesOne(ns[i]);
    assert ns[..i] + [ns[i]] + ns[i + 1..] == ns;
  }

  lemma BytesThree(a: Nodes, b: Nodes, c: Nodes)
    ensures Bytes(a + b + c) == Bytes(a) + Bytes(b) + Bytes(c)
  {
    hide Bytes;
    BytesConcat(a + b, c);
    BytesConcat(a, b);
  }

  lemma BytesSet(ns: Nodes, i: nat, n: Node)
    requires i < |ns| && ClearBit0(n.word) == ClearBit0(ns[i].word)
    ensures Bytes(ns[i := n]) == Bytes(ns)
  {
    hide Bytes;
    BytesAt(ns, i, [n]);
    BytesOne(n);
    assert ns[..i] + [n] + ns[i + 1..] == ns[i := n];
  }

  /** A split conserves bytes exactly for even requests; an odd one loses two. */
  lemma SplitBytes(ns: Nodes, i: nat, size: nat)
    requires i < |ns| && ns[i].word % 2 == 0 && size + 12 <= ns[i].word < TWO_32
    ensures Bytes(SplitNode(ns, i, size)) == Bytes(ns) - if size % 2 == 0 then 0 else 2
  {
    hide Bytes, SetBit0, ClearBit0, SplitNode;
    var at, word := ns[i].at, ns[i].word;
    var a, b := Node(at, SetBit0(size), ns[i].holders + [size]), Node(at + 8 + size, word - size - 8, []);
    SplitIs(ns, i, size, a, b);
    SplitParts(word, size);
    BytesTwo(a, b);
    BytesAt(ns, i, [a, b]);
  }

  lemma SplitIs(ns: Nodes, i: nat, size: nat, a: Node, b: Node)
    requires i < |ns| && size + 12 <= ns[i].word < TWO_32
    requires a == Node(ns[i].at, SetBit0(size), ns[i].holders + [size])
    requires b == Node(ns[i].at + 8 + size, ns[i].word - size - 8, [])
    ensures SplitNode(ns, i, size) == ns[..i] + [a, b] + ns[i + 1..]
  {
    assert (ns[i].word - size - 8) % TWO_32 == b.word;
  }

  lemma BytesTwo(a: Node, b: Node)
    ensures Bytes([a, b]) == 16 + ClearBit0(a.word) + ClearBit0(b.word)
  {
    hide ClearBit0;
    assert [a, b] == [a] + [b];
    BytesConcat([a], [b]);
    BytesOne(a);
    BytesOne(b);
  }

  lemma SplitParts(word: nat, size: nat)
    requires word % 2 == 0 && size + 12 <= word
    ensures ClearBit0(SetBit0(size)) + ClearBit0(word - size - 8) + 8 ==
      ClearBit0(word) - if size % 2 == 0 then 0 else 2
  {
    assert (word - size - 8) % 2 == size % 2;
    assert (size + 1) % 2 == 1 - size % 2;
  }

  lemma BytesOne(n: Node)
    ensures Bytes([n]) == 8 + ClearBit0(n.word)
  {
    assert [n][..0] == [];
  }

  lemma BytesBound(ns: Nodes, i: nat)
    requires i < |ns|
    ensures 8 + ClearBit0(ns[i].word) <= Bytes(ns)
  {
    BytesAt(ns, i, []);
  }

  /** Over every run of even requests and frees, headers and sizes sum to the region.  The condition
      is exact: any odd request that splits a node loses two bytes of it (`SplitBytes`). */
  lemma {:induction false} EvenRunsConserve(num: nat, ns: Nodes, ops: seq<SizeOp>)
    requires Region(num) && Bytes(ns) == 4 * num
    requires Even(ops)
    ensures Bytes(SizeRun(ns, ops)) == 4 * num
    decreases |ops|
  {
    if ops != [] {
      match ops[0] {
        case Ask(size) => RequestBytes(num, ns, size);
        case GiveBack(i, who) => if i < |ns| { BytesSet(ns, i, Freed(ns[i], who)); }
      }
      EvenRunsConserve(num, SizeStep(ns, ops[0]), ops[1..]);
    }
  }

  lemma RequestBytes(num: nat, ns: Nodes, size: uint32)
    requires Region(num) && Bytes(ns) == 4 * num && size % 2 == 0
    ensures Bytes(Request(ns, size).1) == 4 * num
  {
    hide Bytes, SplitNode;
    var e, f := FirstEqual(ns, size), FirstLarger(ns, size);
    if e < |ns| {
      BytesSet(ns, e, Taken(ns[e], size));
    } else if f < |ns| {
      BytesBound(ns, f);
      if ns[f].word >= size + 12 {
        SplitBytes(ns, f, size);
      } else {
        BytesSet(ns, f, Taken(ns[f], size));
      }
    }
  }

  // ---- whole words: the block list ----

  function SizeWord(b: Block): nat { 4 * b.words + if b.used then 1 else 0 }

  function WordOf(b: Block): Node { Node(4 * b.at, SizeWord(b), []) }

  function WordsOf(bs: Layout): (ns: Nodes)
    ensures |ns| == |bs|
    ensures forall i :: 0 <= i < |bs| ==> ns[i] == WordOf(bs[i])
  {
    seq(|bs|, i requires 0 <= i < |bs| => WordOf(bs[i]))
  }

  lemma SizeParity(b: Block)
    ensures Bit0(SizeWord(b)) <==> b.used
  {
    assert 4 * b.words == 2 * (2 * b.words);
  }

  /** Setting and clearing bit 0 is marking the block. */
  lemma SizeBits(b: Block)
    ensures SetBit0(SizeWord(b)) == SizeWord(b.(used := true))
    ensures ClearBit0(SizeWord(b)) == SizeWord(b.(used := false))
  {
    SizeParity(b);
  }

  /** What the two size-word tests of the passes mean for a request of `w` words. */
  lemma SizeTests(b: Block, w: nat)
    ensures SizeWord(b) == 4 * w <==> !b.used && b.words == w
    ensures SizeWord(b) > 4 * w && !Bit0(SizeWord(b)) <==> !b.used && b.words > w
  {
    SizeParity(b);
  }

  /** For whole words the passes over the words settle on the blocks that `RetentionLayout` says. */
  lemma PassesAgree(bs: Layout, w: nat)
    ensures FirstEqual(WordsOf(bs), 4 * w) == ExactFit(bs, w)
    ensures FirstLarger(WordsOf(bs), 4 * w) == FirstFit(bs, w)
  {
    forall i | 0 <= i < |bs|
      ensures WordsOf(bs)[i].word == 4 * w <==> !bs[i].used && bs[i].words == w
      ensures WordsOf(bs)[i].word > 4 * w && !Bit0(WordsOf(bs)[i].word) <==> !bs[i].used && bs[i].words > w
    {
      SizeTests(bs[i], w);
    }
  }

  /** The nodes as the memory has them. */
  function Stored(ns: Nodes): (r: Nodes)
    ensures |r| == |ns| && forall i :: 0 <= i < |ns| ==> r[i] == ns[i].(holders := [])
  {
    seq(|ns|, i requires 0 <= i < |ns| => ns[i].(holders := []))
  }

  /** The passes see only that. */
  lemma StoredPasses(ns: Nodes, size: nat)
    ensures FirstEqual(Stored(ns), size) == FirstEqual(ns, size)
    ensures FirstLarger(Stored(ns), size) == FirstLarger(ns, size)
  {
  }

  lemma SplitAgrees(ns: Nodes, bs: Layout, k: nat, w: nat)
    requires k < |bs| && bs[k].words >= w + HEADER + 1 && !bs[k].used && 4 * bs[k].words < TWO_32
    requires Stored(ns) == WordsOf(bs)
    ensures Stored(SplitNode(ns, k, 4 * w)) == WordsOf(Carve(bs, k, w))
  {
    SplitWord(bs[k], w);
    hide SetBit0, SizeWord;
    var r, c := Stored(SplitNode(ns, k, 4 * w)), WordsOf(Carve(bs, k, w));
    assert Stored(ns)[k] == WordOf(bs[k]);
    assert |r| == |c|;
    forall j | 0 <= j < |r| ensures r[j] == c[j] {
      SplitAgreesAt(ns, bs, k, w, j);
    }
  }

  lemma SplitAgreesAt(ns: Nodes, bs: Layout, k: nat, w: nat, j: nat)
    requires k < |bs| == |ns| && bs[k].words >= w + HEADER + 1 && j < |bs| + 1
    requires forall i :: 0 <= i < |bs| ==> ns[i].(holders := []) == WordOf(bs[i])
    requires (SizeWord(bs[k]) - 4 * w - 8) % TWO_32 == 4 * (bs[k].words - w - HEADER)
    requires SetBit0(4 * w) == 4 * w + 1
    ensures SplitNode(ns, k, 4 * w)[j].(holders := []) == WordOf(Carve(bs, k, w)[j])
  {
    var r, c := SplitNode(ns, k, 4 * w), Carve(bs, k, w);
    if j < k {
      assert r[j] == ns[j] && c[j] == bs[j];
    } else if j > k + 1 {
      assert r[j] == ns[j - 1] && c[j] == bs[j - 1];
    } else {
      assert ns[k].(holders := []) == WordOf(bs[k]);
    }
  }

  lemma SplitWord(b: Block, w: nat)
    requires b.words >= w + HEADER + 1 && !b.used && 4 * b.words < TWO_32
    ensures (SizeWord(b) - 4 * w - 8) % TWO_32 == 4 * (b.words - w - HEADER)
    ensures SetBit0(4 * w) == 4 * w + 1
  {
    SizeBits(Block(0, w, false));
    var rest: uint32 := 4 * (b.words - w - HEADER);
    assert SizeWord(b) - 4 * w - 8 == rest;
    hide SetBit0, SizeWord;
    SmallMod(rest);
  }

  lemma SmallMod(x: uint32)
    ensures x % TWO_32 == x
  {
  }

  lemma TakeAgrees(ns: Nodes, bs: Layout, k: nat, size: nat)
    requires k < |bs| && Stored(ns) == WordsOf(bs)
    ensures Stored(ns[k := Taken(ns[k], size)]) == WordsOf(bs[k := bs[k].(used := true)])
  {
    assert Stored(ns)[k] == WordOf(bs[k]);
    SizeBits(bs[k]);
  }

  /** The second pass without wrap-around: no word reaches the end of the address space. */
  lemma RequestLarger(ns: Nodes, size: uint32)
    requires FirstEqual(ns, size) == |ns| && FirstLarger(ns, size) < |ns|
    requires ns[FirstLarger(ns, size)].word <= TWO_32 - 12
    ensures var f := FirstLarger(ns, size);
      Request(ns, size) ==
        (Some(f), if ns[f].word >= size + 12 then SplitNode(ns, f, size) else ns[f := Taken(ns[f], size)])
  {
  }

  /** So the two models agree on every request of whole words: the same node is handed out, and the
      new list has the new words. */
  lemma WholeWordsAgree(ns: Nodes, bs: Layout, num: nat, w: nat)
    requires Stored(ns) == WordsOf(bs) && Tiles(bs, num) && num < 0x4000_0000 && 4 * w < TWO_32
    ensures var (r, bs') := Alloc(bs, w);
      var (i, ns') := Request(ns, 4 * w);
      && Stored(ns') == WordsOf(bs')
      && r == match i case Some(k) => Some(bs[k].Payload()) case None => None
  {
    PassesAgree(bs, w);
    StoredPasses(ns, 4 * w);
    var k := Chosen(bs, w);
    if k < |bs| {
      EndBound(bs, num, k);
      if ExactFit(bs, w) == |bs| {
        LargerAgrees(ns, bs, w, k);
      } else {
        TakeAgrees(ns, bs, k, 4 * w);
      }
    }
  }

  lemma LargerAgrees(ns: Nodes, bs: Layout, w: nat, k: nat)
    requires Stored(ns) == WordsOf(bs) && 4 * w < TWO_32
    requires FirstEqual(ns, 4 * w) == |bs| && FirstLarger(ns, 4 * w) == k < |bs|
    requires w <= bs[k].words && !bs[k].used && 4 * bs[k].words <= TWO_32 - 12
    ensures var (i, ns') := Request(ns, 4 * w); i == Some(k) && Stored(ns') == WordsOf(Carve(bs, k, w))
  {
    assert Stored(ns)[k] == WordOf(bs[k]);
    assert ns[k].word == 4 * bs[k].words;
    RequestLarger(ns, 4 * w);
    hide WordsOf, Stored, SplitNode, Request, FirstEqual, FirstLarger, SetBit0, Taken;
    if bs[k].words >= w + HEADER + 1 {
      SplitAgrees(ns, bs, k, w);
    } else {
      TakeAgrees(ns, bs, k, 4 * w);
    }
  }
}
