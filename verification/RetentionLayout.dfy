/** The block list of the retention-memory allocator, as a value.

    `pm_alloc_reten_mem` and `pm_free_reten_mem` keep a singly linked list of 8-byte headers
    inside the region they manage.  Here one list node is a `Block`: the word index of its
    header, the number of payload words that follow it, and its used bit.  The in-place version
    over an array of words is in `RetentionMemory`; this module holds what both are proved
    against and everything that is true of the list over whole runs.
  */
module RetentionLayout {
  import opened Wrappers

  const HEADER := 2  // a header is two words: next, size

  datatype Block = Block(at: nat, words: nat, used: bool) {
    function Payload(): nat { at + HEADER }
    function End(): nat { at + HEADER + words }
  }

  type Layout = seq<Block>

  /** Block `i` starts where the block before it ends. */
  ghost predicate Abuts(bs: Layout, i: nat)
    requires 0 < i < |bs|
  {
    bs[i].at == bs[i - 1].End()
  }

  /** The blocks tile `num` words exactly, headers included; no region yet is the empty tiling. */
  ghost predicate Tiles(bs: Layout, num: nat) {
    if bs == [] then num == 0
    else
      && bs[0].at == 0
      && (forall i :: 0 < i < |bs| ==> Abuts(bs, i))
      && bs[|bs| - 1].End() == num
  }

  // ---- the operations ----

  /** First pass: index of the first free node of exactly the size asked for, else `|bs|`.  The code
      compares size words; `RetentionSizes.PassesAgree` shows that for whole words this is the same. */
  function ExactFit(bs: Layout, w: nat): (i: nat)
    ensures i <= |bs|
    ensures i < |bs| ==> !bs[i].used && bs[i].words == w
    ensures forall j :: 0 <= j < i ==> bs[j].used || bs[j].words != w
  {
    if bs == [] || (!bs[0].used && bs[0].words == w) then 0 else
      var k := ExactFit(bs[1..], w);
      assert forall j :: 0 < j < 1 + k ==> bs[j] == bs[1..][j - 1];
      1 + k
  }

  /** Second pass: index of the first free node larger than the request, else `|bs|`. */
  function FirstFit(bs: Layout, w: nat): (i: nat)
    ensures i <= |bs|
    ensures i < |bs| ==> !bs[i].used && bs[i].words > w
    ensures forall j :: 0 <= j < i ==> bs[j].used || bs[j].words <= w
  {
    if bs == [] || (!bs[0].used && bs[0].words > w) then 0 else
      var k := FirstFit(bs[1..], w);
      assert forall j :: 0 < j < 1 + k ==> bs[j] == bs[1..][j - 1];
      1 + k
  }

  /** The block the two passes settle on: the first free one of exactly the size asked for, else the
      first free one that is larger. */
  function Chosen(bs: Layout, w: nat): (i: nat)
    ensures i <= |bs|
    ensures i < |bs| ==> !bs[i].used && bs[i].words >= w
    ensures i == |bs| <==> forall j :: 0 <= j < |bs| ==> bs[j].used || bs[j].words < w
    ensures forall j :: 0 <= j < i < |bs| && !bs[j].used ==> bs[j].words < w || bs[i].words == w < bs[j].words
    ensures forall j :: 0 <= j < |bs| && i < |bs| && !bs[j].used && bs[j].words == w ==> bs[i].words == w
  {
    var e, f := ExactFit(bs, w), FirstFit(bs, w);
    if e < |bs| then e else f
  }

  /** Mark block `i` used, splitting when at least a header and one word would remain. */
  function Carve(bs: Layout, i: nat, w: nat): Layout
    requires i < |bs| && w <= bs[i].words
  {
    var b := bs[i];
    if b.words >= w + HEADER + 1 then
      bs[..i] + [Block(b.at, w, true), Block(b.at + HEADER + w, b.words - w - HEADER, false)] + bs[i + 1..]
    else
      bs[i := b.(used := true)]
  }

  function Alloc(bs: Layout, w: nat): (Option<nat>, Layout) {
    var i := Chosen(bs, w);
    if i == |bs| then (None, bs) else (Some(bs[i].Payload()), Carve(bs, i, w))
  }

  function Free(bs: Layout, p: nat): Layout {
    seq(|bs|, i requires 0 <= i < |bs| => if bs[i].Payload() == p then bs[i].(used := false) else bs[i])
  }

  // ---- one step ----

  /** Blocks of a tiling lie one after the other: every later header is past every earlier payload. */
  lemma {:induction false} Ordered(bs: Layout, num: nat, i: nat, j: nat)
    requires Tiles(bs, num) && i < |bs|
    ensures i < j < |bs| ==> bs[i].End() <= bs[j].at
    ensures i <= j < |bs| ==> bs[j].End() <= num
    decreases |bs|, j
  {
    if i < j < |bs| {
      Ordered(bs, num, i, j - 1);
      assert Abuts(bs, j);
    }
    if j < |bs| {
      EndBound(bs, num, j);
    }
  }

  lemma {:induction false} EndBound(bs: Layout, num: nat, j: nat)
    requires Tiles(bs, num) && j < |bs|
    ensures bs[j].End() <= num
    decreases |bs| - j
  {
    if j + 1 < |bs| {
      EndBound(bs, num, j + 1);
      assert Abuts(bs, j + 1);
    }
  }

  /** Two blocks with the same header, or the same payload address, are the same block. */
  lemma SameStart(bs: Layout, num: nat, i: nat, j: nat)
    requires Tiles(bs, num) && i < |bs| && j < |bs| && bs[i].at == bs[j].at
    ensures i == j
  {
    if i < j { Ordered(bs, num, i, j); } else if j < i { Ordered(bs, num, j, i); }
  }

  /** Payloads of different blocks share no word, and no payload word is a header word. */
  lemma PayloadsApart(bs: Layout, num: nat, i: nat, j: nat, x: nat)
    requires Tiles(bs, num) && i < |bs| && j < |bs|
    requires bs[i].Payload() <= x < bs[i].End()
    ensures x < num
    ensures !(bs[j].at <= x < bs[j].Payload())
    ensures bs[j].Payload() <= x < bs[j].End() ==> i == j
  {
    EndBound(bs, num, i);
    if i < j { Ordered(bs, num, i, j); } else if j < i { Ordered(bs, num, j, i); }
  }

  lemma CarveTiles(bs: Layout, num: nat, i: nat, w: nat)
    requires Tiles(bs, num) && i < |bs| && w <= bs[i].words
    ensures Tiles(Carve(bs, i, w), num)
  {
    var r := Carve(bs, i, w);
    if bs[i].words >= w + HEADER + 1 {
      forall k | 0 < k < |r| ensures Abuts(r, k) {
        if k > i + 1 {
          assert r[k] == bs[k - 1] && Abuts(bs, k - 1);
          if k > i + 2 { assert r[k - 1] == bs[k - 2]; }
        } else if k <= i {
          assert r[k].at == bs[k].at && r[k - 1] == bs[k - 1] && Abuts(bs, k);
        }
      }
      assert r[0].at == 0;
      assert i + 1 < |bs| ==> r[|r| - 1] == bs[|bs| - 1];
    } else {
      forall k | 0 < k < |r| ensures Abuts(r, k) {
        assert Abuts(bs, k);
      }
    }
  }

  lemma FreeTiles(bs: Layout, num: nat, p: nat)
    requires Tiles(bs, num)
    ensures Tiles(Free(bs, p), num)
  {
    var r := Free(bs, p);
    forall k | 0 < k < |r| ensures Abuts(r, k) {
      assert Abuts(bs, k);
    }
  }

  // ---- whole runs ----

  datatype Op = DoAlloc(words: nat) | DoFree(payload: nat)

  function Step(bs: Layout, op: Op): Layout {
    match op
    case DoAlloc(w) => Alloc(bs, w).1
    case DoFree(p) => Free(bs, p)
  }

  function Run(bs: Layout, ops: seq<Op>): Layout
    decreases |ops|
  {
    if ops == [] then bs else Run(Step(bs, ops[0]), ops[1..])
  }

  /** What `csi_pm_set_reten_mem` leaves: one free block over the whole region. */
  function Fresh(num: nat): Layout
    requires num >= 3
  {
    [Block(0, num - HEADER, false)]
  }

  lemma StepTiles(bs: Layout, num: nat, op: Op)
    requires Tiles(bs, num)
    ensures Tiles(Step(bs, op), num)
  {
    match op
    case DoAlloc(w) =>
      var i := Chosen(bs, w);
      if i < |bs| { CarveTiles(bs, num, i, w); }
    case DoFree(p) => FreeTiles(bs, num, p);
  }

  /** The sum of everything the list accounts for, headers included. */
  function Extent(bs: Layout): nat {
    if bs == [] then 0 else HEADER + bs[0].words + Extent(bs[1..])
  }

  lemma {:induction false} ExtentIsSpan(bs: Layout)
    requires bs != [] && forall i :: 0 < i < |bs| ==> Abuts(bs, i)
    ensures Extent(bs) == bs[|bs| - 1].End() - bs[0].at
  {
    if |bs| > 1 {
      var t := bs[1..];
      forall i | 0 < i < |t| ensures Abuts(t, i) {
        assert Abuts(bs, i + 1);
      }
      assert Abuts(bs, 1);
      ExtentIsSpan(t);
      assert t[|t| - 1] == bs[|bs| - 1] && t[0] == bs[1];
    } else {
      assert bs[1..] == [];
    }
  }

  /** Every run of allocations and frees keeps the list an exact tiling of the region:
      headers and payloads sum to the region, and live payloads overlap neither each other
      nor any header. */
  lemma {:induction false} RunTiles(bs: Layout, num: nat, ops: seq<Op>)
    requires Tiles(bs, num)
    ensures Tiles(Run(bs, ops), num)
    ensures Extent(Run(bs, ops)) == num
    decreases |ops|
  {
    if ops == [] {
      if bs != [] { ExtentIsSpan(bs); }
    } else {
      StepTiles(bs, num, ops[0]);
      RunTiles(Step(bs, ops[0]), num, ops[1..]);
    }
  }

  /** Block `p` is in use and has room for `w` words. */
  ghost predicate Live(bs: Layout, p: nat, w: nat) {
    exists i :: 0 <= i < |bs| && bs[i].Payload() == p && bs[i].used && bs[i].words >= w
  }

  /** A successful allocation hands out a block that was not live before and is live now; a
      failed one changes nothing, and failure means that no free block is big enough. */
  lemma AllocGivesLive(bs: Layout, num: nat, w: nat)
    requires Tiles(bs, num)
    ensures var (r, bs') := Alloc(bs, w);
      match r
      case None => bs' == bs && forall j :: 0 <= j < |bs| ==> bs[j].used || bs[j].words < w
      case Some(p) => !Live(bs, p, 0) && Live(bs', p, w)
  {
    var i := Chosen(bs, w);
    if i < |bs| {
      var p, bs' := bs[i].Payload(), Alloc(bs, w).1;
      forall k | 0 <= k < |bs| && bs[k].Payload() == p ensures k == i {
        SameStart(bs, num, k, i);
      }
      assert bs'[i].Payload() == p && bs'[i].used && bs'[i].words >= w;
    }
  }

  /** And the block is the request, with at most two words to spare: what is left over becomes a free
      block as soon as it has room for a header and a word. */
  lemma AllocSparesTwo(bs: Layout, num: nat, w: nat)
    requires Tiles(bs, num) && Alloc(bs, w).0.Some?
    ensures var (r, bs') := Alloc(bs, w);
      var i := Chosen(bs, w);
      && i < |bs'| && bs'[i].Payload() == r.value && bs'[i].used && w <= bs'[i].words <= w + 2
      && (bs'[i].words != bs[i].words ==>
            |bs'| == |bs| + 1 && bs'[i + 1] == Block(bs'[i].End(), bs[i].words - w - 2, false))
  {
  }

  /** Allocating leaves every live block exactly as it was. */
  lemma AllocKeepsLive(bs: Layout, num: nat, w: nat, p: nat, v: nat)
    requires Tiles(bs, num) && Live(bs, p, v)
    ensures Live(Alloc(bs, w).1, p, v)
  {
    var i := Chosen(bs, w);
    var k :| 0 <= k < |bs| && bs[k].Payload() == p && bs[k].used && bs[k].words >= v;
    var r := Alloc(bs, w).1;
    if i < |bs| {
      var k' := if k < i || |r| == |bs| then k else k + 1;
      assert r[k'] == bs[k];
    }
  }

  /** Freeing one payload address leaves every other live block live. */
  lemma FreeKeepsLive(bs: Layout, p: nat, q: nat, v: nat)
    requires Live(bs, p, v) && p != q
    ensures Live(Free(bs, q), p, v)
  {
    var k :| 0 <= k < |bs| && bs[k].Payload() == p && bs[k].used && bs[k].words >= v;
    assert Free(bs, q)[k] == bs[k];
  }

  lemma {:induction false} RunKeepsLive(bs: Layout, num: nat, ops: seq<Op>, p: nat, v: nat)
    requires Tiles(bs, num) && Live(bs, p, v) && DoFree(p) !in ops
    ensures Tiles(Run(bs, ops), num) && Live(Run(bs, ops), p, v)
    decreases |ops|
  {
    if ops != [] {
      StepTiles(bs, num, ops[0]);
      match ops[0] {
        case DoAlloc(w) => AllocKeepsLive(bs, num, w, p, v);
        case DoFree(q) => FreeKeepsLive(bs, p, q, v);
      }
      RunKeepsLive(Step(bs, ops[0]), num, ops[1..], p, v);
    }
  }

  /** A block obtained for `w` words stays live through any later run that does not free it, is
      handed out to nobody else meanwhile, and once freed makes an immediate request for `w`
      words succeed. */
  lemma FreedBlockCanBeHadAgain(bs: Layout, num: nat, w: nat, ops: seq<Op>)
    requires Tiles(bs, num) && Alloc(bs, w).0.Some?
    requires DoFree(Alloc(bs, w).0.value) !in ops
    ensures var (r, bs1) := Alloc(bs, w);
      var bs2 := Run(bs1, ops);
      && Live(bs2, r.value, w)
      && (forall v :: Alloc(bs2, v).0 != r)
      && Alloc(Free(bs2, r.value), w).0.Some?
  {
    var (r, bs1) := Alloc(bs, w);
    var p := r.value;
    AllocGivesLive(bs, num, w);
    StepTiles(bs, num, DoAlloc(w));
    RunKeepsLive(bs1, num, ops, p, w);
    var bs2 := Run(bs1, ops);
    forall v ensures Alloc(bs2, v).0 != r {
      AllocGivesLive(bs2, num, v);
      assert Live(bs2, p, 0);
    }
    var k :| 0 <= k < |bs2| && bs2[k].Payload() == p && bs2[k].used && bs2[k].words >= w;
    var f := Free(bs2, p);
    assert !f[k].used && f[k].words >= w;
  }

  // ---- no coalescing ----

  ghost predicate HasHeader(bs: Layout, at: nat) {
    exists i :: 0 <= i < |bs| && bs[i].at == at
  }

  lemma StepKeepsHeader(bs: Layout, op: Op, at: nat)
    requires HasHeader(bs, at)
    ensures HasHeader(Step(bs, op), at)
  {
    var k :| 0 <= k < |bs| && bs[k].at == at;
    match op
    case DoFree(p) =>
      assert Free(bs, p)[k].at == at;
    case DoAlloc(w) =>
      var i := Chosen(bs, w);
      if i < |bs| { CarveKeepsHeader(bs, i, w, k); }
  }

  lemma CarveKeepsHeader(bs: Layout, i: nat, w: nat, k: nat)
    requires i < |bs| && w <= bs[i].words && k < |bs|
    ensures HasHeader(Carve(bs, i, w), bs[k].at)
  {
    var r := Carve(bs, i, w);
    if |r| == |bs| || k <= i {
      assert r[k].at == bs[k].at;
    } else {
      assert r[k + 1] == bs[i + 1..][k - i - 1];
    }
  }

  /** Blocks are only ever split: a header stays where it is for the rest of every run. */
  lemma {:induction false} HeadersNeverMove(bs: Layout, ops: seq<Op>, at: nat)
    requires HasHeader(bs, at)
    ensures HasHeader(Run(bs, ops), at)
    decreases |ops|
  {
    if ops != [] {
      StepKeepsHeader(bs, ops[0], at);
      HeadersNeverMove(Step(bs, ops[0]), ops[1..], at);
    }
  }

  /** So freeing does not undo a split: once a request has split the fresh region, no later run
      whatever can serve a request for the whole region again. */
  lemma SplitIsForever(num: nat, w: nat, ops: seq<Op>)
    requires num >= 3 && w + HEADER + 1 <= num - HEADER
    ensures var bs := Run(Alloc(Fresh(num), w).1, ops);
      forall v :: v >= num - HEADER ==> Alloc(bs, v).0.None?
  {
    var bs1 := Alloc(Fresh(num), w).1;
    assert Chosen(Fresh(num), w) == 0;
    StepTiles(Fresh(num), num, DoAlloc(w));
    RunTiles(bs1, num, ops);
    assert bs1[1].at == HEADER + w;
    HeadersNeverMove(bs1, ops, HEADER + w);
    var bs := Run(bs1, ops);
    var k :| 0 <= k < |bs| && bs[k].at == HEADER + w;
    forall j | 0 <= j < |bs| ensures bs[j].words < num - HEADER {
      EndBound(bs, num, j);
      if bs[j].at == 0 {
        if j < k { Ordered(bs, num, j, k); } else { Ordered(bs, num, k, j); }
      }
    }
  }
}
