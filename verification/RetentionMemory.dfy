/** The allocator of power_manage.c in place: headers live in the words they manage.

    Addresses are byte addresses of a 32-bit machine.  A header at word index `at` holds, in
    `mem[at]`, the address of the next header (0 ends the list) and, in `mem[at + 1]`, the payload
    size in bytes with the used bit in bit 0.
  */
module RetentionMemory {
  import opened Wrappers
  import opened MachineWords
  import opened RetentionLayout
  import opened RetentionSizes

  /** The region can exist in the address space: aligned, not at NULL, not wrapping. */
  ghost predicate Placed(base: nat, num: nat) {
    num > 0 ==> base > 0 && base % 4 == 0 && base + 4 * num <= TWO_32
  }

  function Address(base: nat, at: nat): nat { base + 4 * at }

  /** The two header words of block `i`. */
  function NextWord(bs: Layout, base: nat, i: nat): nat
    requires i < |bs|
  {
    if i + 1 < |bs| then Address(base, bs[i + 1].at) else 0
  }

  ghost predicate HeaderStored(mem: seq<uint32>, base: nat, bs: Layout, i: nat)
    requires i < |bs|
  {
    && bs[i].at + 1 < |mem|
    && mem[bs[i].at] == NextWord(bs, base, i)
    && mem[bs[i].at + 1] == SizeWord(bs[i])
  }

  /** The words of `mem` are the linked list `bs`. */
  ghost predicate Encodes(mem: seq<uint32>, base: nat, bs: Layout) {
    forall i :: 0 <= i < |bs| ==> HeaderStored(mem, base, bs, i)
  }

  /** A header word is a word of some block's header. */
  ghost predicate IsHeaderWord(bs: Layout, x: int) {
    exists i :: 0 <= i < |bs| && bs[i].at <= x < bs[i].at + HEADER
  }

  /** Writing outside every header leaves the list as it is. */
  lemma EncodesFrame(mem: seq<uint32>, mem': seq<uint32>, base: nat, bs: Layout)
    requires Encodes(mem, base, bs) && |mem'| == |mem|
    requires forall x :: 0 <= x < |mem| && IsHeaderWord(bs, x) ==> mem'[x] == mem[x]
    ensures Encodes(mem', base, bs)
  {
    forall i | 0 <= i < |bs| ensures HeaderStored(mem', base, bs, i) {
      assert HeaderStored(mem, base, bs, i);
      HeaderWords(bs, i);
    }
  }

  lemma HeaderWords(bs: Layout, i: nat)
    requires i < |bs|
    ensures IsHeaderWord(bs, bs[i].at) && IsHeaderWord(bs, bs[i].at + 1)
  {
  }

  /** `r` is `bs` with block `i` split after `w` words, block by block. */
  ghost predicate SplitOf(bs: Layout, i: nat, w: nat, r: Layout)
    requires i < |bs| && bs[i].words >= w + HEADER + 1
  {
    && |r| == |bs| + 1
    && r[i] == Block(bs[i].at, w, true)
    && r[i + 1] == Block(bs[i].Payload() + w, bs[i].words - w - HEADER, false)
    && (forall k :: 0 <= k < i ==> r[k] == bs[k])
    && (forall k :: i + 1 < k < |r| ==> r[k] == bs[k - 1])
  }

  lemma CarveIsSplit(bs: Layout, i: nat, w: nat)
    requires i < |bs| && bs[i].words >= w + HEADER + 1
    ensures SplitOf(bs, i, w, Carve(bs, i, w))
  {
    var r, after := Carve(bs, i, w), bs[i + 1..];
    forall k | i + 1 < k < |r| ensures r[k] == bs[k - 1] {
      assert r[k] == after[k - i - 2];
    }
  }

  /** Writing the two headers of a split, everything else kept, stores the split list. */
  lemma SplitEncodes(mem: seq<uint32>, mem': seq<uint32>, base: nat, bs: Layout, i: nat, w: nat, r: Layout)
    requires Tiles(bs, |mem|) && Encodes(mem, base, bs) && |mem'| == |mem|
    requires i < |bs| && bs[i].words >= w + HEADER + 1 && SplitOf(bs, i, w, r)
    requires HeaderStored(mem, base, bs, i)
    requires HeaderStored(mem', base, r, i) && HeaderStored(mem', base, r, i + 1)
    requires forall x :: 0 <= x < bs[i].at || bs[i].End() <= x < |mem| ==> mem'[x] == mem[x]
    ensures Encodes(mem', base, r)
  {
    forall k | 0 <= k < |r| ensures HeaderStored(mem', base, r, k) {
      if k < i {
        assert HeaderStored(mem, base, bs, k);
        Ordered(bs, |mem|, k, i);
      } else if k > i + 1 {
        assert HeaderStored(mem, base, bs, k - 1);
        Ordered(bs, |mem|, i, k - 1);
      }
    }
  }

  /** The four header words a split writes. */
  ghost function SplitWords(mem: seq<uint32>, base: nat, bs: Layout, i: nat, w: nat): seq<uint32>
    requires i < |bs| && bs[i].words >= w + HEADER + 1 && bs[i].End() <= |mem|
    requires Address(base, bs[i].End()) <= TWO_32
  {
    var at, newAt := bs[i].at, bs[i].Payload() + w;
    mem[newAt + 1 := 4 * (bs[i].words - w - HEADER)][newAt := mem[at]][at := Address(base, newAt)][at + 1 := 4 * w + 1]
  }

  lemma SplitWordsEncode(mem: seq<uint32>, base: nat, bs: Layout, i: nat, w: nat)
    requires Tiles(bs, |mem|) && Encodes(mem, base, bs)
    requires i < |bs| && bs[i].words >= w + HEADER + 1 && bs[i].End() <= |mem|
    requires Address(base, bs[i].End()) <= TWO_32
    ensures var m, r := SplitWords(mem, base, bs, i, w), Carve(bs, i, w);
      Encodes(m, base, r) && forall x :: 0 <= x < |mem| && !IsHeaderWord(r, x) ==> m[x] == mem[x]
  {
    var m, r := SplitWords(mem, base, bs, i, w), Carve(bs, i, w);
    CarveIsSplit(bs, i, w);
    assert HeaderStored(mem, base, bs, i);
    SplitHeaders(mem, base, bs, i, w, r);
    hide Carve;
    SplitEncodes(mem, m, base, bs, i, w, r);
    HeaderWords(r, i);
    HeaderWords(r, i + 1);
  }

  /** The two headers that are written. */
  lemma SplitHeaders(mem: seq<uint32>, base: nat, bs: Layout, i: nat, w: nat, r: Layout)
    requires i < |bs| && bs[i].words >= w + HEADER + 1 && bs[i].End() <= |mem| && SplitOf(bs, i, w, r)
    requires Address(base, bs[i].End()) <= TWO_32 && HeaderStored(mem, base, bs, i)
    ensures var m := SplitWords(mem, base, bs, i, w); HeaderStored(m, base, r, i) && HeaderStored(m, base, r, i + 1)
  {
    assert i + 2 < |r| ==> r[i + 2] == bs[i + 1];
  }

  /** Clearing the used bit of the block whose payload is at address `p`, if there is one. */
  ghost function FreeAddress(bs: Layout, base: nat, p: nat): Layout {
    seq(|bs|, i requires 0 <= i < |bs| =>
      if Address(base, bs[i].Payload()) == p then bs[i].(used := false) else bs[i])
  }

  lemma FreeAddressIsFree(bs: Layout, base: nat, q: nat)
    ensures FreeAddress(bs, base, Address(base, q)) == Free(bs, q)
  {
  }

  lemma FreeAddressMarks(bs: Layout, num: nat, base: nat, k: nat)
    requires Tiles(bs, num) && k < |bs|
    ensures FreeAddress(bs, base, Address(base, bs[k].Payload())) == bs[k := bs[k].(used := false)]
  {
    forall j | 0 <= j < |bs| && bs[j].Payload() == bs[k].Payload() ensures j == k {
      SameStart(bs, num, j, k);
    }
  }

  lemma MarkTiles(bs: Layout, num: nat, k: nat, used: bool)
    requires Tiles(bs, num) && k < |bs|
    ensures Tiles(bs[k := bs[k].(used := used)], num)
  {
    var r := bs[k := bs[k].(used := used)];
    forall i | 0 < i < |r| ensures Abuts(r, i) {
      assert Abuts(bs, i);
    }
  }

  /** What an allocation comes to, by the outcomes of the two passes. */
  lemma AllocCases(bs: Layout, w: nat)
    ensures var e, f := ExactFit(bs, w), FirstFit(bs, w);
      RetentionLayout.Alloc(bs, w) ==
        if e < |bs| then (Some(bs[e].Payload()), bs[e := bs[e].(used := true)])
        else if f < |bs| then (Some(bs[f].Payload()), Carve(bs, f, w))
        else (None, bs)
  {
  }

  class RetentionMemory {
    var mem: array<uint32>  // pm_dev_reten_mem points here; no words before it is set
    var base: nat           // address of mem[0]
    ghost var blocks: Layout

    ghost predicate Valid()
      reads this, mem
    {
      && Placed(base, mem.Length)
      && Tiles(blocks, mem.Length)
      && Encodes(mem[..], base, blocks)
    }

    constructor ()
      ensures Valid() && fresh(mem) && mem.Length == 0 && blocks == []
    {
      mem := new uint32[0];
      base := 0;
      blocks := [];
    }

    /** The list head: the value of the pointer `pm_dev_reten_mem`. */
    function Head(): nat
      reads this
    {
      if mem.Length == 0 then 0 else base
    }

    /** `csi_pm_set_reten_mem`; `region` is null for a null pointer. */
    method SetRegion(region: array?<uint32>, address: nat) returns (ok: bool)
      requires Valid()
      requires region != null ==> Placed(address, region.Length)
      modifies this, region
      ensures Valid()
      ensures ok <==> region != null && region.Length >= 3
      ensures ok ==> mem == region && base == address && blocks == Fresh(mem.Length)
      ensures ok ==> forall x :: 2 <= x < mem.Length ==> mem[x] == old(region[x])
      ensures !ok ==> unchanged(this) && (region != null ==> unchanged(region))
    {
      if region == null || region.Length < 3 {
        return false;
      }
      region[0] := 0;
      region[1] := region.Length * 4 - 8;
      mem, base, blocks := region, address, Fresh(region.Length);
      return true;
    }

    /** One list walk: which block a node pointer stands for. */
    ghost predicate At(node: nat, k: nat)
      reads this, mem
    {
      && k <= |blocks|
      && node == if k == |blocks| then 0 else Address(base, blocks[k].at)
    }

    method Follow(node: nat, ghost k: nat) returns (at: nat, size: uint32, next: nat)
      requires Valid() && At(node, k) && node != 0
      ensures k < |blocks| && at == blocks[k].at && size == SizeWord(blocks[k])
      ensures at + 1 < mem.Length && next == mem[at] && At(next, k + 1)
    {
      assert HeaderStored(mem[..], base, blocks, k);
      at := (node - base) / 4;
      size := mem[at + 1];
      next := mem[at];
    }

    /** Taking block `k` whole: its used bit is set. */
    method TakeWhole(at: nat, ghost k: nat)
      requires Valid() && k < |blocks| && at == blocks[k].at
      modifies mem, this`blocks
      ensures Valid() && blocks == old(blocks)[k := old(blocks[k]).(used := true)]
      ensures forall x :: 0 <= x < mem.Length && !IsHeaderWord(blocks, x) ==> mem[x] == old(mem[x])
    {
      hide SetBit0;
      assert HeaderStored(mem[..], base, blocks, k);
      SizeBits(blocks[k]);
      mem[at + 1] := SetBit0(mem[at + 1]);
      MarkEncodes(old(mem[..]), mem[..], base, blocks, k, true);
      MarkTiles(blocks, mem.Length, k, true);
      blocks := blocks[k := blocks[k].(used := true)];
      HeaderWords(blocks, k);
    }

    /** Splitting block `k`: a new header after `size` bytes, both headers linked. */
    method Split(at: nat, w: nat, ghost k: nat)
      requires Valid() && k < |blocks| && at == blocks[k].at
      requires blocks[k].words >= w + HEADER + 1 && !blocks[k].used
      modifies mem, this`blocks
      ensures Valid() && blocks == Carve(old(blocks), k, w)
      ensures forall x :: 0 <= x < mem.Length && !IsHeaderWord(blocks, x) ==> mem[x] == old(mem[x])
    {
      EndBound(blocks, mem.Length, k);
      assert HeaderStored(mem[..], base, blocks, k);
      CarveTiles(blocks, mem.Length, k, w);
      SplitWordsEncode(mem[..], base, blocks, k, w);
      hide Tiles, Encodes, IsHeaderWord, Carve;
      var newAt := at + HEADER + w;
      mem[newAt + 1] := mem[at + 1] - 4 * w - 8;
      mem[newAt] := mem[at];
      mem[at] := Address(base, newAt);
      mem[at + 1] := 4 * w + 1;  // size | NODE_USED_MASK
      assert mem[..] == SplitWords(old(mem[..]), base, blocks, k, w);
      blocks := Carve(blocks, k, w);
    }

    /** The first pass, for a request of any number of bytes: the node whose size word equals it. */
    method FindExact(size: uint32) returns (node: nat, ghost k: nat)
      requires Valid()
      ensures At(node, k) && k == FirstEqual(WordsOf(blocks), size)
      ensures var i := FirstEqual(WordsOf(blocks), size);
        node == if i == |blocks| then 0 else Address(base, blocks[i].at)
    {
      k, node := 0, Head();
      while node != 0
        invariant At(node, k) && k <= FirstEqual(WordsOf(blocks), size)
        decreases |blocks| - k
      {
        var _, nodeSize, next := Follow(node, k);
        if nodeSize == size {
          return;
        }
        node, k := next, k + 1;
      }
    }

    /** The second pass: the first node with a larger size word and no used bit. */
    method FindLarger(size: uint32) returns (node: nat, ghost k: nat)
      requires Valid()
      ensures At(node, k) && k == FirstLarger(WordsOf(blocks), size)
      ensures var i := FirstLarger(WordsOf(blocks), size);
        node == if i == |blocks| then 0 else Address(base, blocks[i].at)
    {
      k, node := 0, Head();
      while node != 0
        invariant At(node, k) && k <= FirstLarger(WordsOf(blocks), size)
        decreases |blocks| - k
      {
        var _, nodeSize, next := Follow(node, k);
        if nodeSize > size && !Bit0(nodeSize) {
          return;
        }
        node, k := next, k + 1;
      }
    }

    /** Taking a larger node: split off what is left over, if it has room for a header and a word. */
    method TakeLarger(node: nat, size: uint32, ghost k: nat)
      requires Valid() && At(node, k) && node != 0 && size % 4 == 0
      requires k < |blocks| && !blocks[k].used && blocks[k].words > size / 4
      modifies mem, this`blocks
      ensures Valid() && blocks == Carve(old(blocks), k, size / 4)
      ensures forall x :: 0 <= x < mem.Length && !IsHeaderWord(blocks, x) ==> mem[x] == old(mem[x])
    {
      var at, nodeSize, _ := Follow(node, k);
      EndBound(blocks, mem.Length, k);
      if nodeSize >= size + 12 {
        Split(at, size / 4, k);
      } else {
        TakeWhole(at, k);
      }
    }

    /** The two passes of `pm_alloc_reten_mem`, for whole words. */
    method Choose(size: uint32) returns (node: nat, exact: bool, ghost k: nat)
      requires Valid() && size % 4 == 0
      ensures At(node, k) && (exact ==> node != 0)
      ensures k == if exact then ExactFit(blocks, size / 4) else FirstFit(blocks, size / 4)
      ensures !exact ==> ExactFit(blocks, size / 4) == |blocks|
    {
      hide FirstEqual, FirstLarger, ExactFit, FirstFit, WordsOf, Valid;
      ghost var w := size / 4;
      PassesAgree(blocks, w);
      node, k := FindExact(size);
      exact := node != 0;
      ExactAt(node, k);
      if !exact {
        node, k := FindLarger(size);
      }
    }

    /** A node pointer is 0 exactly at the end of the list. */
    lemma ExactAt(node: nat, k: nat)
      requires Valid() && At(node, k)
      ensures node == 0 <==> k == |blocks|
    {
    }

    /** `pm_alloc_reten_mem`: two passes over the list, then a split or a whole block. */
    method Alloc(size: uint32) returns (p: nat)
      requires Valid() && size % 4 == 0
      modifies mem, this`blocks
      ensures Valid()
      ensures var (r, bs) := RetentionLayout.Alloc(old(blocks), size / 4);
        blocks == bs && p == match r case None => 0 case Some(at) => Address(base, at)
      ensures forall x :: 0 <= x < mem.Length && !IsHeaderWord(blocks, x) ==> mem[x] == old(mem[x])
    {
      hide ExactFit, FirstFit, Valid, Carve, IsHeaderWord, RetentionLayout.Alloc;
      AllocCases(blocks, size / 4);
      var node, exact, k := Choose(size);
      ExactAt(node, k);
      if node == 0 {
        return 0;
      }
      if exact {
        var at, _, _ := Follow(node, k);
        TakeWhole(at, k);
      } else {
        TakeLarger(node, size, k);
      }
      return node + 8;
    }

    /** `pm_free_reten_mem`: any address may be passed; one that is no payload is ignored. */
    method Free(p: nat)
      requires Valid()
      modifies mem, this`blocks
      ensures Valid()
      ensures blocks == FreeAddress(old(blocks), base, p)
      ensures forall x :: 0 <= x < mem.Length && !IsHeaderWord(blocks, x) ==> mem[x] == old(mem[x])
    {
      ghost var k := 0;
      var node: nat := Head();
      while node != 0
        invariant mem[..] == old(mem[..]) && blocks == old(blocks) && At(node, k)
        invariant forall j :: 0 <= j < k ==> Address(base, blocks[j].Payload()) != p
        decreases |blocks| - k
      {
        var at, _, next := Follow(node, k);
        if node + 8 == p {
          Release(at, k);
          return;
        }
        node, k := next, k + 1;
      }
      assert FreeAddress(blocks, base, p) == blocks;
    }

    /** Giving block `k` back: its used bit is cleared. */
    method Release(at: nat, ghost k: nat)
      requires Valid() && k < |blocks| && at == blocks[k].at
      modifies mem, this`blocks
      ensures Valid() && blocks == FreeAddress(old(blocks), base, Address(base, at + HEADER))
      ensures forall x :: 0 <= x < mem.Length && !IsHeaderWord(blocks, x) ==> mem[x] == old(mem[x])
    {
      hide ClearBit0;
      assert HeaderStored(mem[..], base, blocks, k);
      SizeBits(blocks[k]);
      mem[at + 1] := ClearBit0(mem[at + 1]);
      MarkEncodes(old(mem[..]), mem[..], base, blocks, k, false);
      MarkTiles(blocks, mem.Length, k, false);
      FreeAddressMarks(blocks, mem.Length, base, k);
      ghost var bs := blocks[k := blocks[k].(used := false)];
      HeaderWords(bs, k);
      blocks := bs;
    }
  }

  /** Setting or clearing one used bit in place. */
  lemma MarkEncodes(mem: seq<uint32>, mem': seq<uint32>, base: nat, bs: Layout, i: nat, used: bool)
    requires Tiles(bs, |mem|) && Encodes(mem, base, bs) && i < |bs|
    requires HeaderStored(mem, base, bs, i) && mem' == mem[bs[i].at + 1 := SizeWord(bs[i].(used := used))]
    ensures Encodes(mem', base, bs[i := bs[i].(used := used)])
  {
    var r := bs[i := bs[i].(used := used)];
    forall k | 0 <= k < |r| ensures HeaderStored(mem', base, r, k) {
      assert HeaderStored(mem, base, bs, k);
      if k < i { Ordered(bs, |mem|, k, i); } else if i < k { Ordered(bs, |mem|, i, k); }
    }
  }
}
