/** Power-domain sequencing of power.c, with the reset and clock writes of sysrst.c and sysclk.c, in
    software power mode.

    The chip is the set of register bits that are 1.  A write sets or clears bits: reset and clock
    registers are read, changed and written back, and the SET and CLR registers of isolation and
    power switch are commands that set or clear the bits written as 1.  A domain's reset bit is 1
    when its reset is released, its isolation bit is 1 when it is isolated, and its two switch
    bits are 1 when its power switch is off.
  */
module PowerDomains {

  datatype Reg = IsoReg | OffReg | ResetReg(r: nat) | ClockReg(c: nat)
  type Bit = (Reg, nat)
  type Bits = set<Bit>

  datatype Domain = Audio | Vdec | Npu | Venc | Gpu | Dsp0 | Dsp1 | Core0 | Core1 | Core2 | Core3

  /** The subsystem number in the isolation and switch registers. */
  function Subsystem(d: Domain): nat {
    match d
    case Audio => 0 case Vdec => 1 case Npu => 2 case Venc => 3 case Gpu => 4 case Dsp0 => 5 case Dsp1 => 6
    case Core0 => 7 case Core1 => 8 case Core2 => 9 case Core3 => 10
  }

  predicate IsCore(d: Domain) { d == Core0 || d == Core1 || d == Core2 || d == Core3 }

  /** The cores share a reset and a clock register; every other domain has its own, and the NPU a
      second reset register. */
  const CORES := 7
  const NNA := 11

  function ResetWrites(d: Domain): seq<Bits> {
    match d
    case Audio => [set b | 0 <= b < 6 :: (ResetReg(0), b)]
    case Npu => [{(ResetReg(2), 0)}, {(ResetReg(NNA), 0)}]
    case Core0 => [{(ResetReg(CORES), 1)}]
    case Core1 => [{(ResetReg(CORES), 2)}]
    case Core2 => [{(ResetReg(CORES), 3)}]
    case Core3 => [{(ResetReg(CORES), 4)}]
    case _ => [{(ResetReg(Subsystem(d)), 0)}]
  }

  function ResetBits(d: Domain): Bits {
    if d == Npu then {(ResetReg(2), 0), (ResetReg(NNA), 0)} else ResetWrites(d)[0]
  }

  function ClockBits(d: Domain): Bits {
    match d
    case Audio => {(ClockReg(0), 0), (ClockReg(0), 1)}
    case Npu => {(ClockReg(2), 4)}
    case Core0 => {(ClockReg(CORES), 5)}
    case Core1 => {(ClockReg(CORES), 13)}
    case Core2 => {(ClockReg(CORES), 21)}
    case Core3 => {(ClockReg(CORES), 29)}
    case _ => {(ClockReg(Subsystem(d)), 0)}
  }

  function IsoBits(d: Domain): Bits { {(IsoReg, Subsystem(d))} }
  function OffBits(d: Domain): Bits { {(OffReg, 2 * Subsystem(d)), (OffReg, 2 * Subsystem(d) + 1)} }

  function Own(d: Domain): Bits { ResetBits(d) + ClockBits(d) + IsoBits(d) + OffBits(d) }

  // ---- register writes ----

  datatype Write = SetBits(bits: Bits) | ClearBits(bits: Bits)

  function Apply(c: Bits, w: Write): Bits {
    match w case SetBits(b) => c + b case ClearBits(b) => c - b
  }

  function Resets(d: Domain): seq<Write> {
    var rs := ResetWrites(d);
    seq(|rs|, i requires 0 <= i < |rs| => ClearBits(rs[i]))
  }

  function Releases(d: Domain): seq<Write> {
    var rs := ResetWrites(d);
    seq(|rs|, i requires 0 <= i < |rs| => SetBits(rs[i]))
  }

  /** The writes of the *_powerup function of a domain, in order. */
  function UpScript(d: Domain): seq<Write> {
    match d
    case Gpu => [ClearBits(OffBits(d)), ClearBits(IsoBits(d))]
    case Audio =>
      [ClearBits(ResetBits(d)), ClearBits(OffBits(d)), ClearBits(IsoBits(d)), SetBits(ClockBits(d)),
       SetBits(ResetBits(d) - {(ResetReg(0), 3)}), SetBits({(ResetReg(0), 3)})]
    case _ =>
      Resets(d) + [ClearBits(OffBits(d)), ClearBits(IsoBits(d)), SetBits(ClockBits(d))] + Releases(d)
  }

  /** The writes of the *_powerdown function; the audio one resets only one of its six bits. */
  function DownScript(d: Domain): seq<Write> {
    match d
    case Gpu => [SetBits(IsoBits(d)), SetBits(OffBits(d))]
    case Audio =>
      [ClearBits({(ResetReg(0), 5)}), ClearBits(ClockBits(d)), SetBits(IsoBits(d)), SetBits(OffBits(d))]
    case _ =>
      Resets(d) + [ClearBits(ClockBits(d)), SetBits(IsoBits(d)), SetBits(OffBits(d))]
  }

  function Script(d: Domain, on: bool): seq<Write> { if on then UpScript(d) else DownScript(d) }

  /** The states after each of the writes. */
  function States(c: Bits, ws: seq<Write>): seq<Bits>
    decreases |ws|
  {
    if ws == [] then [] else [Apply(c, ws[0])] + States(Apply(c, ws[0]), ws[1..])
  }

  function Final(c: Bits, ws: seq<Write>): Bits
    decreases |ws|
  {
    if ws == [] then c else Final(Apply(c, ws[0]), ws[1..])
  }

  // ---- what must hold all along ----

  predicate Released(c: Bits, d: Domain) { ResetBits(d) * c != {} }
  predicate Clocked(c: Bits, d: Domain) { ClockBits(d) * c != {} }
  predicate FullyClocked(c: Bits, d: Domain) { ClockBits(d) <= c }
  predicate Isolated(c: Bits, d: Domain) { (IsoReg, Subsystem(d)) in c }
  predicate Powered(c: Bits, d: Domain) { OffBits(d) * c == {} }

  /** Released implies clocked, clocked implies not isolated, not isolated implies powered.  The first
      link is claimed for all domains but audio and GPU, the second for all but the GPU. */
  predicate Chain(c: Bits, d: Domain) {
    && (d != Audio && d != Gpu && Released(c, d) ==> FullyClocked(c, d))
    && (d != Gpu && Clocked(c, d) ==> !Isolated(c, d))
    && (!Isolated(c, d) ==> Powered(c, d))
  }

  // ---- whose bit is whose ----

  function OfSubsystem(n: nat): Domain {
    if n == 0 then Audio else if n == 1 then Vdec else if n == 2 then Npu else if n == 3 then Venc
    else if n == 4 then Gpu else if n == 5 then Dsp0 else if n == 6 then Dsp1
    else if n == 7 then Core0 else if n == 8 then Core1 else if n == 9 then Core2 else Core3
  }

  function Owner(b: Bit): Domain {
    match b.0
    case IsoReg => OfSubsystem(b.1)
    case OffReg => OfSubsystem(b.1 / 2)
    case ResetReg(r) => if r == CORES then OfSubsystem(b.1 + 6) else if r == NNA then Npu else OfSubsystem(r)
    case ClockReg(r) => if r == CORES then OfSubsystem(b.1 / 8 + 7) else OfSubsystem(r)
  }

  lemma OwnerOfReset(d: Domain, b: Bit)
    requires b in ResetBits(d)
    ensures b.0.ResetReg? && Owner(b) == d
  {
    match d
    case Audio => case Vdec => case Npu => case Venc => case Gpu => case Dsp0 => case Dsp1 =>
    case Core0 => case Core1 => case Core2 => case Core3 =>
  }

  lemma OwnerOfClock(d: Domain, b: Bit)
    requires b in ClockBits(d)
    ensures b.0.ClockReg? && Owner(b) == d
  {
    match d
    case Audio => case Vdec => case Npu => case Venc => case Gpu => case Dsp0 => case Dsp1 =>
    case Core0 => case Core1 => case Core2 => case Core3 =>
  }

  lemma OwnerOf(d: Domain, b: Bit)
    requires b in Own(d)
    ensures Owner(b) == d
  {
    hide ResetBits, ClockBits;
    if b in ResetBits(d) {
      OwnerOfReset(d, b);
    } else if b in ClockBits(d) {
      OwnerOfClock(d, b);
    } else {
      assert OfSubsystem(Subsystem(d)) == d;
    }
  }

  /** Different domains have no register bit in common. */
  lemma OwnApart(d: Domain, e: Domain)
    requires d != e
    ensures Own(d) !! Own(e)
  {
    hide Own, Owner;
    forall b | b in Own(d) ensures b !in Own(e) {
      OwnerOf(d, b);
      if b in Own(e) { OwnerOf(e, b); }
    }
  }

  /** A domain's four groups of bits are disjoint, and it has a clock. */
  lemma PartsApart(d: Domain)
    ensures ResetBits(d) !! ClockBits(d) !! IsoBits(d) !! OffBits(d)
    ensures ClockBits(d) != {}
  {
    assert (ClockReg(if IsCore(d) then CORES else Subsystem(d)),
            if d == Npu then 4 else if IsCore(d) then 8 * (Subsystem(d) - 7) + 5 else 0) in ClockBits(d);
    hide ResetBits, ClockBits;
    forall b | b in ResetBits(d) ensures b.0.ResetReg? { OwnerOfReset(d, b); }
    forall b | b in ClockBits(d) ensures b.0.ClockReg? { OwnerOfClock(d, b); }
  }

  /** The chain of a domain is a matter of its own bits. */
  lemma ChainLocal(c: Bits, c': Bits, d: Domain)
    requires c * Own(d) == c' * Own(d)
    ensures Chain(c, d) == Chain(c', d)
  {
    hide ResetBits, ClockBits, Subsystem;
    forall b | b in Own(d) ensures b in c <==> b in c' {
      assert b in c * Own(d) <==> b in c' * Own(d);
    }
    assert ResetBits(d) * c == ResetBits(d) * c' && ClockBits(d) * c == ClockBits(d) * c';
    assert OffBits(d) * c == OffBits(d) * c';
    assert (IsoReg, Subsystem(d)) in IsoBits(d);
  }

  // ---- the chain along a script ----

  /** The chain of `d` holds now and after each of the writes. */
  predicate Along(c: Bits, ws: seq<Write>, d: Domain)
    decreases |ws|
  {
    Chain(c, d) && (ws != [] ==> Along(Apply(c, ws[0]), ws[1..], d))
  }

  lemma {:induction false} AlongConcat(c: Bits, ws: seq<Write>, us: seq<Write>, d: Domain)
    requires Along(c, ws, d) && Along(Final(c, ws), us, d)
    ensures Along(c, ws + us, d) && Final(c, ws + us) == Final(Final(c, ws), us)
    decreases |ws|
  {
    hide Chain;
    if ws == [] {
      assert ws + us == us;
    } else {
      assert (ws + us)[0] == ws[0] && (ws + us)[1..] == ws[1..] + us;
      AlongConcat(Apply(c, ws[0]), ws[1..], us, d);
    }
  }

  /** Asserting resets never hurts. */
  lemma {:induction false} ResetsAlong(c: Bits, ws: seq<Write>, d: Domain)
    requires Chain(c, d)
    requires forall i :: 0 <= i < |ws| ==> ws[i].ClearBits? && ws[i].bits <= ResetBits(d)
    ensures Along(c, ws, d)
    decreases |ws|
  {
    if ws != [] {
      hide ResetBits, ClockBits, OffBits, Subsystem;
      PartsApart(d);
      var c1 := c - ws[0].bits;
      assert ClockBits(d) * c1 == ClockBits(d) * c && OffBits(d) * c1 == OffBits(d) * c;
      assert (IsoReg, Subsystem(d)) in IsoBits(d);
      assert Isolated(c1, d) == Isolated(c, d);
      assert Released(c1, d) ==> Released(c, d);
      assert FullyClocked(c, d) ==> FullyClocked(c1, d);
      ResetsAlong(c1, ws[1..], d);
    }
  }

  /** Releasing resets is fine once the rest is up. */
  lemma {:induction false} ReleasesAlong(c: Bits, ws: seq<Write>, d: Domain)
    requires FullyClocked(c, d) && !Isolated(c, d) && Powered(c, d)
    requires forall i :: 0 <= i < |ws| ==> ws[i].SetBits? && ws[i].bits <= ResetBits(d)
    ensures Along(c, ws, d)
    decreases |ws|
  {
    if ws != [] {
      hide ResetBits, ClockBits, OffBits, Subsystem;
      PartsApart(d);
      var c1 := c + ws[0].bits;
      assert OffBits(d) * c1 == OffBits(d) * c;
      assert (IsoReg, Subsystem(d)) in IsoBits(d);
      ReleasesAlong(c1, ws[1..], d);
    }
  }

  function Middle(d: Domain): seq<Write> {
    [ClearBits(OffBits(d)), ClearBits(IsoBits(d)), SetBits(ClockBits(d))]
  }

  function Tail(d: Domain): seq<Write> {
    [ClearBits(ClockBits(d)), SetBits(IsoBits(d)), SetBits(OffBits(d))]
  }

  /** Switch on, connect, start the clock: in this order with no reset released. */
  lemma MiddleAlong(c: Bits, d: Domain)
    requires Chain(c, d) && (d == Audio || !Released(c, d)) && d != Gpu
    ensures Along(c, Middle(d), d)
    ensures var f := Final(c, Middle(d)); FullyClocked(f, d) && !Isolated(f, d) && Powered(f, d)
  {
    hide ResetBits, ClockBits, OffBits, Subsystem;
    PartsApart(d);
    var ws := Middle(d);
    var c1 := c - OffBits(d);
    var c2 := c1 - IsoBits(d);
    var c3 := c2 + ClockBits(d);
    assert (IsoReg, Subsystem(d)) in IsoBits(d);
    assert ResetBits(d) * c1 == ResetBits(d) * c2 == ResetBits(d) * c3 == ResetBits(d) * c;
    assert ClockBits(d) * c1 == ClockBits(d) * c2 == ClockBits(d) * c;
    assert OffBits(d) * c1 == OffBits(d) * c2 == OffBits(d) * c3 == {};
    assert Chain(c1, d) && Chain(c2, d) && Chain(c3, d);
    Unroll3(c, ws, d);
  }

  lemma Unroll3(c: Bits, ws: seq<Write>, d: Domain)
    requires |ws| == 3
    ensures var c1 := Apply(c, ws[0]);
      var c2 := Apply(c1, ws[1]);
      var c3 := Apply(c2, ws[2]);
      Final(c, ws) == c3 && (Along(c, ws, d) <==> Chain(c, d) && Chain(c1, d) && Chain(c2, d) && Chain(c3, d))
  {
    hide Chain;
    assert ws[1..][0] == ws[1] && ws[1..][1..][0] == ws[2] && ws[1..][1..][1..] == [];
    var c1 := Apply(c, ws[0]);
    var c2 := Apply(c1, ws[1]);
    assert Final(c1, ws[1..]) == Final(c2, ws[1..][1..]);
    assert Along(c1, ws[1..], d) <==> Chain(c1, d) && Along(c2, ws[1..][1..], d);
    var c3 := Apply(c2, ws[2]);
    assert Final(c3, []) == c3 && (Along(c3, [], d) <==> Chain(c3, d));
    assert Final(c2, ws[1..][1..]) == c3 && (Along(c2, ws[1..][1..], d) <==> Chain(c2, d) && Chain(c3, d));
  }

  /** Stop the clock, isolate, switch off: in this order with no reset released. */
  lemma TailAlong(c: Bits, d: Domain)
    requires Chain(c, d) && (d == Audio || !Released(c, d)) && d != Gpu
    ensures Along(c, Tail(d), d)
    ensures var f := Final(c, Tail(d)); !Clocked(f, d) && Isolated(f, d)
  {
    hide ResetBits, ClockBits, OffBits, Subsystem;
    PartsApart(d);
    var ws := Tail(d);
    var c1 := c - ClockBits(d);
    var c2 := c1 + IsoBits(d);
    var c3 := c2 + OffBits(d);
    assert (IsoReg, Subsystem(d)) in IsoBits(d);
    assert ResetBits(d) * c1 == ResetBits(d) * c2 == ResetBits(d) * c3 == ResetBits(d) * c;
    assert ClockBits(d) * c1 == ClockBits(d) * c2 == ClockBits(d) * c3 == {};
    assert OffBits(d) * c1 == OffBits(d) * c2 == OffBits(d) * c;
    assert Chain(c1, d) && Chain(c2, d) && Chain(c3, d);
    Unroll3(c, ws, d);
  }

  lemma AfterResets(c: Bits, d: Domain)
    requires d != Audio && d != Gpu
    ensures Final(c, Resets(d)) == c - ResetBits(d)
    ensures forall i :: 0 <= i < |Resets(d)| ==> Resets(d)[i].ClearBits? && Resets(d)[i].bits <= ResetBits(d)
    ensures forall i :: 0 <= i < |Releases(d)| ==> Releases(d)[i].SetBits? && Releases(d)[i].bits <= ResetBits(d)
  {
    var ws := Resets(d);
    if d == Npu {
      assert ws[1..][0] == ws[1] && ws[1..][1..] == [];
      var c1 := Apply(c, ws[0]);
      assert Final(c, ws) == Final(c1, ws[1..]) == Apply(c1, ws[1]);
    } else {
      assert ws[1..] == [];
    }
  }

  /** Powering up keeps the domain's chain in every intermediate state, from any state that meets it. */
  lemma UpAlong(c: Bits, d: Domain)
    requires Chain(c, d)
    ensures Along(c, UpScript(d), d)
  {
    if d == Gpu {
      GpuAlong(c);
    } else if d == Audio {
      AudioUpAlong(c);
    } else {
      hide Chain, Along, Resets, Releases, Middle, ResetBits, OffBits, ClockBits;
      AfterResets(c, d);
      ResetsAlong(c, Resets(d), d);
      var c1 := Final(c, Resets(d));
      AlongEnds(c, Resets(d), d);
      assert !Released(c1, d);
      MiddleAlong(c1, d);
      AlongConcat(c, Resets(d), Middle(d), d);
      ReleasesAlong(Final(c1, Middle(d)), Releases(d), d);
      AlongConcat(c, Resets(d) + Middle(d), Releases(d), d);
      UpIs(d);
    }
  }

  lemma UpIs(d: Domain)
    requires d != Audio && d != Gpu
    ensures UpScript(d) == Resets(d) + Middle(d) + Releases(d) && DownScript(d) == Resets(d) + Tail(d)
  {
  }

  lemma {:induction false} AlongEnds(c: Bits, ws: seq<Write>, d: Domain)
    requires Along(c, ws, d)
    ensures Chain(Final(c, ws), d)
    decreases |ws|
  {
    hide Chain;
    if ws != [] { AlongEnds(Apply(c, ws[0]), ws[1..], d); }
  }

  lemma DownAlong(c: Bits, d: Domain)
    requires Chain(c, d)
    ensures Along(c, DownScript(d), d)
  {
    if d == Gpu {
      GpuAlong(c);
    } else if d == Audio {
      AudioDownAlong(c);
    } else {
      hide Chain, Along, Resets, Releases, Tail, ResetBits, OffBits, ClockBits;
      AfterResets(c, d);
      ResetsAlong(c, Resets(d), d);
      var c1 := Final(c, Resets(d));
      AlongEnds(c, Resets(d), d);
      assert !Released(c1, d);
      TailAlong(c1, d);
      AlongConcat(c, Resets(d), Tail(d), d);
      UpIs(d);
    }
  }

  lemma GpuAlong(c: Bits)
    requires Chain(c, Gpu)
    ensures Along(c, UpScript(Gpu), Gpu) && Along(c, DownScript(Gpu), Gpu)
  {
    var up, down := UpScript(Gpu), DownScript(Gpu);
    assert up[1..] == [up[1]] && up[1..][1..] == [];
    assert down[1..] == [down[1]] && down[1..][1..] == [];
    var u1, d1 := Apply(c, up[0]), Apply(c, down[0]);
    var u2, d2 := Apply(u1, up[1]), Apply(d1, down[1]);
    assert Chain(u1, Gpu) && Chain(u2, Gpu) && Chain(d1, Gpu) && Chain(d2, Gpu);
    assert Along(u2, [], Gpu) && Along(d2, [], Gpu);
    assert Along(u1, up[1..], Gpu) && Along(d1, down[1..], Gpu);
  }

  lemma AudioUpAlong(c: Bits)
    requires Chain(c, Audio)
    ensures Along(c, UpScript(Audio), Audio)
  {
    var first := [ClearBits(ResetBits(Audio))];
    var last := [SetBits(ResetBits(Audio) - {(ResetReg(0), 3)}), SetBits({(ResetReg(0), 3)})];
    assert UpScript(Audio) == first + Middle(Audio) + last;
    hide ClockBits, OffBits, Middle;
    ResetsAlong(c, first, Audio);
    AlongEnds(c, first, Audio);
    var c1 := Final(c, first);
    MiddleAlong(c1, Audio);
    AlongConcat(c, first, Middle(Audio), Audio);
    ReleasesAlong(Final(c1, Middle(Audio)), last, Audio);
    AlongConcat(c, first + Middle(Audio), last, Audio);
  }

  lemma AudioDownAlong(c: Bits)
    requires Chain(c, Audio)
    ensures Along(c, DownScript(Audio), Audio)
  {
    var first := [ClearBits({(ResetReg(0), 5)})];
    assert DownScript(Audio) == first + Tail(Audio);
    hide ClockBits, OffBits, Tail;
    ResetsAlong(c, first, Audio);
    AlongEnds(c, first, Audio);
    TailAlong(Final(c, first), Audio);
    AlongConcat(c, first, Tail(Audio), Audio);
  }

  // ---- where the scripts lead ----

  lemma {:induction false} FinalConcat(c: Bits, ws: seq<Write>, us: seq<Write>)
    ensures Final(c, ws + us) == Final(Final(c, ws), us)
    decreases |ws|
  {
    if ws == [] {
      assert ws + us == us;
    } else {
      assert (ws + us)[0] == ws[0] && (ws + us)[1..] == ws[1..] + us;
      FinalConcat(Apply(c, ws[0]), ws[1..], us);
    }
  }

  lemma AfterReleases(c: Bits, d: Domain)
    requires d != Audio && d != Gpu
    ensures Final(c, Releases(d)) == c + ResetBits(d)
  {
    var ws := Releases(d);
    if d == Npu {
      assert ws[1..][0] == ws[1] && ws[1..][1..] == [];
      var c1 := Apply(c, ws[0]);
      assert Final(c, ws) == Final(c1, ws[1..]) == Apply(c1, ws[1]);
    } else {
      assert ws[1..] == [];
    }
  }

  /** Powering up leaves a domain powered, connected, clocked and with every reset released; powering
      down leaves it switched off, isolated, its clock stopped and its resets asserted.  The GPU
      scripts leave its reset and clock alone, and the audio power-down asserts one reset of six.
      All this holds from every state, whatever the chain. */
  lemma ScriptsLeadThere(c: Bits, d: Domain)
    ensures var f := Final(c, UpScript(d));
      && !Isolated(f, d) && Powered(f, d)
      && (d != Gpu ==> ResetBits(d) <= f && FullyClocked(f, d))
      && (d == Gpu ==> f * (ResetBits(d) + ClockBits(d)) == c * (ResetBits(d) + ClockBits(d)))
    ensures var f := Final(c, DownScript(d));
      && Isolated(f, d) && OffBits(d) <= f
      && (d != Gpu ==> !Clocked(f, d))
      && (d != Gpu && d != Audio ==> !Released(f, d))
      && (d == Audio ==> f * ResetBits(d) == c * ResetBits(d) - {(ResetReg(0), 5)})
      && (d == Gpu ==> f * (ResetBits(d) + ClockBits(d)) == c * (ResetBits(d) + ClockBits(d)))
  {
    hide UpScript, DownScript, ResetBits, ClockBits, OffBits, Subsystem;
    hide Released, Clocked, FullyClocked, Isolated, Powered;
    if d == Gpu {
      GpuLeadsThere(c);
    } else if d == Audio {
      AudioLeadsThere(c);
    } else {
      OthersLeadThere(c, d);
    }
  }

  lemma OthersLeadThere(c: Bits, d: Domain)
    requires d != Audio && d != Gpu
    ensures var f := Final(c, UpScript(d));
      ResetBits(d) <= f && FullyClocked(f, d) && !Isolated(f, d) && Powered(f, d)
    ensures var f := Final(c, DownScript(d));
      !Released(f, d) && !Clocked(f, d) && Isolated(f, d) && OffBits(d) <= f
  {
    UpIs(d);
    AfterResets(c, d);
    var c1 := c - ResetBits(d);
    hide ResetBits, ClockBits, OffBits, Subsystem, Resets, Releases, UpScript, DownScript;
    PartsApart(d);
    FinalConcat(c, Resets(d), Middle(d));
    FinalConcat(c, Resets(d) + Middle(d), Releases(d));
    FinalConcat(c, Resets(d), Tail(d));
    Unroll3(c1, Middle(d), d);
    Unroll3(c1, Tail(d), d);
    AfterReleases(Final(c1, Middle(d)), d);
    assert (IsoReg, Subsystem(d)) in IsoBits(d);
  }

  lemma Unroll2(c: Bits, ws: seq<Write>)
    requires |ws| == 2
    ensures Final(c, ws) == Apply(Apply(c, ws[0]), ws[1])
  {
    assert ws[1..][0] == ws[1] && ws[1..][1..] == [];
    assert Final(Apply(c, ws[0]), ws[1..]) == Apply(Apply(c, ws[0]), ws[1]);
  }

  lemma GpuLeadsThere(c: Bits)
    ensures var f, same := Final(c, UpScript(Gpu)), ResetBits(Gpu) + ClockBits(Gpu);
      !Isolated(f, Gpu) && Powered(f, Gpu) && f * same == c * same
    ensures var f, same := Final(c, DownScript(Gpu)), ResetBits(Gpu) + ClockBits(Gpu);
      Isolated(f, Gpu) && OffBits(Gpu) <= f && f * same == c * same
  {
    Unroll2(c, UpScript(Gpu));
    Unroll2(c, DownScript(Gpu));
    PartsApart(Gpu);
    assert (IsoReg, Subsystem(Gpu)) in IsoBits(Gpu);
  }

  /** The two writes that release the audio resets. */
  function AudioReleases(): seq<Write> {
    [SetBits(ResetBits(Audio) - {(ResetReg(0), 3)}), SetBits({(ResetReg(0), 3)})]
  }

  lemma AudioScripts()
    ensures UpScript(Audio) == [ClearBits(ResetBits(Audio))] + Middle(Audio) + AudioReleases()
    ensures DownScript(Audio) == [ClearBits({(ResetReg(0), 5)})] + Tail(Audio)
    ensures {(ResetReg(0), 3), (ResetReg(0), 5)} <= ResetBits(Audio)
  {
  }

  lemma Unroll1(c: Bits, w: Write)
    ensures Final(c, [w]) == Apply(c, w)
  {
    assert [w][1..] == [];
  }

  lemma AudioLeadsThere(c: Bits)
    ensures var f := Final(c, UpScript(Audio));
      ResetBits(Audio) <= f && FullyClocked(f, Audio) && !Isolated(f, Audio) && Powered(f, Audio)
    ensures var f := Final(c, DownScript(Audio));
      && f * ResetBits(Audio) == c * ResetBits(Audio) - {(ResetReg(0), 5)}
      && !Clocked(f, Audio) && Isolated(f, Audio) && OffBits(Audio) <= f
  {
    AudioScripts();
    hide ResetBits, ClockBits, OffBits, Subsystem, UpScript, DownScript;
    PartsApart(Audio);
    var first, last := ClearBits(ResetBits(Audio)), ClearBits({(ResetReg(0), 5)});
    Unroll1(c, first);
    Unroll1(c, last);
    FinalConcat(c, [first], Middle(Audio));
    FinalConcat(c, [first] + Middle(Audio), AudioReleases());
    FinalConcat(c, [last], Tail(Audio));
    Unroll3(Apply(c, first), Middle(Audio), Audio);
    Unroll3(Apply(c, last), Tail(Audio), Audio);
    Unroll2(Final(c, [first] + Middle(Audio)), AudioReleases());
    assert (IsoReg, Subsystem(Audio)) in IsoBits(Audio);
  }

  /** A power-up, the GPU's apart, starts with a reset: there is a state in which all of the domain's
      resets are asserted and none of its other bits has been touched yet. */
  lemma PowerUpResets(c: Bits, d: Domain) returns (k: nat)
    requires d != Gpu
    ensures k < |States(c, UpScript(d))|
    ensures var r := States(c, UpScript(d))[k]; !Released(r, d) && r == c - ResetBits(d)
  {
    if d == Audio {
      var ws := UpScript(Audio);
      assert ws[0] == ClearBits(ResetBits(Audio));
      k := 0;
    } else {
      AfterResets(c, d);
      UpIs(d);
      hide ResetBits, ClockBits, OffBits, Resets, Releases, UpScript, Middle;
      var rest := Middle(d) + Releases(d);
      assert UpScript(d) == Resets(d) + rest;
      SomeResets(d);
      k := |Resets(d)| - 1;
      StatesReach(c, Resets(d), rest);
    }
  }

  lemma SomeResets(d: Domain)
    ensures Resets(d) != []
  {
  }

  /** The state after the first writes is among the states of all of them. */
  lemma {:induction false} StatesReach(c: Bits, ws: seq<Write>, us: seq<Write>)
    requires ws != []
    ensures |States(c, ws + us)| >= |ws| && States(c, ws + us)[|ws| - 1] == Final(c, ws)
    decreases |ws|
  {
    var c1 := Apply(c, ws[0]);
    assert (ws + us)[0] == ws[0] && (ws + us)[1..] == ws[1..] + us;
    if |ws| > 1 {
      StatesReach(c1, ws[1..], us);
    } else {
      assert ws[1..] == [];
    }
  }

  // ---- whole runs ----

  datatype Command = Command(d: Domain, on: bool)

  function Writes(cmds: seq<Command>): seq<Write> {
    if cmds == [] then [] else Script(cmds[0].d, cmds[0].on) + Writes(cmds[1..])
  }

  lemma FullScriptWritesOwn(d: Domain, on: bool, i: nat)
    requires d != Audio && d != Gpu && i < |Script(d, on)|
    ensures Script(d, on)[i].bits <= Own(d)
  {
    UpIs(d);
    AfterResets({}, d);
    hide ResetBits, ClockBits, IsoBits, OffBits, Resets, Releases, UpScript, DownScript;
    var ws, r := Script(d, on), |Resets(d)|;
    if i < r {
      assert ws[i] == Resets(d)[i];
    } else if i < r + 3 {
      assert ws[i] == if on then Middle(d)[i - r] else Tail(d)[i - r];
    } else {
      assert ws[i] == Releases(d)[i - r - 3];
    }
  }

  /** A script writes only its own domain's bits. */
  lemma ScriptWritesOwn(d: Domain, on: bool, i: nat)
    requires i < |Script(d, on)|
    ensures Script(d, on)[i].bits <= Own(d)
  {
    hide ClockBits, IsoBits, OffBits;
    if d != Audio && d != Gpu { FullScriptWritesOwn(d, on, i); }
  }

  /** Writes outside a domain's bits leave it exactly as it was. */
  lemma {:induction false} OthersKept(c: Bits, ws: seq<Write>, d: Domain, e: Domain)
    requires d != e && forall i :: 0 <= i < |ws| ==> ws[i].bits <= Own(d)
    ensures Final(c, ws) * Own(e) == c * Own(e)
    decreases |ws|
  {
    if ws != [] {
      OwnApart(d, e);
      hide Own;
      var c1 := Apply(c, ws[0]);
      assert ws[0].bits <= Own(d);
      assert c1 * Own(e) == c * Own(e);
      OthersKept(c1, ws[1..], d, e);
    }
  }

  /** So its chain, where it holds, goes on holding. */
  lemma {:induction false} OthersAlong(c: Bits, ws: seq<Write>, d: Domain, e: Domain)
    requires d != e && Chain(c, e) && forall i :: 0 <= i < |ws| ==> ws[i].bits <= Own(d)
    ensures Along(c, ws, e)
    decreases |ws|
  {
    if ws != [] {
      OwnApart(d, e);
      hide Own, Chain;
      var c1 := Apply(c, ws[0]);
      assert ws[0].bits <= Own(d);
      assert c1 * Own(e) == c * Own(e);
      ChainLocal(c, c1, e);
      OthersAlong(c1, ws[1..], d, e);
    }
  }

  /** In every intermediate state of every run of commands each domain's chain holds. */
  lemma {:induction false} RunAlong(c: Bits, cmds: seq<Command>, e: Domain)
    requires Chain(c, e)
    ensures Along(c, Writes(cmds), e)
    decreases |cmds|
  {
    hide Chain, Script, Along, Own;
    if cmds == [] {
      AlongNothing(c, e);
    } else {
      var d, on := cmds[0].d, cmds[0].on;
      var ws := Script(d, on);
      if d == e {
        ScriptAlong(c, d, on);
      } else {
        forall i | 0 <= i < |ws| ensures ws[i].bits <= Own(d) { ScriptWritesOwn(d, on, i); }
        OthersAlong(c, ws, d, e);
      }
      AlongEnds(c, ws, e);
      RunAlong(Final(c, ws), cmds[1..], e);
      AlongConcat(c, ws, Writes(cmds[1..]), e);
    }
  }

  lemma AlongNothing(c: Bits, e: Domain)
    requires Chain(c, e)
    ensures Along(c, [], e)
  {
  }

  lemma ScriptAlong(c: Bits, d: Domain, on: bool)
    requires Chain(c, d)
    ensures Along(c, Script(d, on), d)
  {
    hide Chain, Along, UpScript, DownScript;
    if on { UpAlong(c, d); } else { DownAlong(c, d); }
  }

  lemma {:induction false} AlongStates(c: Bits, ws: seq<Write>, e: Domain, k: nat)
    requires Along(c, ws, e) && k < |States(c, ws)|
    ensures Chain(States(c, ws)[k], e)
    decreases |ws|
  {
    hide Chain;
    assert ws != [];
    if k > 0 { AlongStates(Apply(c, ws[0]), ws[1..], e, k - 1); }
  }

  lemma EveryState(c: Bits, cmds: seq<Command>, k: nat, e: Domain)
    requires Chain(c, e) && k < |States(c, Writes(cmds))|
    ensures Chain(States(c, Writes(cmds))[k], e)
  {
    hide Chain, Along;
    RunAlong(c, cmds, e);
    AlongStates(c, Writes(cmds), e, k);
  }

  /** And from any state at all, a command leaves all other domains' bits as they were. */
  lemma CommandIsLocal(c: Bits, d: Domain, on: bool, e: Domain)
    requires d != e
    ensures Final(c, Script(d, on)) * Own(e) == c * Own(e)
  {
    hide Script, Own;
    var ws := Script(d, on);
    forall i | 0 <= i < |ws| ensures ws[i].bits <= Own(d) { ScriptWritesOwn(d, on, i); }
    OthersKept(c, ws, d, e);
  }

  // ---- the audio resets ----

  /** One of the five resets that the audio power-down does not assert is released. */
  predicate LowReleased(c: Bits) { exists b :: 0 <= b < 5 && (ResetReg(0), b) in c }

  /** Audio power-down leaves a reset released exactly when one of those five was. */
  lemma AudioDownReleasedIff(c: Bits)
    ensures Released(Final(c, DownScript(Audio)), Audio) <==> LowReleased(c)
    ensures LowReleased(Final(c, DownScript(Audio))) <==> LowReleased(c)
  {
    ScriptsLeadThere(c, Audio);
    var f := Final(c, DownScript(Audio));
    LowIsReset(c);
    LowIsReset(f);
  }

  lemma LowIsReset(c: Bits)
    ensures LowReleased(c) <==> ResetBits(Audio) * c - {(ResetReg(0), 5)} != {}
  {
    var r := ResetBits(Audio) * c - {(ResetReg(0), 5)};
    if b :| 0 <= b < 5 && (ResetReg(0), b) in c { assert (ResetReg(0), b) in r; }
    if x :| x in r { assert x.0 == ResetReg(0) && 0 <= x.1 < 5; }
  }

  /** The link of the chain that is not claimed for audio: released implies clocked. */
  predicate AudioLink(c: Bits) { Released(c, Audio) ==> FullyClocked(c, Audio) }

  /** It holds now and after each of the writes. */
  predicate LinkAlong(c: Bits, ws: seq<Write>)
    decreases |ws|
  {
    AudioLink(c) && (ws != [] ==> LinkAlong(Apply(c, ws[0]), ws[1..]))
  }

  lemma {:induction false} LinkConcat(c: Bits, ws: seq<Write>, us: seq<Write>)
    ensures LinkAlong(c, ws + us) <==> LinkAlong(c, ws) && LinkAlong(Final(c, ws), us)
    decreases |ws|
  {
    hide AudioLink;
    if ws == [] {
      assert ws + us == us;
    } else {
      assert (ws + us)[0] == ws[0] && (ws + us)[1..] == ws[1..] + us;
      LinkConcat(Apply(c, ws[0]), ws[1..], us);
    }
  }

  /** No write of `ws` touches the given bits. */
  predicate Spares(ws: seq<Write>, bits: Bits) {
    forall i :: 0 <= i < |ws| ==> ws[i].bits !! bits
  }

  /** With all audio resets asserted nothing else matters, and with the clock on neither. */
  lemma {:induction false} QuietAlong(c: Bits, ws: seq<Write>)
    requires !Released(c, Audio) && Spares(ws, ResetBits(Audio))
    ensures LinkAlong(c, ws)
    decreases |ws|
  {
    hide ResetBits, ClockBits;
    if ws != [] {
      assert ws[0].bits !! ResetBits(Audio);
      QuietAlong(Apply(c, ws[0]), ws[1..]);
    }
  }

  lemma {:induction false} ClockedAlong(c: Bits, ws: seq<Write>)
    requires FullyClocked(c, Audio) && Spares(ws, ClockBits(Audio))
    ensures LinkAlong(c, ws)
    decreases |ws|
  {
    hide ResetBits, ClockBits;
    if ws != [] {
      assert ws[0].bits !! ClockBits(Audio);
      ClockedAlong(Apply(c, ws[0]), ws[1..]);
    }
  }

  lemma AudioUpLink(c: Bits)
    requires AudioLink(c)
    ensures LinkAlong(c, UpScript(Audio)) && LowReleased(Final(c, UpScript(Audio)))
  {
    ScriptsLeadThere(c, Audio);
    assert (ResetReg(0), 3) in ResetBits(Audio);
    AudioScripts();
    hide ResetBits, ClockBits, OffBits, Subsystem, UpScript, DownScript, LowReleased;
    PartsApart(Audio);
    var first := ClearBits(ResetBits(Audio));
    var c1 := Apply(c, first);
    Unroll1(c, first);
    FinalConcat(c, [first], Middle(Audio));
    Unroll3(c1, Middle(Audio), Audio);
    QuietAlong(c1, []);
    assert [first][1..] == [];
    QuietAlong(c1, Middle(Audio));
    ClockedAlong(Final(c1, Middle(Audio)), AudioReleases());
    LinkConcat(c, [first], Middle(Audio));
    LinkConcat(c, [first] + Middle(Audio), AudioReleases());
  }

  lemma AudioDownLinkIff(c: Bits)
    requires AudioLink(c)
    ensures LinkAlong(c, DownScript(Audio)) <==> !LowReleased(c)
  {
    LowIsReset(c);
    AudioScripts();
    hide ResetBits, ClockBits, OffBits, Subsystem, UpScript, DownScript, LowReleased;
    PartsApart(Audio);
    var ws := DownScript(Audio);
    var c1 := Apply(c, ws[0]);
    assert ws[0] == ClearBits({(ResetReg(0), 5)}) && ws[1..] == Tail(Audio);
    assert ResetBits(Audio) * c1 == ResetBits(Audio) * c - {(ResetReg(0), 5)};
    if LowReleased(c) {
      var c2 := c1 - ClockBits(Audio);
      assert ResetBits(Audio) * c2 == ResetBits(Audio) * c1;
      assert !AudioLink(c2);
      assert ws[1..][0] == ClearBits(ClockBits(Audio)) && !LinkAlong(c2, ws[1..][1..]);
      assert !LinkAlong(c1, ws[1..]);
    } else {
      QuietAlong(c1, Tail(Audio));
    }
  }

  lemma {:induction false} OthersLink(c: Bits, ws: seq<Write>, d: Domain)
    requires d != Audio && AudioLink(c) && forall i :: 0 <= i < |ws| ==> ws[i].bits <= Own(d)
    ensures LinkAlong(c, ws) && (LowReleased(Final(c, ws)) <==> LowReleased(c))
    decreases |ws|
  {
    if ws != [] {
      OwnApart(d, Audio);
      var c1 := Apply(c, ws[0]);
      LowIsReset(c);
      LowIsReset(c1);
      hide ResetBits, ClockBits, IsoBits, OffBits, LowReleased;
      assert ws[0].bits <= Own(d);
      assert ResetBits(Audio) * c1 == ResetBits(Audio) * c && ClockBits(Audio) * c1 == ClockBits(Audio) * c;
      assert FullyClocked(c, Audio) ==> FullyClocked(c1, Audio);
      OthersLink(c1, ws[1..], d);
    }
  }

  /** A power-down of audio that comes after a power-up, or at all when `low`. */
  predicate LateOff(low: bool, cmds: seq<Command>) {
    exists i :: 0 <= i < |cmds| && cmds[i] == Command(Audio, false) && (low || Command(Audio, true) in cmds[..i])
  }

  lemma LateOffStep(low: bool, cmds: seq<Command>)
    requires cmds != []
    ensures LateOff(low, cmds) <==>
      (low && cmds[0] == Command(Audio, false)) || LateOff(low || cmds[0] == Command(Audio, true), cmds[1..])
  {
    var t, low' := cmds[1..], low || cmds[0] == Command(Audio, true);
    if i :| 0 <= i < |cmds| && cmds[i] == Command(Audio, false) && (low || Command(Audio, true) in cmds[..i]) {
      if i > 0 {
        assert cmds[..i] == [cmds[0]] + t[..i - 1];
        assert t[i - 1] == Command(Audio, false) && (low' || Command(Audio, true) in t[..i - 1]);
      }
    }
    if i :| 0 <= i < |t| && t[i] == Command(Audio, false) && (low' || Command(Audio, true) in t[..i]) {
      assert cmds[..i + 1] == [cmds[0]] + t[..i];
      assert cmds[i + 1] == Command(Audio, false) && (low || Command(Audio, true) in cmds[..i + 1]);
    }
  }

  lemma {:induction false} LinkEnds(c: Bits, ws: seq<Write>)
    requires LinkAlong(c, ws)
    ensures AudioLink(Final(c, ws))
    decreases |ws|
  {
    hide AudioLink;
    if ws != [] { LinkEnds(Apply(c, ws[0]), ws[1..]); }
  }

  /** One command: when it keeps the link, and what it makes of the five resets. */
  lemma CommandLink(c: Bits, cmd: Command)
    requires AudioLink(c)
    ensures LinkAlong(c, Script(cmd.d, cmd.on)) <==> !(LowReleased(c) && cmd == Command(Audio, false))
    ensures LowReleased(Final(c, Script(cmd.d, cmd.on))) <==> LowReleased(c) || cmd == Command(Audio, true)
  {
    hide UpScript, DownScript, AudioLink, LowReleased, LinkAlong, Own;
    if cmd.d != Audio {
      var ws := Script(cmd.d, cmd.on);
      forall i | 0 <= i < |ws| ensures ws[i].bits <= Own(cmd.d) { ScriptWritesOwn(cmd.d, cmd.on, i); }
      OthersLink(c, ws, cmd.d);
    } else if cmd.on {
      AudioUpLink(c);
    } else {
      AudioDownLinkIff(c);
      AudioDownReleasedIff(c);
    }
  }

  lemma {:induction false} AudioLinkAlongIff(c: Bits, cmds: seq<Command>)
    requires AudioLink(c)
    ensures LinkAlong(c, Writes(cmds)) <==> !LateOff(LowReleased(c), cmds)
    decreases |cmds|
  {
    hide AudioLink, LowReleased, LateOff, Script;
    if cmds == [] {
      NoCommands(c);
    } else {
      hide LinkAlong;
      var ws := Script(cmds[0].d, cmds[0].on);
      CommandLink(c, cmds[0]);
      LateOffStep(LowReleased(c), cmds);
      LinkConcat(c, ws, Writes(cmds[1..]));
      if LinkAlong(c, ws) {
        LinkEnds(c, ws);
        AudioLinkAlongIff(Final(c, ws), cmds[1..]);
      }
    }
  }

  lemma NoCommands(c: Bits)
    ensures !LateOff(LowReleased(c), [])
  {
  }

  ghost predicate AllLinked(states: seq<Bits>) {
    forall k :: 0 <= k < |states| ==> AudioLink(states[k])
  }

  lemma AllLinkedCons(c: Bits, states: seq<Bits>)
    ensures AllLinked([c] + states) <==> AudioLink(c) && AllLinked(states)
  {
    hide AudioLink;
    var all := [c] + states;
    assert all[0] == c && forall k :: 0 <= k < |states| ==> all[k + 1] == states[k];
  }

  lemma {:induction false} LinkStates(c: Bits, ws: seq<Write>)
    requires AudioLink(c)
    ensures LinkAlong(c, ws) <==> AllLinked(States(c, ws))
    decreases |ws|
  {
    hide AudioLink;
    if ws != [] {
      var c1 := Apply(c, ws[0]);
      AllLinkedCons(c1, States(c1, ws[1..]));
      assert LinkAlong(c1, ws[1..]) ==> AudioLink(c1);
      if AudioLink(c1) { LinkStates(c1, ws[1..]); }
    }
  }

  /** In every state of a run of commands a released audio reset implies the audio clock, exactly when
      the run has no audio power-down after an audio power-up, and none at all if one of the five
      resets was released to begin with. */
  lemma AudioLinkIff(c: Bits, cmds: seq<Command>)
    requires AudioLink(c)
    ensures AllLinked(States(c, Writes(cmds))) <==> !LateOff(LowReleased(c), cmds)
  {
    hide AudioLink, LowReleased, LateOff, States, Writes;
    AudioLinkAlongIff(c, cmds);
    LinkStates(c, Writes(cmds));
  }

  /** The input: up and down again, from any state, leaves resets released with the clock stopped. */
  lemma AudioKeepsResetsReleased(c: Bits)
    ensures var f := Final(Final(c, UpScript(Audio)), DownScript(Audio));
      Released(f, Audio) && !Clocked(f, Audio) && Isolated(f, Audio)
  {
    var u := Final(c, UpScript(Audio));
    ScriptsLeadThere(c, Audio);
    assert (ResetReg(0), 3) in ResetBits(Audio);
    assert LowReleased(u);
    hide LowReleased, ResetBits, UpScript, DownScript;
    ScriptsLeadThere(u, Audio);
    AudioDownReleasedIff(u);
  }

  /** The numbers of the domains in `chip_power_pd_ctrl` and of the cores in `chip_cpu_power_ctrl`, and
      the bits that go with them in the isolation and switch registers. */
  lemma DomainNumbers()
    ensures OfSubsystem(0) == Audio && OfSubsystem(1) == Vdec && OfSubsystem(2) == Npu && OfSubsystem(3) == Venc
    ensures OfSubsystem(4) == Gpu && OfSubsystem(5) == Dsp0 && OfSubsystem(6) == Dsp1
    ensures OfSubsystem(7) == Core0 && OfSubsystem(8) == Core1 && OfSubsystem(9) == Core2 && OfSubsystem(10) == Core3
    ensures forall n: nat :: n <= 10 ==> IsoBits(OfSubsystem(n)) == {(IsoReg, n)}
    ensures forall n: nat :: n <= 10 ==> OffBits(OfSubsystem(n)) == {(OffReg, 2 * n), (OffReg, 2 * n + 1)}
  {
    forall n: nat | n <= 10 ensures Subsystem(OfSubsystem(n)) == n {
    }
  }

  /** The reset and clock bits of each domain: registers of their own, numbered like the domains, but
      for the cores, which share register 7, and the second reset of the NPU in register 11. */
  lemma RegisterMap()
    ensures ResetBits(Audio) == {(ResetReg(0), 0), (ResetReg(0), 1), (ResetReg(0), 2), (ResetReg(0), 3),
                                 (ResetReg(0), 4), (ResetReg(0), 5)}
    ensures ClockBits(Audio) == {(ClockReg(0), 0), (ClockReg(0), 1)}
    ensures ResetBits(Vdec) == {(ResetReg(1), 0)} && ClockBits(Vdec) == {(ClockReg(1), 0)}
    ensures ResetBits(Npu) == {(ResetReg(2), 0), (ResetReg(11), 0)} && ClockBits(Npu) == {(ClockReg(2), 4)}
    ensures ResetBits(Venc) == {(ResetReg(3), 0)} && ClockBits(Venc) == {(ClockReg(3), 0)}
    ensures ResetBits(Dsp0) == {(ResetReg(5), 0)} && ClockBits(Dsp0) == {(ClockReg(5), 0)}
    ensures ResetBits(Dsp1) == {(ResetReg(6), 0)} && ClockBits(Dsp1) == {(ClockReg(6), 0)}
    ensures ResetBits(Core0) == {(ResetReg(7), 1)} && ClockBits(Core0) == {(ClockReg(7), 5)}
    ensures ResetBits(Core1) == {(ResetReg(7), 2)} && ClockBits(Core1) == {(ClockReg(7), 13)}
    ensures ResetBits(Core2) == {(ResetReg(7), 3)} && ClockBits(Core2) == {(ClockReg(7), 21)}
    ensures ResetBits(Core3) == {(ResetReg(7), 4)} && ClockBits(Core3) == {(ClockReg(7), 29)}
  {
  }

  // ---- the calls ----

  class Chip {
    var bits: Bits
    ghost var history: seq<Bits>  // every state so far, the present one last

    ghost predicate Linked()
      reads this
    {
      history != [] && history[|history| - 1] == bits
    }

    /** Each domain whose chain held at the start has had it in every state since. */
    ghost predicate Valid()
      reads this
    {
      Linked() && forall d :: Chain(history[0], d) ==> AllAlong(history, d)
    }

    constructor (bits: Bits)
      ensures Valid() && this.bits == bits && history == [bits]
    {
      this.bits, history := bits, [bits];
    }

    /** One register write. */
    method Store(w: Write)
      requires Linked()
      modifies this
      ensures Linked() && bits == Apply(old(bits), w) && history == old(history) + [bits]
    {
      bits := match w case SetBits(b) => bits + b case ClearBits(b) => bits - b;
      history := history + [bits];
    }

    /** A *_powerup or *_powerdown function: its writes in order. */
    method Perform(ws: seq<Write>)
      requires Linked()
      modifies this
      ensures Linked() && bits == Final(old(bits), ws)
      ensures history == old(history) + States(old(bits), ws)
      decreases |ws|
    {
      hide Apply;
      if ws != [] {
        ghost var c1 := Apply(bits, ws[0]);
        ghost var past := history;
        Store(ws[0]);
        Perform(ws[1..]);
        assert history == past + ([c1] + States(c1, ws[1..]));
      }
    }

    /** A whole command: every state on the way keeps every chain. */
    method Switch(d: Domain, on: bool)
      requires Valid()
      modifies this
      ensures Valid() && history == old(history) + States(old(bits), Script(d, on))
    {
      hide Chain, Script, States;
      Perform(Script(d, on));
      forall e | Chain(history[0], e) ensures AllAlong(history, e) {
        assert AllAlong(old(history), e);
        SwitchAlong(old(history), d, on, e);
      }
    }

    /** `chip_power_pd_ctrl`: modes 0 (off) and 3 (on), power domains 0 to 6. */
    method PdCtrl(pd: int, mode: int) returns (rc: int)
      requires Valid()
      modifies this
      ensures Valid()
      ensures rc == if (mode == 0 || mode == 3) && 0 <= pd <= 6 then 0 else -1
      ensures history == old(history) +
        if rc == 0 then States(old(bits), Script(OfSubsystem(pd), mode == 3)) else []
    {
      hide Chain, Script, States;
      if (mode != 0 && mode != 3) || pd < 0 || pd > 6 {
        return -1;
      }
      Switch(OfSubsystem(pd), mode == 3);
      return 0;
    }

    /** `chip_cpu_power_ctrl`: an unknown core is ignored. */
    method CpuCtrl(cpu: nat, on: bool)
      requires Valid()
      modifies this
      ensures Valid()
      ensures history == old(history) + if cpu < 4 then States(old(bits), Script(OfSubsystem(7 + cpu), on)) else []
    {
      hide Chain, Script, States;
      if cpu < 4 {
        Switch(OfSubsystem(7 + cpu), on);
      }
    }
  }

  ghost predicate AllAlong(history: seq<Bits>, e: Domain) {
    forall k :: 0 <= k < |history| ==> Chain(history[k], e)
  }

  lemma SwitchAlong(history: seq<Bits>, d: Domain, on: bool, e: Domain)
    requires history != [] && AllAlong(history, e)
    ensures AllAlong(history + States(history[|history| - 1], Script(d, on)), e)
  {
    hide Chain, Script, Along;
    var c, one := history[|history| - 1], [Command(d, on)];
    assert one[1..] == [] && Writes([]) == [];
    assert Writes(one) == Script(d, on);
    RunAlong(c, one, e);
    forall k | 0 <= k < |States(c, Script(d, on))| ensures Chain(States(c, Script(d, on))[k], e) {
      AlongStates(c, Script(d, on), e, k);
    }
  }
}
