/** The trace recorder's event buffer as a language: how an event becomes bytes, and the reader that
    takes the bytes apart again.  Words are four bytes, least significant first. */
module TraceFormat {
  import opened Wrappers
  import opened MachineWords

  const MEM_MALLOC: byte := 0x3b
  const MEM_MALLOC_FAILED: byte := 0x3c
  const MEM_FREE: byte := 0x3d
  const MEM_FREE_FAILED: byte := 0x3e
  const EVT_DIV: byte := 0x3f
  const DTS_MAX := 0xffff

  predicate IsMemory(kind: byte) { MEM_MALLOC <= kind <= MEM_FREE_FAILED }
  predicate Reserved(kind: byte) { MEM_MALLOC <= kind <= EVT_DIV }

  datatype Event =
    | Plain(kind: byte, handle: byte, dts: uint32)
    | Memory(kind: byte, handle: byte, dts: uint32, addr: uint32, size: uint32)

  // ---- writing ----

  function Word(x: uint32): (w: seq<byte>)
    ensures |w| == 4
  {
    [x % 256, x / 256 % 256, x / 65536 % 256, x / 16777216]
  }

  function Header(kind: byte, handle: byte, dts: uint16): (w: seq<byte>)
    ensures |w| == 4
  {
    [kind, handle, dts % 256, dts / 256]
  }

  /** The part of a time delta that goes into the event's own 16-bit field. */
  function RestDts(dts: uint32): (r: uint16)
    ensures r <= dts
  {
    if dts <= DTS_MAX then dts else if dts % 0xffff == 0 then DTS_MAX else dts % 0xffff
  }

  /** A delta too long for that field is announced by a divider and the missing part. */
  function Divider(dts: uint32): seq<byte> {
    if dts <= DTS_MAX then [] else Header(EVT_DIV, 0, 0) + Word(dts - RestDts(dts))
  }

  function Tail(e: Event): seq<byte> {
    match e case Plain(_, _, _) => [] case Memory(_, _, _, addr, size) => Word(addr) + Word(size)
  }

  function Encode(e: Event): seq<byte> {
    Divider(e.dts) + Header(e.kind, e.handle, RestDts(e.dts)) + Tail(e)
  }

  function EncodeAll(log: seq<Event>): seq<byte> {
    if log == [] then [] else EncodeAll(log[..|log| - 1]) + Encode(log[|log| - 1])
  }

  /** `_trace_calculate_event_size`. */
  function EventSize(kind: byte, dts: uint32): nat {
    4 * (1 + (if dts > DTS_MAX then 2 else 0) + if IsMemory(kind) then 2 else 0)
  }

  /** The announced size is the number of bytes appended for every memory event and every other event
      whose type is not a memory type; never is it too small. */
  lemma SizeIsExact(e: Event)
    requires e.Memory? ==> IsMemory(e.kind)
    ensures |Encode(e)| <= EventSize(e.kind, e.dts)
    ensures |Encode(e)| == EventSize(e.kind, e.dts) <==> (e.Plain? ==> !IsMemory(e.kind))
    ensures |Encode(e)| % 4 == 0
  {
  }

  /** Where an event's own header is in its bytes. */
  function HeaderAt(e: Event): nat { if e.dts <= 0xffff then 0 else 8 }

  /** The bytes of an event, least significant first: type, name number and a 16-bit time delta.  A
      longer delta has eight bytes ahead, of type 0x3f, with the rest of it, a multiple of 0xffff; a
      memory event has its address and size behind. */
  ghost predicate BytesOf(e: Event, b: seq<byte>) {
    var n := HeaderAt(e);
    && |b| == n + (if e.Memory? then 12 else 4)
    && b[n] == e.kind && b[n + 1] == e.handle
    && (n == 0 ==> e.dts == (b[2] as int) + 256 * (b[3] as int))
    && (n == 8 ==> b[..4] == [0x3f, 0, 0, 0])
    && (n == 8 ==> DividedDelta(e.dts, ReadWord(b[4..]), (b[10] as int) + 256 * (b[11] as int)))
    && (e.Memory? ==> ReadWord(b[n + 4..]) == e.addr && ReadWord(b[n + 8..]) == e.size)
  }

  predicate DividedDelta(dts: nat, most: nat, rest: nat) {
    dts == most + rest && most % 0xffff == 0 && rest > 0
  }

  lemma EncodeBytes(e: Event)
    ensures BytesOf(e, Encode(e))
  {
    var r := RestDts(e.dts);
    var head, tail := Header(e.kind, e.handle, r), Tail(e);
    RestIs(e.dts);
    TailBytes(e);
    if e.dts > 0xffff {
      var div, w := Header(EVT_DIV, 0, 0), Word(e.dts - r);
      assert Encode(e) == div + w + head + tail;
      hide Word, ReadWord, RestDts, Encode, Tail;
      LongBytes(e, r, div, w, head, tail);
    } else {
      assert Encode(e) == [] + head + tail;
      hide Word, ReadWord, RestDts, Encode, Tail;
      assert [] + head + tail == head + tail;
      assert (head + tail)[4..] == tail;
      if e.Memory? { assert (head + tail)[8..] == tail[4..]; }
    }
  }

  lemma TailBytes(e: Event)
    ensures |Tail(e)| == if e.Memory? then 8 else 0
    ensures e.Memory? ==> ReadWord(Tail(e)) == e.addr && ReadWord(Tail(e)[4..]) == e.size
  {
    hide Word, ReadWord;
    if e.Memory? {
      assert Tail(e)[4..] == Word(e.size) + [];
      WordRoundTrip(e.addr, Word(e.size));
      WordRoundTrip(e.size, []);
    }
  }

  lemma LongBytes(e: Event, r: uint16, div: seq<byte>, w: seq<byte>, head: seq<byte>, tail: seq<byte>)
    requires e.dts > 0xffff && r <= e.dts && DividedDelta(e.dts, e.dts - r, r)
    requires div == Header(EVT_DIV, 0, 0) && w == Word(e.dts - r) && head == Header(e.kind, e.handle, r)
    requires |tail| == (if e.Memory? then 8 else 0)
    requires e.Memory? ==> ReadWord(tail) == e.addr && ReadWord(tail[4..]) == e.size
    ensures BytesOf(e, div + w + head + tail)
  {
    hide Word, ReadWord, DividedDelta;
    var b := div + w + head + tail;
    assert b[..4] == div && b[4..] == w + (head + tail) && b[12..] == tail;
    WordRoundTrip(e.dts - r, head + tail);
    assert b[8..12] == head;
    assert b[8] == head[0] && b[9] == head[1] && b[10] == head[2] && b[11] == head[3];
    if e.Memory? {
      assert b[16..] == tail[4..];
    }
  }

  lemma RestIs(dts: uint32)
    ensures var r := RestDts(dts);
      && (dts <= 0xffff ==> r == dts)
      && (dts > 0xffff ==> 0 < r <= 0xffff && (dts - r) % 0xffff == 0)
  {
    if dts > 0xffff && dts % 0xffff != 0 {
      var q := dts / 0xffff;
      assert dts - dts % 0xffff == 0xffff * q;
    }
  }

  /** A word is read as its four bytes say, least significant first. */
  lemma ReadWordIs(a: byte, b: byte, c: byte, d: byte, t: seq<byte>)
    ensures ReadWord([a, b, c, d] + t) == a + 0x100 * b + 0x1_0000 * c + 0x100_0000 * d
  {
  }

  lemma EncodeWhole(e: Event)
    ensures |Encode(e)| >= 4 && |Encode(e)| % 4 == 0
  {
    hide Word, RestDts;
    assert |Divider(e.dts)| == 0 || |Divider(e.dts)| == 8;
  }

  lemma {:induction false} WholeWords(log: seq<Event>)
    ensures |EncodeAll(log)| % 4 == 0
  {
    hide Encode;
    if log != [] {
      WholeWords(log[..|log| - 1]);
      EncodeWhole(log[|log| - 1]);
    }
  }

  // ---- reading ----

  function ReadWord(w: seq<byte>): uint32
    requires |w| >= 4
  {
    (w[0] as int) + 256 * (w[1] as int) + 65536 * (w[2] as int) + 16777216 * (w[3] as int)
  }

  /** One event whose delta has `more` announced ahead of it, and what follows it. */
  function DecodeBody(more: uint32, h: seq<byte>): (r: Option<(Event, seq<byte>)>)
    ensures r.Some? ==> |r.value.1| < |h|
  {
    if |h| < 4 || h[0] == EVT_DIV then None else
    var dts := more + (h[2] as int) + 256 * (h[3] as int);
    if dts >= TWO_32 then None
    else if !IsMemory(h[0]) then Some((Plain(h[0], h[1], dts), h[4..]))
    else if |h| < 12 then None
    else Some((Memory(h[0], h[1], dts, ReadWord(h[4..]), ReadWord(h[8..])), h[12..]))
  }

  function DecodeOne(bs: seq<byte>): (r: Option<(Event, seq<byte>)>)
    ensures r.Some? ==> |r.value.1| < |bs|
  {
    if |bs| >= 8 && bs[0] == EVT_DIV then DecodeBody(ReadWord(bs[4..]), bs[8..]) else DecodeBody(0, bs)
  }

  function Decode(bs: seq<byte>): Option<seq<Event>>
    decreases |bs|
  {
    if bs == [] then Some([]) else
    match DecodeOne(bs)
    case None => None
    case Some((e, rest)) =>
      match Decode(rest)
      case None => None
      case Some(log) => Some([e] + log)
  }

  /** Events whose type says what they are. */
  predicate Clear(e: Event) {
    if e.Memory? then IsMemory(e.kind) else !Reserved(e.kind)
  }

  lemma WordRoundTrip(x: uint32, t: seq<byte>)
    ensures ReadWord(Word(x) + t) == x
  {
    var a, b, c := x / 256, x / 65536, x / 16777216;
    assert a == 256 * b + a % 256 && b == 256 * c + b % 256;
  }

  lemma DtsRoundTrip(dts: uint32)
    ensures var r := RestDts(dts); r % 256 + 256 * (r / 256) == r && r <= dts && (dts <= DTS_MAX ==> r == dts)
  {
  }

  lemma BodyRoundTrip(e: Event, t: seq<byte>)
    requires Clear(e)
    ensures DecodeBody(e.dts - RestDts(e.dts), Header(e.kind, e.handle, RestDts(e.dts)) + (Tail(e) + t)) == Some((e, t))
  {
    hide Word, ReadWord, RestDts;
    var r := RestDts(e.dts);
    var h := Header(e.kind, e.handle, r) + (Tail(e) + t);
    DtsRoundTrip(e.dts);
    match e
    case Memory(_, _, _, addr, size) =>
      assert h[4..] == Word(addr) + (Word(size) + t) && h[8..] == Word(size) + t && h[12..] == t;
      WordRoundTrip(addr, Word(size) + t);
      WordRoundTrip(size, t);
    case Plain(_, _, _) =>
      assert h[4..] == t;
  }

  lemma DecodeEncode(e: Event, t: seq<byte>)
    requires Clear(e)
    ensures DecodeOne(Encode(e) + t) == Some((e, t))
  {
    var r := RestDts(e.dts);
    var head := Header(e.kind, e.handle, r);
    var h := head + (Tail(e) + t);
    assert h[0] == e.kind;
    DtsRoundTrip(e.dts);
    BodyRoundTrip(e, t);
    hide Word, ReadWord, RestDts, DecodeBody, DecodeOne, Tail, Header;
    if e.dts > DTS_MAX {
      Regroup(Header(EVT_DIV, 0, 0), Word(e.dts - r), head, Tail(e), t);
      DecodeDivided(e.dts - r, h);
    } else {
      assert Divider(e.dts) == [];
      Regroup([], [], head, Tail(e), t);
      DecodeUndivided(h);
    }
  }

  lemma Regroup(a: seq<byte>, b: seq<byte>, c: seq<byte>, d: seq<byte>, t: seq<byte>)
    ensures ((a + b) + c + d) + t == a + (b + (c + (d + t)))
    ensures a == [] && b == [] ==> a + b == [] && a + (b + (c + (d + t))) == c + (d + t)
  {
  }

  lemma DecodeDivided(more: uint32, h: seq<byte>)
    ensures DecodeOne(Header(EVT_DIV, 0, 0) + (Word(more) + h)) == DecodeBody(more, h)
  {
    hide Word, ReadWord, DecodeBody;
    var bs := Header(EVT_DIV, 0, 0) + (Word(more) + h);
    assert bs[4..] == Word(more) + h && bs[8..] == h;
    WordRoundTrip(more, h);
  }

  lemma DecodeUndivided(h: seq<byte>)
    requires h != [] && h[0] != EVT_DIV
    ensures DecodeOne(h) == DecodeBody(0, h)
  {
  }

  lemma {:induction false} EncodeAllCons(log: seq<Event>)
    requires log != []
    ensures EncodeAll(log) == Encode(log[0]) + EncodeAll(log[1..])
  {
    hide Encode;
    var n := |log| - 1;
    if n > 0 {
      EncodeAllCons(log[..n]);
      assert log[..n][1..] == log[1..][..n - 1] && log[1..][n - 1] == log[n];
    } else {
      assert log[..0] == [] && log[1..] == [];
    }
  }

  /** The event buffer is uniquely decodable: the reader recovers every recorded event, with its full
      32-bit time delta, however many dividers were written. */
  lemma {:induction false} DecodeRoundTrip(log: seq<Event>)
    requires forall k :: 0 <= k < |log| ==> Clear(log[k])
    ensures Decode(EncodeAll(log)) == Some(log)
  {
    hide Encode, DecodeOne;
    if log != [] {
      EncodeAllCons(log);
      DecodeEncode(log[0], EncodeAll(log[1..]));
      DecodeRoundTrip(log[1..]);
      assert log == [log[0]] + log[1..];
      EncodeWhole(log[0]);
    }
  }

  // ---- exactly when it is decodable ----

  /** Logs whose plain events use only the given types. */
  predicate Uses(log: seq<Event>, kinds: set<byte>) {
    forall k :: 0 <= k < |log| ==> if log[k].Memory? then IsMemory(log[k].kind) else log[k].kind in kinds
  }

  ghost predicate Ambiguous(a: seq<Event>, b: seq<Event>) {
    a != b && EncodeAll(a) == EncodeAll(b)
  }

  /** Different logs always differ in bytes exactly when no plain event may use a memory type or the
      divider type. */
  lemma DecodableIff(kinds: set<byte>)
    ensures (forall k :: k in kinds ==> !Reserved(k)) <==>
      !exists a: seq<Event>, b: seq<Event> :: Uses(a, kinds) && Uses(b, kinds) && Ambiguous(a, b)
  {
    if k :| k in kinds && Reserved(k) {
      var a, b := Clash(k);
      assert Uses(a, kinds) && Uses(b, kinds) && Ambiguous(a, b);
    } else {
      forall a: seq<Event>, b: seq<Event> | Uses(a, kinds) && Uses(b, kinds) ensures !Ambiguous(a, b) {
        DecodeRoundTrip(a);
        DecodeRoundTrip(b);
      }
    }
  }

  /** Two logs with the same bytes, once type `k` is allowed on plain events. */
  lemma Clash(k: byte) returns (a: seq<Event>, b: seq<Event>)
    requires Reserved(k)
    ensures Uses(a, {k}) && Uses(b, {k}) && Ambiguous(a, b)
  {
    hide Encode, EncodeAll;
    if k == EVT_DIV {
      a := [Plain(k, 0, 0), Plain(k, 0, 65472), Plain(k, 0, 1)];
      b := [Plain(k, 0, 0xffc0_0040)];
      DividerClash();
    } else {
      a := [Plain(k, 0, 0), Plain(k, 0, 0), Plain(k, 0, 0)];
      b := [Memory(k, 0, 0, k, k)];
      MemoryClash(k);
    }
    EncodeThree(a[0], a[1], a[2]);
    EncodeSingle(b[0]);
  }

  lemma ShortPlain(k: byte, d: uint32)
    requires d <= DTS_MAX
    ensures Encode(Plain(k, 0, d)) == Header(k, 0, d)
  {
  }

  lemma DividerClash()
    ensures Encode(Plain(EVT_DIV, 0, 0xffc0_0040)) ==
      Encode(Plain(EVT_DIV, 0, 0)) + Encode(Plain(EVT_DIV, 0, 65472)) + Encode(Plain(EVT_DIV, 0, 1))
  {
    ShortPlain(EVT_DIV, 0);
    ShortPlain(EVT_DIV, 65472);
    ShortPlain(EVT_DIV, 1);
    var dts: uint32 := 0xffc0_0040;
    assert dts % 0xffff == 1;
    assert RestDts(dts) == 1;
    assert Word(dts - 1) == Header(EVT_DIV, 0, 65472);
  }

  lemma MemoryClash(k: byte)
    ensures Encode(Memory(k, 0, 0, k, k)) == Encode(Plain(k, 0, 0)) + Encode(Plain(k, 0, 0)) + Encode(Plain(k, 0, 0))
  {
    ShortPlain(k, 0);
    assert Word(k) == Header(k, 0, 0);
  }

  lemma EncodeSingle(e: Event)
    ensures EncodeAll([e]) == Encode(e)
  {
    EncodeAllCons([e]);
  }

  lemma EncodeThree(e: Event, f: Event, g: Event)
    ensures EncodeAll([e, f, g]) == Encode(e) + Encode(f) + Encode(g)
  {
    hide Encode;
    EncodeAllCons([e, f, g]);
    assert [e, f, g][1..] == [f, g];
    EncodeAllCons([f, g]);
    assert [f, g][1..] == [g];
    EncodeSingle(g);
  }

  // ---- whole recordings ----

  /** One offered event: kept whole if it leaves room to spare, else the recorder is told to stop,
      which takes effect only when a stop hook is set. */
  function Offer(log: seq<Event>, running: bool, hook: bool, capacity: nat, e: Event): (seq<Event>, bool) {
    if !running then (log, running)
    else if |EncodeAll(log)| + EventSize(e.kind, e.dts) >= capacity then (log, !hook)
    else (log + [e], running)
  }

  /** Memory events have memory types and plain events have none. */
  predicate OwnKind(e: Event) { e.Memory? <==> 0x3b <= e.kind <= 0x3e }

  /** A running recorder keeps an event exactly when its bytes leave room to spare; else it is told to
      stop. */
  lemma KeptIff(log: seq<Event>, hook: bool, capacity: nat, e: Event)
    requires OwnKind(e)
    ensures Offer(log, true, hook, capacity, e) ==
      if |EncodeAll(log)| + |Encode(e)| < capacity then (log + [e], true) else (log, !hook)
    ensures Offer(log, false, hook, capacity, e) == (log, false)
  {
    hide Encode, EncodeAll, EventSize;
    SizeIsExact(e);
  }

  function OfferAll(log: seq<Event>, running: bool, hook: bool, capacity: nat, es: seq<Event>): (seq<Event>, bool)
    decreases |es|
  {
    if es == [] then (log, running) else
    var (log1, running1) := Offer(log, running, hook, capacity, es[0]);
    OfferAll(log1, running1, hook, capacity, es[1..])
  }

  /** Over every run the used size stays below the capacity and a multiple of the record size. */
  lemma {:induction false} OfferAllFits(log: seq<Event>, running: bool, hook: bool, capacity: nat, es: seq<Event>)
    requires |EncodeAll(log)| < capacity && Legal(es)
    ensures var n := |EncodeAll(OfferAll(log, running, hook, capacity, es).0)|; n < capacity && n % 4 == 0
    decreases |es|
  {
    hide Encode, EventSize;
    if es == [] {
      WholeWords(log);
    } else {
      var e := es[0];
      var (log1, running1) := Offer(log, running, hook, capacity, e);
      SizeIsExact(e);
      assert (log + [e])[..|log|] == log;
      OfferAllFits(log1, running1, hook, capacity, es[1..]);
    }
  }

  /** With a stop hook, what is stored is a prefix of what was offered: nothing is recorded after the
      first event that did not fit. */
  lemma {:induction false} HookStoresPrefix(log: seq<Event>, running: bool, capacity: nat, es: seq<Event>)
    returns (n: nat)
    ensures n <= |es| && OfferAll(log, running, true, capacity, es).0 == log + es[..n]
    decreases |es|
  {
    hide EncodeAll, EventSize;
    n := 0;
    if es != [] {
      var (log1, running1) := Offer(log, running, true, capacity, es[0]);
      n := HookStoresPrefix(log1, running1, capacity, es[1..]);
      if log1 == log + [es[0]] && running1 {
        assert log1 + es[1..][..n] == log + es[..n + 1];
        n := n + 1;
      } else {
        StoppedStaysStopped(log, true, capacity, es[1..]);
        n := 0;
        assert log + es[..0] == log;
      }
    } else {
      assert log + es[..0] == log;
    }
  }

  lemma {:induction false} StoppedStaysStopped(log: seq<Event>, hook: bool, capacity: nat, es: seq<Event>)
    ensures OfferAll(log, false, hook, capacity, es) == (log, false)
    decreases |es|
  {
    if es != [] { StoppedStaysStopped(log, hook, capacity, es[1..]); }
  }

  /** What a fresh recording stores of `es` is a prefix of it. */
  ghost predicate StoresPrefix(hook: bool, capacity: nat, es: seq<Event>) {
    OfferAll([], true, hook, capacity, es).0 <= es
  }

  ghost predicate Legal(es: seq<Event>) {
    forall k :: 0 <= k < |es| ==> es[k].Memory? ==> IsMemory(es[k].kind)
  }

  lemma {:induction false} OfferConcat(
      log: seq<Event>, running: bool, hook: bool, capacity: nat, es: seq<Event>, fs: seq<Event>)
    ensures var (log1, running1) := OfferAll(log, running, hook, capacity, es);
      OfferAll(log, running, hook, capacity, es + fs) == OfferAll(log1, running1, hook, capacity, fs)
    decreases |es|
  {
    hide Offer;
    if es == [] {
      assert es + fs == fs;
    } else {
      assert (es + fs)[0] == es[0] && (es + fs)[1..] == es[1..] + fs;
      var (log1, running1) := Offer(log, running, hook, capacity, es[0]);
      OfferConcat(log1, running1, hook, capacity, es[1..], fs);
    }
  }

  const SHORT := Plain(0, 0, 0)
  const LONG := Memory(MEM_FREE, 0, 0, 0, 0)

  function Shorts(n: nat): seq<Event> { seq(n, _ => SHORT) }

  lemma {:induction false} ShortsSize(n: nat)
    ensures |EncodeAll(Shorts(n))| == 4 * n
  {
    hide Encode;
    if n > 0 {
      ShortsSize(n - 1);
      assert Shorts(n)[..n - 1] == Shorts(n - 1);
      ShortPlain(0, 0);
    }
  }

  lemma OfferOne(log: seq<Event>, running: bool, hook: bool, capacity: nat, e: Event)
    ensures OfferAll(log, running, hook, capacity, [e]) == Offer(log, running, hook, capacity, e)
  {
    assert [e][1..] == [];
  }

  /** A short event after `n` others is kept as long as it leaves room to spare. */
  lemma OfferShort(n: nat, hook: bool, capacity: nat)
    requires 4 * n + 4 < capacity
    ensures OfferAll(Shorts(n), true, hook, capacity, [SHORT]) == (Shorts(n + 1), true)
  {
    OfferOne(Shorts(n), true, hook, capacity, SHORT);
    ShortsSize(n);
    assert Shorts(n) + [SHORT] == Shorts(n + 1);
  }

  lemma {:induction false} ShortsFit(n: nat, hook: bool, capacity: nat)
    requires 4 * n < capacity
    ensures OfferAll([], true, hook, capacity, Shorts(n)) == (Shorts(n), true)
  {
    if n == 0 {
      assert Shorts(0) == [];
    } else {
      hide OfferAll;
      ShortsFit(n - 1, hook, capacity);
      OfferShort(n - 1, hook, capacity);
      OfferConcat([], true, hook, capacity, Shorts(n - 1), [SHORT]);
      assert Shorts(n) == Shorts(n - 1) + [SHORT];
    }
  }

  /** Fill the buffer with short events until a long one no longer fits and one more short one still
      does: the long one is dropped and the short one after it is kept. */
  lemma Gap(capacity: nat) returns (es: seq<Event>)
    requires capacity > 4
    ensures Legal(es) && !StoresPrefix(false, capacity, es)
  {
    var n := (capacity - 5) / 4;
    var fill := Shorts(n);
    es := fill + [LONG] + [SHORT];
    assert Legal(es);
    hide OfferAll;
    ShortsFit(n, false, capacity);
    OfferConcat([], true, false, capacity, fill, [LONG]);
    OfferConcat([], true, false, capacity, fill + [LONG], [SHORT]);
    OfferOne(fill, true, false, capacity, LONG);
    ShortsSize(n);
    OfferShort(n, false, capacity);
    assert Shorts(n + 1)[n] == SHORT && es[n] == LONG;
  }

  lemma {:induction false} TooSmall(hook: bool, running: bool, capacity: nat, es: seq<Event>)
    requires capacity <= 4
    ensures OfferAll([], running, hook, capacity, es).0 == []
    decreases |es|
  {
    if es != [] {
      TooSmall(hook, Offer([], running, hook, capacity, es[0]).1, capacity, es[1..]);
    }
  }

  /** For every capacity: what is stored is always a prefix of what was offered exactly when a stop
      hook is set or the buffer is too small for any event. */
  lemma StoresPrefixIff(hook: bool, capacity: nat)
    ensures (forall es: seq<Event> :: Legal(es) ==> StoresPrefix(hook, capacity, es)) <==> hook || capacity <= 4
  {
    if hook || capacity <= 4 {
      forall es: seq<Event> | Legal(es) ensures StoresPrefix(hook, capacity, es) {
        if hook {
          var n := HookStoresPrefix([], true, capacity, es);
          assert [] + es[..n] == es[..n];
        } else {
          TooSmall(hook, true, capacity, es);
        }
      }
    } else {
      var es := Gap(capacity);
    }
  }
}
