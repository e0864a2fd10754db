/** Whole recordings as values: the event buffer and the name table together, filled by calls and read
    back into what was called. */
module TraceRecording {
  import opened Wrappers
  import opened MachineWords
  import opened TraceFormat
  import opened TraceNames

  /** One call of the recorder; a null name stands for "NULL". */
  datatype Call =
    | CallEvent(kind: byte, name: Option<string>, dts: uint32)
    | CallMemory(kind: byte, text: string, dts: uint32, addr: uint32, size: uint32)

  function NameOf(c: Call): string {
    match c
    case CallEvent(_, name, _) => (match name case Some(n) => n case None => "NULL")
    case CallMemory(_, text, _, _, _) => text
  }

  function EventOf(c: Call, handle: byte): Event {
    match c
    case CallEvent(kind, _, dts) => Plain(kind, handle, dts)
    case CallMemory(kind, _, dts, addr, size) => Memory(kind, handle, dts, addr, size)
  }

  /** The log, the names, whether the recorder runs, and the calls whose events were stored. */
  datatype Recording = Recording(log: seq<Event>, names: seq<string>, running: bool, kept: seq<Call>)

  /** What `trace_start` leaves. */
  const STARTED := Recording([], ["NULL"], true, [])

  /** One call: the name is stored only with its event. */
  function Record(r: Recording, hook: bool, events: nat, symbols: nat, c: Call): Recording {
    var (handle, names1) := Store(r.names, symbols, NameOf(c));
    var (log1, running1) := Offer(r.log, r.running, hook, events, EventOf(c, handle));
    if |log1| == |r.log| then r.(running := running1) else Recording(log1, names1, running1, r.kept + [c])
  }

  function RecordAll(r: Recording, hook: bool, events: nat, symbols: nat, cs: seq<Call>): Recording
    decreases |cs|
  {
    if cs == [] then r else RecordAll(Record(r, hook, events, symbols, cs[0]), hook, events, symbols, cs[1..])
  }

  // ---- which calls are kept ----

  /** The bytes a call takes in the event buffer, whatever number its name gets. */
  function Size(c: Call): nat { |Encode(EventOf(c, 0))| }

  function Sizes(cs: seq<Call>): nat {
    if cs == [] then 0 else Size(cs[0]) + Sizes(cs[1..])
  }

  predicate OwnKinds(cs: seq<Call>) { forall k :: 0 <= k < |cs| ==> OwnKind(EventOf(cs[k], 0)) }

  lemma SizeIs(c: Call, handle: byte)
    ensures |Encode(EventOf(c, handle))| == Size(c)
    ensures OwnKind(EventOf(c, handle)) <==> OwnKind(EventOf(c, 0))
  {
    EncodeBytes(EventOf(c, handle));
    EncodeBytes(EventOf(c, 0));
    hide Encode;
  }

  /** A running recorder keeps a call exactly when its bytes leave room to spare. */
  lemma CallKeptIff(r: Recording, hook: bool, events: nat, symbols: nat, c: Call)
    requires r.running && OwnKind(EventOf(c, 0))
    ensures var r' := Record(r, hook, events, symbols, c);
      if |EncodeAll(r.log)| + Size(c) < events
      then r'.kept == r.kept + [c] && r'.running && |EncodeAll(r'.log)| == |EncodeAll(r.log)| + Size(c)
      else r' == r.(running := !hook)
  {
    hide Store, Encode, EncodeAll, Offer, Size;
    var handle := Store(r.names, symbols, NameOf(c)).0;
    var e := EventOf(c, handle);
    SizeIs(c, handle);
    KeptIff(r.log, hook, events, e);
    EncodeAllGrows(r.log, e);
  }

  lemma EncodeAllGrows(log: seq<Event>, e: Event)
    ensures |EncodeAll(log + [e])| == |EncodeAll(log)| + |Encode(e)|
  {
    assert (log + [e])[..|log|] == log;
    hide Encode;
  }

  /** Over whole runs: calls whose bytes together stay below the capacity are all kept, in order. */
  lemma {:induction false} AllKept(r: Recording, hook: bool, events: nat, symbols: nat, cs: seq<Call>)
    requires r.running && OwnKinds(cs) && |EncodeAll(r.log)| + Sizes(cs) < events
    ensures var r' := RecordAll(r, hook, events, symbols, cs);
      r'.kept == r.kept + cs && r'.running && |EncodeAll(r'.log)| == |EncodeAll(r.log)| + Sizes(cs)
    decreases |cs|
  {
    hide Record, Size, EncodeAll;
    if cs == [] {
      assert r.kept + cs == r.kept;
    } else {
      CallKeptIff(r, hook, events, symbols, cs[0]);
      AllKept(Record(r, hook, events, symbols, cs[0]), hook, events, symbols, cs[1..]);
      assert r.kept + cs == r.kept + [cs[0]] + cs[1..];
    }
  }

  // ---- reading both buffers ----

  function FirstNul(t: string): (n: nat)
    ensures n <= |t| && (n < |t| ==> t[n] == '\0')
  {
    if t == "" || t[0] == '\0' then 0 else 1 + FirstNul(t[1..])
  }

  function ReadNames(t: string): seq<string>
    decreases |t|
  {
    if t == "" then [] else
    var n := FirstNul(t);
    if n == |t| then [t] else [t[..n]] + ReadNames(t[n + 1..])
  }

  /** What a reader of the trace is told of one event. */
  datatype Report = Report(kind: byte, name: string, dts: uint32, memory: Option<(uint32, uint32)>)

  function Describe(e: Event, names: seq<string>): Option<Report> {
    if e.handle >= |names| then None else
    Some(Report(e.kind, names[e.handle], e.dts, if e.Memory? then Some((e.addr, e.size)) else None))
  }

  function DescribeAll(log: seq<Event>, names: seq<string>): Option<seq<Report>> {
    if log == [] then Some([]) else
    match (Describe(log[0], names), DescribeAll(log[1..], names))
    case (Some(x), Some(xs)) => Some([x] + xs)
    case _ => None
  }

  function ReadBack(events: seq<byte>, table: string): Option<seq<Report>> {
    match Decode(events)
    case None => None
    case Some(log) => DescribeAll(log, ReadNames(table))
  }

  // ---- the name table reads back ----

  lemma {:induction false} TableCons(names: seq<string>)
    requires names != []
    ensures Table(names) == names[0] + "\0" + Table(names[1..])
  {
    var n := |names| - 1;
    if n == 0 {
      assert names[..0] == [] && names[1..] == [];
    } else {
      TableCons(names[..n]);
      assert names[..n][1..] == names[1..][..n - 1] && names[1..][n - 1] == names[n];
      var t := Table(names[1..][..n - 1]);
      assert Table(names) == (names[0] + "\0" + t) + names[n] + "\0" == names[0] + "\0" + (t + names[n] + "\0");
    }
  }

  lemma {:induction false} FirstNulAt(s: string, t: string)
    requires CString(s)
    ensures FirstNul(s + "\0" + t) == |s|
  {
    var u := s + "\0" + t;
    if s != "" {
      assert u[1..] == s[1..] + "\0" + t;
      FirstNulAt(s[1..], t);
    }
  }

  lemma {:induction false} NamesReadBack(names: seq<string>)
    requires Proper(names)
    ensures ReadNames(Table(names)) == names
  {
    if names != [] {
      var s, t := names[0], Table(names[1..]);
      TableCons(names);
      FirstNulAt(s, t);
      NamesReadBack(names[1..]);
      ReadFirst(s, t);
      hide ReadNames, Table;
      assert names == [s] + names[1..];
    }
  }

  lemma ReadFirst(s: string, t: string)
    requires FirstNul(s + "\0" + t) == |s|
    ensures ReadNames(s + "\0" + t) == [s] + ReadNames(t)
  {
    var u := s + "\0" + t;
    assert u[..|s|] == s && u[|s| + 1..] == t;
  }

  // ---- what every recording keeps ----

  /** Event `k` is the one its call asked for, and its number stands for the call's name, or for
      "NULL" when the name is not in the table because it did not fit. */
  ghost predicate Told(r: Recording, symbols: nat, k: nat)
    requires k < |r.log| == |r.kept|
  {
    var e, n := r.log[k], NameOf(r.kept[k]);
    && e == EventOf(r.kept[k], e.handle) && e.handle < |r.names|
    && r.names[e.handle] == (if n in r.names then n else "NULL")
    && (n !in r.names ==> !Room(r.names, symbols, n))
  }

  ghost predicate Faithful(r: Recording, symbols: nat) {
    && r.names != [] && r.names[0] == "NULL" && Distinct(r.names)
    && |r.log| == |r.kept|
    && forall k :: 0 <= k < |r.log| ==> Told(r, symbols, k)
  }

  lemma {:induction false} TableGrows(names: seq<string>, more: seq<string>)
    ensures |Table(names)| <= |Table(names + more)|
    decreases |more|
  {
    if more == [] {
      assert names + more == names;
    } else {
      var n := |more| - 1;
      assert (names + more)[..|names| + n] == names + more[..n];
      TableGrows(names, more[..n]);
    }
  }

  /** An event told rightly stays so when a name is added. */
  lemma ToldStays(r: Recording, r': Recording, symbols: nat, k: nat, m: string)
    requires k < |r.log| == |r.kept| && Told(r, symbols, k)
    requires k < |r'.log| == |r'.kept| && r'.log[k] == r.log[k] && r'.kept[k] == r.kept[k]
    requires r'.names == r.names || (r'.names == r.names + [m] && Room(r.names, symbols, m))
    ensures Told(r', symbols, k)
  {
    hide Table;
    if r'.names != r.names { TableGrows(r.names, [m]); }
  }

  lemma NewTold(r: Recording, symbols: nat, c: Call)
    requires 0 < |r.names| <= 255 && r.names[0] == "NULL" && Distinct(r.names) && |r.log| == |r.kept|
    ensures var (handle, names1) := Store(r.names, symbols, NameOf(c));
      var r' := Recording(r.log + [EventOf(c, handle)], names1, true, r.kept + [c]);
      Told(r', symbols, |r.log|) && Distinct(names1) && names1 != [] && names1[0] == "NULL"
  {
    hide Table;
    StoreResolves(r.names, symbols, NameOf(c));
  }

  lemma RecordFaithful(r: Recording, hook: bool, events: nat, symbols: nat, c: Call)
    requires Faithful(r, symbols) && |r.names| <= 255
    ensures Faithful(Record(r, hook, events, symbols, c), symbols)
  {
    var (handle, names1) := Store(r.names, symbols, NameOf(c));
    var r' := Record(r, hook, events, symbols, c);
    NewTold(r, symbols, c);
    StoreAdds(r.names, symbols, NameOf(c));
    hide Store, EncodeAll, EventSize, Distinct, Room;
    forall k | 0 <= k < |r.log| ensures Told(r', symbols, k) {
      assert Told(r, symbols, k);
      ToldStays(r, r', symbols, k, NameOf(c));
    }
  }

  lemma StoreAdds(names: seq<string>, symbols: nat, n: string)
    ensures var names1 := Store(names, symbols, n).1;
      names1 == names || (names1 == names + [n] && Room(names, symbols, n))
  {
  }

  lemma RecordGrows(r: Recording, hook: bool, events: nat, symbols: nat, c: Call)
    ensures |r.names| <= |Record(r, hook, events, symbols, c).names|
  {
    StoreAdds(r.names, symbols, NameOf(c));
    hide Store;
  }

  lemma {:induction false} RecordAllGrows(r: Recording, hook: bool, events: nat, symbols: nat, cs: seq<Call>)
    ensures |r.names| <= |RecordAll(r, hook, events, symbols, cs).names|
    decreases |cs|
  {
    hide Record;
    if cs != [] {
      RecordGrows(r, hook, events, symbols, cs[0]);
      RecordAllGrows(Record(r, hook, events, symbols, cs[0]), hook, events, symbols, cs[1..]);
    }
  }

  lemma {:induction false} RecordAllFaithful(r: Recording, hook: bool, events: nat, symbols: nat, cs: seq<Call>)
    requires Faithful(r, symbols) && |RecordAll(r, hook, events, symbols, cs).names| <= 255
    ensures Faithful(RecordAll(r, hook, events, symbols, cs), symbols)
    decreases |cs|
  {
    hide Record, Faithful;
    if cs != [] {
      RecordAllGrows(r, hook, events, symbols, cs);
      RecordFaithful(r, hook, events, symbols, cs[0]);
      RecordAllFaithful(Record(r, hook, events, symbols, cs[0]), hook, events, symbols, cs[1..]);
    }
  }

  // ---- reading a recording back ----

  /** The report a call should lead to: its own type, delta, address and size, and its own name
      unless the table had no room for it. */
  function Wanted(c: Call, names: seq<string>): Report {
    Report(c.kind, if NameOf(c) in names then NameOf(c) else "NULL", c.dts,
           match c case CallEvent(_, _, _) => None case CallMemory(_, _, _, addr, size) => Some((addr, size)))
  }

  function WantedAll(cs: seq<Call>, names: seq<string>): seq<Report> {
    if cs == [] then [] else [Wanted(cs[0], names)] + WantedAll(cs[1..], names)
  }

  ghost predicate Readable(c: Call) { CString(NameOf(c)) && Clear(EventOf(c, 0)) }

  lemma {:induction false} DescribesWanted(log: seq<Event>, kept: seq<Call>, names: seq<string>, symbols: nat)
    requires |log| == |kept| && forall k :: 0 <= k < |log| ==> Told(Recording(log, names, true, kept), symbols, k)
    ensures DescribeAll(log, names) == Some(WantedAll(kept, names))
    decreases |log|
  {
    if log != [] {
      var r, t := Recording(log, names, true, kept), Recording(log[1..], names, true, kept[1..]);
      assert Told(r, symbols, 0);
      hide Room;
      assert Describe(log[0], names) == Some(Wanted(kept[0], names));
      forall k | 0 <= k < |t.log| ensures Told(t, symbols, k) {
        assert Told(r, symbols, k + 1);
      }
      DescribesWanted(log[1..], kept[1..], names, symbols);
    }
  }

  /** The two buffers of a faithful recording read back as the calls that were kept. */
  lemma FaithfulReadsBack(r: Recording, symbols: nat)
    requires Faithful(r, symbols) && Proper(r.names)
    requires forall k :: 0 <= k < |r.kept| ==> Readable(r.kept[k])
    ensures ReadBack(EncodeAll(r.log), Table(r.names)) == Some(WantedAll(r.kept, r.names))
  {
    forall k | 0 <= k < |r.log| ensures Clear(r.log[k]) && Told(Recording(r.log, r.names, true, r.kept), symbols, k) {
      assert Told(r, symbols, k) && Readable(r.kept[k]);
    }
    hide Room, Decode, ReadNames;
    DecodeRoundTrip(r.log);
    NamesReadBack(r.names);
    DescribesWanted(r.log, r.kept, r.names, symbols);
  }

  lemma {:induction false} RecordAllReadable(r: Recording, hook: bool, events: nat, symbols: nat, cs: seq<Call>)
    requires Proper(r.names) && (forall k :: 0 <= k < |r.kept| ==> Readable(r.kept[k]))
    requires forall k :: 0 <= k < |cs| ==> Readable(cs[k])
    ensures var r' := RecordAll(r, hook, events, symbols, cs);
      Proper(r'.names) && forall k :: 0 <= k < |r'.kept| ==> Readable(r'.kept[k])
    decreases |cs|
  {
    hide Offer, Readable, Store;
    if cs != [] {
      var c := cs[0];
      assert Readable(c) && CString(NameOf(c)) by { ReadableName(c); }
      StoreAdds(r.names, symbols, NameOf(c));
      RecordAllReadable(Record(r, hook, events, symbols, c), hook, events, symbols, cs[1..]);
    }
  }

  lemma ReadableName(c: Call)
    requires Readable(c)
    ensures CString(NameOf(c))
  {
  }

  /** From a start, over every run of calls with unreserved types that leaves at most 255 names: the
      bytes of the two buffers give back every kept call, in order, with its type, its full time
      delta, its address and size, and its name. */
  lemma RecordingReadsBack(hook: bool, events: nat, symbols: nat, cs: seq<Call>)
    requires forall k :: 0 <= k < |cs| ==> Readable(cs[k])
    requires |RecordAll(STARTED, hook, events, symbols, cs).names| <= 255
    ensures var r := RecordAll(STARTED, hook, events, symbols, cs);
      ReadBack(EncodeAll(r.log), Table(r.names)) == Some(WantedAll(r.kept, r.names))
  {
    assert CString("NULL");
    RecordAllFaithful(STARTED, hook, events, symbols, cs);
    RecordAllReadable(STARTED, hook, events, symbols, cs);
    FaithfulReadsBack(RecordAll(STARTED, hook, events, symbols, cs), symbols);
  }

  /** With a stop hook a running recorder keeps as long a prefix of the calls as stays below the
      capacity, and nothing after it. */
  lemma {:induction false} HookKeepsLongest(r: Recording, events: nat, symbols: nat, cs: seq<Call>) returns (n: nat)
    requires r.running && OwnKinds(cs) && |EncodeAll(r.log)| < events
    ensures n <= |cs| && RecordAll(r, true, events, symbols, cs).kept == r.kept + cs[..n]
    ensures |EncodeAll(r.log)| + Sizes(cs[..n]) < events
    ensures n < |cs| ==> |EncodeAll(r.log)| + Sizes(cs[..n]) + Size(cs[n]) >= events
    decreases |cs|
  {
    hide Record, Size, EncodeAll;
    n := 0;
    assert cs[..0] == [] && r.kept + [] == r.kept;
    if cs != [] {
      var r1 := Record(r, true, events, symbols, cs[0]);
      CallKeptIff(r, true, events, symbols, cs[0]);
      if r1.running {
        n := HookKeepsLongest(r1, events, symbols, cs[1..]);
        var p := cs[..n + 1];
        assert p[0] == cs[0] && p[1..] == cs[1..][..n];
        assert r.kept + p == r.kept + [cs[0]] + p[1..];
        n := n + 1;
      } else {
        StoppedKeepsNothing(r1, events, symbols, cs[1..]);
      }
    }
  }

  /** With a stop hook the calls kept are a prefix of the calls made. */
  lemma {:induction false} HookKeepsPrefix(r: Recording, events: nat, symbols: nat, cs: seq<Call>) returns (n: nat)
    ensures n <= |cs| && RecordAll(r, true, events, symbols, cs).kept == r.kept + cs[..n]
    decreases |cs|
  {
    hide Store, EncodeAll, EventSize;
    n := 0;
    if cs != [] {
      var r1 := Record(r, true, events, symbols, cs[0]);
      n := HookKeepsPrefix(r1, events, symbols, cs[1..]);
      if |r1.log| > |r.log| {
        assert r.kept + [cs[0]] + cs[1..][..n] == r.kept + cs[..n + 1];
        n := n + 1;
      } else {
        StoppedKeepsNothing(r1, events, symbols, cs[1..]);
        n := 0;
      }
    }
    assert r.kept + cs[..0] == r.kept;
  }

  lemma {:induction false} StoppedKeepsNothing(r: Recording, events: nat, symbols: nat, cs: seq<Call>)
    requires !r.running
    ensures RecordAll(r, true, events, symbols, cs) == r
    decreases |cs|
  {
    hide Store, EncodeAll, EventSize;
    if cs != [] { StoppedKeepsNothing(r, events, symbols, cs[1..]); }
  }
}
