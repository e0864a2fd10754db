/** trcUser.c as a program: the global recorder, its two buffers and the calls that fill them.
    Time deltas are passed in, as `_trace_get_dts` would return them; each call is one step. */
module TraceRecorder {
  import opened Wrappers
  import opened MachineWords
  import opened TraceFormat
  import opened TraceNames
  import opened TraceRecording

  class Recorder {
    const eventData: array<byte>
    const nameData: array<char>
    var eventUsed: nat
    var nameUsed: nat
    var nameCount: nat
    var started: bool
    var ready: bool
    var hook: bool         // a stop hook is set
    ghost var log: seq<Event>
    ghost var names: seq<string>
    ghost var kept: seq<Call>  // the calls whose events are in the log

    ghost function Snapshot(): Recording
      reads this
    {
      Recording(log, names, started, kept)
    }

    /** The event buffer is the encoding of the log, and never quite full. */
    ghost predicate EventsOk()
      reads this, eventData
    {
      eventUsed < eventData.Length && eventData[..eventUsed] == EncodeAll(log)
    }

    /** The name buffer is the table of the names. */
    ghost predicate NamesOk()
      reads this, nameData
    {
      && 5 <= nameData.Length < TWO_16
      && nameUsed <= nameData.Length && nameData[..nameUsed] == Table(names)
      && nameCount == |names| && Proper(names)
    }

    /** Besides, a running recorder has "NULL" as name 0, and up to 255 names its events tell the calls
        that were kept. */
    ghost predicate Valid()
      reads this, eventData, nameData
    {
      && EventsOk() && NamesOk()
      && (started ==> names != [] && names[0] == "NULL")
      && (names != [] && |names| <= 255 ==> Faithful(Snapshot(), nameData.Length))
    }

    constructor (events: nat, symbols: nat)
      requires events > 0 && 5 <= symbols < TWO_16
      ensures Valid() && Snapshot() == Recording([], [], false, [])
    {
      eventData := new byte[4 * events];
      nameData := new char[symbols];
      eventUsed, nameUsed, nameCount := 0, 0, 0;
      started, ready, hook := false, false, false;
      log, names, kept := [], [], [];
    }

    // ---- names ----

    /** `strcmp(s, nameData + pos) == 0`, where the string there is `t`. */
    method SameString(s: string, pos: nat, ghost t: string) returns (eq: bool)
      requires CString(s) && CString(t)
      requires pos + |t| < nameData.Length && nameData[pos..pos + |t|] == t && nameData[pos + |t|] == '\0'
      ensures eq <==> s == t
    {
      var k := 0;
      while k < |s| && nameData[pos + k] == s[k]
        invariant k <= |s| && k <= |t| && s[..k] == t[..k]
      {
        assert nameData[pos + k] != '\0';
        assert k < |t|;
        assert t[k] == nameData[pos..pos + |t|][k];
        k := k + 1;
      }
      assert k < |t| ==> t[k] == nameData[pos..pos + |t|][k];
      eq := k == |s| && nameData[pos + k] == '\0';
    }

    /** The inner loop of the search: on to the byte after the next NUL. */
    method SkipString(pos: nat, ghost t: string) returns (next: nat)
      requires CString(t)
      requires pos + |t| < nameData.Length && nameData[pos..pos + |t|] == t && nameData[pos + |t|] == '\0'
      ensures next == pos + |t| + 1
    {
      assert forall k :: 0 <= k < |t| ==> t[k] == nameData[pos..pos + |t|][k] == nameData[pos + k] && t[k] in t;
      next := pos;
      while nameData[next] != '\0'
        invariant pos <= next <= pos + |t|
        decreases pos + |t| - next
      {
        next := next + 1;
      }
      next := next + 1;
    }

    /** `_trace_find_name`. */
    method FindName(name: string) returns (index: byte)
      requires NamesOk() && CString(name)
      ensures index == Find(names, name)
    {
      hide Table;
      var pos, i := 0, 0;
      assert |Table(names[..0])| == 0 by { EmptyTable(names); }
      while i < nameCount
        invariant i <= nameCount && pos == |Table(names[..i])| && i <= IndexOf(names, name)
      {
        TableAt(names, i);
        ghost var t := names[i];
        ghost var table := nameData[..nameUsed];
        assert table[pos..pos + |t|] == t && table[pos + |t|] == '\0';
        assert nameData[pos..pos + |t|] == t by {
          forall k | 0 <= k < |t| ensures nameData[pos + k] == t[k] {
            assert nameData[pos + k] == table[pos + k] == table[pos..pos + |t|][k];
          }
        }
        var eq := SameString(name, pos, t);
        if eq {
          return i % 256;
        }
        pos := SkipString(pos, t);
        i := i + 1;
      }
      return NOT_FOUND;
    }

    /** The `strcpy` at the end of the table. */
    method AppendName(n: string)
      requires NamesOk() && CString(n) && Room(names, nameData.Length, n)
      modifies this`nameUsed, this`nameCount, this`names, nameData
      ensures NamesOk() && names == old(names) + [n]
    {
      ghost var was := nameData[..nameUsed];
      forall k | 0 <= k < |n| {
        nameData[nameUsed + k] := n[k];
      }
      nameData[nameUsed + |n|] := '\0';
      assert nameData[..nameUsed + |n| + 1] == was + n + "\0";
      TableSnoc(names, n);
      nameUsed, nameCount, names := nameUsed + |n| + 1, nameCount + 1, names + [n];
    }

    /** `_trace_store_name`; a null name stands for "NULL". */
    method StoreName(name: Option<string>) returns (index: byte)
      requires NamesOk() && (name.Some? ==> CString(name.value))
      modifies this`nameUsed, this`nameCount, this`names, nameData
      ensures NamesOk()
      ensures (index, names) == Store(old(names), nameData.Length, Shown(name))
    {
      hide Table;
      var n := Shown(name);
      index := FindName(n);
      if index != NOT_FOUND {
        return;
      }
      if nameUsed + |n| + 1 > nameData.Length {
        index := FindName("NULL");
        return;
      }
      AppendName(n);
      return (nameCount - 1) % 256;
    }

    // ---- control ----

    /** The first name of an empty table. */
    method StoreNull()
      requires NamesOk() && names == []
      modifies this`nameUsed, this`nameCount, this`names, nameData
      ensures NamesOk() && names == ["NULL"]
    {
      hide Store, Table, NamesOk;
      NamesRoom();
      StoreFirst(nameData.Length);
      var _ := StoreName(Some("NULL"));
    }

    lemma NamesRoom()
      requires NamesOk()
      ensures nameData.Length >= 5
    {
    }

    /** `trace_clear`. */
    method Clear()
      requires Valid()
      modifies this`eventUsed, this`log, this`nameUsed, this`nameCount, this`names, this`ready, this`kept, nameData
      ensures Valid() && Snapshot() == STARTED.(running := started) && !ready
    {
      hide Faithful, Table, EncodeAll;
      eventUsed, nameUsed, nameCount, ready := 0, 0, 0, false;
      log, names, kept := [], [], [];
      NothingYet();
      StartedFaithful(started, nameData.Length);
      StoreNull();
    }

    /** `trace_start`: a running recorder is left as it is. */
    method Start()
      requires Valid()
      modifies this`started, this`eventUsed, this`log, this`nameUsed, this`nameCount, this`names, this`ready, this`kept
      modifies nameData
      ensures Valid() && started
      ensures old(started) ==> Snapshot() == old(Snapshot()) && ready == old(ready)
      ensures !old(started) ==> Snapshot() == STARTED && !ready
    {
      if started {
        return;
      }
      Clear();
      started := true;
    }

    /** `trace_stop`: without a stop hook the recorder is marked ready but goes on running. */
    method Stop()
      modifies this`ready, this`started
      ensures ready && started == (old(started) && !hook)
    {
      ready := true;
      if hook && started {
        started := false;
      }
    }

    // ---- events ----

    /** `_trace_add_event`: its own check for a full buffer is passed over whenever there is room. */
    method AddWord(w: seq<byte>)
      requires |w| == 4 && eventUsed + 4 <= eventData.Length
      modifies this`eventUsed, eventData
      ensures eventUsed == old(eventUsed) + 4
      ensures eventData[..eventUsed] == old(eventData[..eventUsed]) + w
    {
      if eventUsed >= eventData.Length {
        return;
      }
      ghost var was := eventData[..eventUsed];
      forall k | 0 <= k < 4 {
        eventData[eventUsed + k] := w[k];
      }
      eventUsed := eventUsed + 4;
      assert eventData[..eventUsed] == was + w;
    }

    /** `_trace_store_rest_dts`. */
    method StoreRestDts(dts: uint32) returns (rest: uint16)
      requires eventUsed + |Divider(dts)| <= eventData.Length
      modifies this`eventUsed, eventData
      ensures rest == RestDts(dts) && eventUsed == old(eventUsed) + |Divider(dts)|
      ensures eventData[..eventUsed] == old(eventData[..eventUsed]) + Divider(dts)
    {
      hide Word;
      if dts <= DTS_MAX {
        return dts;
      }
      ghost var was := eventData[..eventUsed];
      rest := dts % 0xffff;
      if rest == 0 {
        rest := DTS_MAX;
      }
      AddWord(Header(EVT_DIV, 0, 0));
      AddWord(Word(dts - rest));
      assert eventData[..eventUsed] == was + Divider(dts);
    }

    /** The part shared by all events: divider, name, header. */
    method AddEvent(kind: byte, name: Option<string>, dts: uint32) returns (handle: byte)
      requires NamesOk() && (name.Some? ==> CString(name.value))
      requires eventUsed + |Divider(dts)| + 4 <= eventData.Length
      modifies this`eventUsed, eventData, this`nameUsed, this`nameCount, this`names, nameData
      ensures NamesOk() && (handle, names) == Store(old(names), nameData.Length, Shown(name))
      ensures eventUsed == old(eventUsed) + |Encode(Plain(kind, handle, dts))|
      ensures eventData[..eventUsed] == old(eventData[..eventUsed]) + Encode(Plain(kind, handle, dts))
    {
      hide Store, Divider, RestDts;
      ghost var was := eventData[..eventUsed];
      var rest := StoreRestDts(dts);
      handle := StoreName(name);
      AddWord(Header(kind, handle, rest));
      assert eventData[..eventUsed] == was + Encode(Plain(kind, handle, dts));
    }

    /** The same for memory events: address and size follow the header. */
    method AddMemoryEvent(kind: byte, name: string, addr: uint32, bytes: uint32, dts: uint32) returns (handle: byte)
      requires NamesOk() && CString(name) && eventUsed + |Divider(dts)| + 12 <= eventData.Length
      modifies this`eventUsed, eventData, this`nameUsed, this`nameCount, this`names, nameData
      ensures NamesOk() && (handle, names) == Store(old(names), nameData.Length, name)
      ensures eventUsed == old(eventUsed) + |Encode(Memory(kind, handle, dts, addr, bytes))|
      ensures eventData[..eventUsed] == old(eventData[..eventUsed]) + Encode(Memory(kind, handle, dts, addr, bytes))
    {
      hide Store, Encode, Word, Divider;
      ghost var was := eventData[..eventUsed];
      handle := AddEvent(kind, Some(name), dts);
      ghost var e := Memory(kind, handle, dts, addr, bytes);
      MemoryTail(e);
      PlainSize(kind, handle, dts);
      AddWord(Word(addr));
      AddWord(Word(bytes));
      assert eventData[..eventUsed] == was + Encode(e);
    }

    /** `trace_recorder_event`: the event is stored whole, or not at all. */
    method RecordEvent(kind: byte, name: Option<string>, dts: uint32)
      requires Valid() && (name.Some? ==> CString(name.value))
      modifies this, eventData, nameData
      ensures Valid() && hook == old(hook)
      ensures ready == (old(ready) || (old(started) && |log| == |old(log)|))
      ensures Snapshot() ==
        Record(old(Snapshot()), hook, eventData.Length, nameData.Length, CallEvent(kind, name, dts))
    {
      hide Store, Encode, EncodeAll, Faithful, Divider, EventSize;
      ghost var c := CallEvent(kind, name, dts);
      if !started {
        return;
      }
      RecordKeepsValid(Snapshot(), hook, eventData.Length, nameData.Length, c);
      var size := EventSize(kind, dts);
      if eventUsed + size >= eventData.Length {
        Stop();
        return;
      }
      DividerSize(kind, dts);
      var handle := AddEvent(kind, name, dts);
      ghost var e := Plain(kind, handle, dts);
      SizeIsExact(e);
      EncodeAllSnoc(log, e);
      log, kept := log + [e], kept + [c];
    }

    /** `_trace_recorder_memory_event`, behind the four malloc and free calls. */
    method RecordMemory(kind: byte, name: string, addr: uint32, bytes: uint32, dts: uint32)
      requires Valid() && CString(name) && IsMemory(kind)
      modifies this, eventData, nameData
      ensures Valid() && hook == old(hook)
      ensures ready == (old(ready) || (old(started) && |log| == |old(log)|))
      ensures Snapshot() ==
        Record(old(Snapshot()), hook, eventData.Length, nameData.Length, CallMemory(kind, name, dts, addr, bytes))
    {
      hide Store, Encode, EncodeAll, Faithful, Divider, EventSize;
      ghost var c := CallMemory(kind, name, dts, addr, bytes);
      if !started {
        return;
      }
      RecordKeepsValid(Snapshot(), hook, eventData.Length, nameData.Length, c);
      var size := EventSize(kind, dts);
      if eventUsed + size >= eventData.Length {
        Stop();
        return;
      }
      DividerSize(kind, dts);
      var handle := AddMemoryEvent(kind, name, addr, bytes, dts);
      ghost var e := Memory(kind, handle, dts, addr, bytes);
      SizeIsExact(e);
      EncodeAllSnoc(log, e);
      log, kept := log + [e], kept + [c];
    }
  }

  /** At any time the bytes in the two buffers tell a reader what was recorded. */
  lemma BuffersReadBack(r: Recorder)
    requires r.Valid() && 0 < |r.names| <= 255 && forall k :: 0 <= k < |r.kept| ==> Readable(r.kept[k])
    ensures ReadBack(r.eventData[..r.eventUsed], r.nameData[..r.nameUsed]) == Some(WantedAll(r.kept, r.names))
  {
    FaithfulReadsBack(r.Snapshot(), r.nameData.Length);
  }

  lemma NothingYet()
    ensures EncodeAll([]) == [] && Table([]) == ""
  {
  }

  lemma StoreFirst(symbols: nat)
    requires symbols >= 5
    ensures Store([], symbols, "NULL") == (0, ["NULL"])
  {
    var none: seq<string> := [];
    assert Table(none) == "" && IndexOf(none, "NULL") == 0;
    assert none + ["NULL"] == ["NULL"];
  }

  lemma StartedFaithful(running: bool, symbols: nat)
    ensures Faithful(STARTED.(running := running), symbols)
  {
  }

  lemma RecordKeepsValid(r: Recording, hook: bool, events: nat, symbols: nat, c: Call)
    requires r.running && r.names != [] && (|r.names| <= 255 ==> Faithful(r, symbols))
    ensures var r' := Record(r, hook, events, symbols, c);
      && r'.names != [] && r'.names[0] == r.names[0]
      && (|r'.names| <= 255 ==> Faithful(r', symbols))
  {
    StoreAdds(r.names, symbols, NameOf(c));
    hide Store, Offer, Faithful;
    if |r.names| <= 255 { RecordFaithful(r, hook, events, symbols, c); }
  }

  lemma EmptyTable(names: seq<string>)
    ensures Table(names[..0]) == ""
  {
  }

  lemma PlainSize(kind: byte, handle: byte, dts: uint32)
    ensures |Encode(Plain(kind, handle, dts))| == |Divider(dts)| + 4
  {
  }

  lemma DividerSize(kind: byte, dts: uint32)
    ensures |Divider(dts)| + 4 + (if IsMemory(kind) then 8 else 0) == EventSize(kind, dts)
  {
  }

  lemma MemoryTail(e: Event)
    requires e.Memory?
    ensures Encode(e) == Encode(Plain(e.kind, e.handle, e.dts)) + Word(e.addr) + Word(e.size)
  {
  }

  lemma EncodeAllSnoc(log: seq<Event>, e: Event)
    ensures EncodeAll(log + [e]) == EncodeAll(log) + Encode(e)
  {
    assert (log + [e])[..|log|] == log;
  }

  function Shown(name: Option<string>): string { match name case Some(n) => n case None => "NULL" }
}
