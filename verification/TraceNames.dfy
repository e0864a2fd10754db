/** The trace recorder's table of names: NUL-terminated strings one after the other, known by their
    number.  Numbers are bytes, and 0xff also means "not there". */
module TraceNames {
  import opened MachineWords

  const NOT_FOUND: byte := 0xff

  predicate CString(s: string) { '\0' !in s }

  ghost predicate Proper(names: seq<string>) {
    forall k :: 0 <= k < |names| ==> CString(names[k])
  }

  ghost predicate Distinct(names: seq<string>) {
    forall i, j :: 0 <= i < j < |names| ==> names[i] != names[j]
  }

  /** The bytes of the table. */
  function Table(names: seq<string>): string {
    if names == [] then "" else Table(names[..|names| - 1]) + names[|names| - 1] + "\0"
  }

  function IndexOf(names: seq<string>, n: string): (i: nat)
    ensures i <= |names|
    ensures i < |names| ==> names[i] == n
    ensures forall k :: 0 <= k < i ==> names[k] != n
  {
    if names == [] || names[0] == n then 0 else
      var i := IndexOf(names[1..], n);
      assert forall k :: 0 < k < 1 + i ==> names[k] == names[1..][k - 1];
      1 + i
  }

  /** `_trace_find_name`. */
  function Find(names: seq<string>, n: string): byte {
    var i := IndexOf(names, n);
    if i == |names| then NOT_FOUND else i % 256
  }

  predicate Room(names: seq<string>, capacity: nat, n: string) {
    |Table(names)| + |n| + 1 <= capacity
  }

  /** `_trace_store_name`. */
  function Store(names: seq<string>, capacity: nat, n: string): (byte, seq<string>) {
    if Find(names, n) != NOT_FOUND then (Find(names, n), names)
    else if !Room(names, capacity, n) then (Find(names, "NULL"), names)
    else (|names| % 256, names + [n])
  }

  lemma TableSnoc(names: seq<string>, n: string)
    ensures Table(names + [n]) == Table(names) + n + "\0"
  {
    assert (names + [n])[..|names|] == names;
  }

  /** Name `i` starts where the table of the names before it ends. */
  lemma {:induction false} TableAt(names: seq<string>, i: nat)
    requires i < |names|
    ensures var p := |Table(names[..i])|;
      && p + |names[i]| + 1 <= |Table(names)|
      && Table(names)[p..p + |names[i]|] == names[i]
      && Table(names)[p + |names[i]|] == '\0'
      && |Table(names[..i + 1])| == p + |names[i]| + 1
  {
    var last := |names| - 1;
    assert names[..i + 1] == names[..i] + [names[i]];
    TableSnoc(names[..i], names[i]);
    if i < last {
      TableAt(names[..last], i);
      assert names[..last][..i] == names[..i];
      var t := Table(names[..last]);
      assert Table(names) == t + (names[last] + "\0");
    } else {
      assert names[..i + 1] == names;
    }
  }

  /** While there are at most 255 names, storing gives back the number of that very name, or 0 (the
      name "NULL") when the table is full; the names stay distinct, and each keeps its number. */
  lemma StoreResolves(names: seq<string>, capacity: nat, n: string)
    requires 0 < |names| <= 255 && names[0] == "NULL" && Distinct(names)
    ensures var (i, names') := Store(names, capacity, n);
      && names <= names' && Distinct(names')
      && ((i < |names'| && names'[i] == n) || (i == 0 && names' == names && n !in names && !Room(names, capacity, n)))
  {
    var k := IndexOf(names, n);
    if k == |names| {
      assert n !in names;
      assert IndexOf(names, "NULL") == 0;
    }
  }

  /** A new name is stored exactly when it and its NUL fit behind the others; a name that is there is not
      stored again. */
  lemma StoredIff(names: seq<string>, capacity: nat, n: string)
    requires |names| <= 255
    ensures Store(names, capacity, n).1 ==
      if n !in names && |Table(names)| + |n| + 1 <= capacity then names + [n] else names
  {
    hide Table;
    var k := IndexOf(names, n);
    assert n in names <==> k < |names|;
  }

  /** Numbers once given out stay good: whatever is stored later, the table only grows at its end. */
  lemma {:induction false} NumbersStay(names: seq<string>, capacity: nat, ns: seq<string>)
    ensures names <= StoreAll(names, capacity, ns)
    decreases |ns|
  {
    if ns != [] {
      NumbersStay(Store(names, capacity, ns[0]).1, capacity, ns[1..]);
    }
  }

  function StoreAll(names: seq<string>, capacity: nat, ns: seq<string>): seq<string>
    decreases |ns|
  {
    if ns == [] then names else StoreAll(Store(names, capacity, ns[0]).1, capacity, ns[1..])
  }

  /** Over any run of stores that leaves at most 256 names the names stay distinct, and "NULL" stays first. */
  lemma {:induction false} NamesStayDistinct(names: seq<string>, capacity: nat, ns: seq<string>)
    requires names != [] && names[0] == "NULL" && Distinct(names)
    requires |StoreAll(names, capacity, ns)| <= 256
    ensures var names' := StoreAll(names, capacity, ns);
      Distinct(names') && names' != [] && names'[0] == "NULL"
    decreases |ns|
  {
    if ns == [] {
    } else {
      hide Store;
      NumbersStay(names, capacity, ns);
      var names1 := Store(names, capacity, ns[0]).1;
      NumbersStay(names1, capacity, ns[1..]);
      if |names| <= 255 { StoreResolves(names, capacity, ns[0]); } else { StoreGrows(names, capacity, ns[0]); }
      NamesStayDistinct(names1, capacity, ns[1..]);
    }
  }

  lemma StoreGrows(names: seq<string>, capacity: nat, n: string)
    ensures var names' := Store(names, capacity, n).1; names' == names || |names'| == |names| + 1
  {
  }

  /** With distinct names, some store makes a duplicate exactly when a name whose number reads as
      "not there" (255, 511, ...) would still fit once more; up to 255 names there is none. */
  lemma DuplicateIff(names: seq<string>, capacity: nat)
    requires Distinct(names)
    ensures (exists n :: !Distinct(Store(names, capacity, n).1)) <==>
      (exists k :: 0 <= k < |names| && k % 256 == 255 && Room(names, capacity, names[k]))
  {
    if k :| 0 <= k < |names| && k % 256 == 255 && Room(names, capacity, names[k]) {
      var n := names[k];
      assert IndexOf(names, n) == k;
      var r := Store(names, capacity, n).1;
      assert r[k] == r[|names|] == n;
      assert !Distinct(Store(names, capacity, n).1);
    }
    if n :| !Distinct(Store(names, capacity, n).1) {
      var k := IndexOf(names, n);
      assert k < |names|;
      assert k % 256 == 255 && Room(names, capacity, names[k]);
    }
  }

  /** The names of one character each, from number 1 on. */
  function Singles(n: nat): seq<string>
    requires n <= 255
  {
    seq(n, i requires 0 <= i < n => [(i + 1) as char])
  }

  lemma {:induction false} SinglesTable(n: nat)
    requires n <= 255
    ensures |Table(["NULL"] + Singles(n))| == 5 + 2 * n
  {
    if n == 0 {
      TableSnoc([], "NULL");
      assert [] + ["NULL"] == ["NULL"] && ["NULL"] + Singles(0) == ["NULL"];
    } else {
      SinglesTable(n - 1);
      TableSnoc(["NULL"] + Singles(n - 1), [n as char]);
      assert ["NULL"] + Singles(n) == (["NULL"] + Singles(n - 1)) + [[n as char]];
    }
  }

  lemma SinglesDistinct(n: nat)
    requires n <= 255
    ensures Distinct(["NULL"] + Singles(n))
    ensures n < 255 ==> [(n + 1) as char] !in ["NULL"] + Singles(n)
  {
    var names := ["NULL"] + Singles(n);
    assert forall i :: 0 < i < |names| ==> names[i] == [i as char];
  }

  lemma {:induction false} StoreAllSnoc(names: seq<string>, capacity: nat, ns: seq<string>, n: string)
    ensures StoreAll(names, capacity, ns + [n]) == Store(StoreAll(names, capacity, ns), capacity, n).1
    decreases |ns|
  {
    hide Store;
    if ns == [] {
      assert ns + [n] == [n] && [n][1..] == [];
    } else {
      assert (ns + [n])[0] == ns[0] && (ns + [n])[1..] == ns[1..] + [n];
      StoreAllSnoc(Store(names, capacity, ns[0]).1, capacity, ns[1..], n);
    }
  }

  lemma {:induction false} SinglesStored(n: nat)
    requires n <= 255
    ensures StoreAll(["NULL"], 1024, Singles(n)) == ["NULL"] + Singles(n)
  {
    if n == 0 {
      assert Singles(0) == [];
    } else {
      var names, last := ["NULL"] + Singles(n - 1), [n as char];
      SinglesStored(n - 1);
      assert Singles(n) == Singles(n - 1) + [last];
      StoreAllSnoc(["NULL"], 1024, Singles(n - 1), last);
      SinglesTable(n - 1);
      SinglesDistinct(n - 1);
      NewIsAppended(names, 1024, last);
      assert names + [last] == ["NULL"] + Singles(n);
    }
  }

  lemma NewIsAppended(names: seq<string>, capacity: nat, n: string)
    requires n !in names && Room(names, capacity, n)
    ensures Store(names, capacity, n).1 == names + [n]
  {
    assert IndexOf(names, n) == |names|;
  }

  /** The input: 255 different names of one character, stored one after the other, make 256 with "NULL";
      storing the last of them once more makes a duplicate. */
  lemma DuplicateReached()
    ensures var names := StoreAll(["NULL"], 1024, Singles(255));
      |names| == 256 && Distinct(names) && !Distinct(Store(names, 1024, names[255]).1)
  {
    hide Store, Table, StoreAll;
    var names := StoreAll(["NULL"], 1024, Singles(255));
    SinglesStored(255);
    SinglesTable(255);
    SinglesDistinct(255);
    SameAgain(names, 1024);
  }

  lemma SameAgain(names: seq<string>, capacity: nat)
    requires |names| == 256 && Distinct(names) && Room(names, capacity, names[255])
    ensures !Distinct(Store(names, capacity, names[255]).1)
  {
    var n := names[255];
    assert IndexOf(names, n) == 255;
    var r := Store(names, capacity, n).1;
    assert r[255] == r[256] == n;
  }
}
