/** gettext.c of kconfig: texts are written as PO string literals, and the list of messages is keyed
    on the written form.  C strings are Dafny strings without NUL. */
module PoMessages {
  import opened Wrappers

  // ---- the written form ----

  function EscapeChar(c: char): string {
    if c == '"' then "\\\""
    else if c == '\n' then "\\n\"\n\""
    else if c == '\\' then "\\\\"
    else [c]
  }

  function Body(text: string): string {
    if text == "" then "" else Body(text[..|text| - 1]) + EscapeChar(text[|text| - 1])
  }

  /** What is written before and after the text: a multi-line text starts with an empty literal on a
      line of its own. */
  function Opening(text: string): string { if '\n' in text then "\"\"\n\"" else "\"" }

  predicate EndsLine(text: string) { text != "" && text[|text| - 1] == '\n' }

  /** A final newline is not followed by one more, empty literal. */
  function Closed(text: string): string {
    (if EndsLine(text) then Body(text)[..|Body(text)| - 3] else Body(text)) + "\""
  }

  function Escape(text: string): string { Opening(text) + Closed(text) }

  lemma {:induction false} BodyHead(text: string)
    ensures text != "" ==> Body(text) != "" && Body(text)[0] != '"'
  {
    if |text| > 1 {
      BodyHead(text[..|text| - 1]);
    } else if |text| == 1 {
      assert text[..0] == "" && Body(text) == EscapeChar(text[0]);
    }
  }

  /** The written form of a text starts with an empty literal on a line of its own exactly when the text
      has a newline; and a newline at the end closes the last literal. */
  lemma WrittenShape(text: string)
    ensures '\n' in text <==> |Escape(text)| >= 4 && Escape(text)[..4] == "\"\"\n\""
    ensures EndsLine(text) ==>
      |Escape(text)| >= 3 && Escape(text)[|Escape(text)| - 3..] == "\\n\""
  {
    BodyHead(text);
    var e, b := Escape(text), Body(text);
    if '\n' in text {
      assert e[..4] == Opening(text);
      if EndsLine(text) {
        var t := text[..|text| - 1];
        assert b == Body(t) + "\\n\"\n\"";
        assert b[..|b| - 3] == Body(t) + "\\n";
        assert e == (Opening(text) + Body(t)) + "\\n\"";
      }
    } else {
      assert !EndsLine(text) by { NoLineEnd(text); }
      assert e == "\"" + (b + "\"");
      if text != "" {
        assert e[1] == b[0] && |e| >= 3;
        assert "\"\"\n\""[1] == '"';
      }
    }
  }

  lemma NoLineEnd(text: string)
    requires '\n' !in text
    ensures !EndsLine(text)
  {
  }

  // ---- reading it back ----

  function Prepend(s: string, o: Option<string>): Option<string> {
    match o case Some(t) => Some(s + t) case None => None
  }

  /** Inside a literal; a closing quote ends the text or goes on to a literal on the next line. */
  function ReadInside(s: string): Option<string> {
    if s == "" then None
    else if s[0] == '"' then
      if |s| == 1 then Some("") else if |s| >= 3 && s[1] == '\n' && s[2] == '"' then ReadInside(s[3..]) else None
    else if s[0] == '\\' then
      if |s| < 2 then None
      else if s[1] == 'n' then Prepend("\n", ReadInside(s[2..]))
      else if s[1] == '"' || s[1] == '\\' then Prepend([s[1]], ReadInside(s[2..]))
      else None
    else Prepend([s[0]], ReadInside(s[1..]))
  }

  function Read(s: string): Option<string> {
    if s == "" || s[0] != '"' then None else ReadInside(s[1..])
  }

  lemma ReadChar(c: char, u: string)
    ensures ReadInside(EscapeChar(c) + u) == Prepend([c], ReadInside(u))
  {
    var s := EscapeChar(c) + u;
    if c == '\n' {
      assert s[2..] == "\"\n\"" + u;
      assert (s[2..])[3..] == u;
    } else if c == '"' || c == '\\' {
      assert s[2..] == u;
    } else {
      assert s[1..] == u;
    }
  }

  lemma PrependTwice(s: string, t: string, o: Option<string>)
    ensures Prepend(s, Prepend(t, o)) == Prepend(s + t, o)
  {
    if o.Some? { assert s + (t + o.value) == s + t + o.value; }
  }

  lemma {:induction false} ReadBody(text: string, u: string)
    ensures ReadInside(Body(text) + u) == Prepend(text, ReadInside(u))
  {
    if text == "" {
      assert Body(text) + u == u;
      assert ReadInside(u).Some? ==> "" + ReadInside(u).value == ReadInside(u).value;
    } else {
      hide EscapeChar, ReadInside;
      var n := |text| - 1;
      var c := text[n];
      assert Body(text) + u == Body(text[..n]) + (EscapeChar(c) + u);
      ReadBody(text[..n], EscapeChar(c) + u);
      ReadChar(c, u);
      PrependTwice(text[..n], [c], ReadInside(u));
      assert text[..n] + [c] == text;
    }
  }

  lemma ReadClosed(text: string)
    ensures ReadInside(Closed(text)) == Some(text)
  {
    if EndsLine(text) {
      var t := text[..|text| - 1];
      ClosedLine(text, t);
      ReadLineEnd();
      hide Body, ReadInside, Closed;
      ReadBody(t, "\\n\"");
      assert text == t + "\n";
    } else {
      assert ReadInside("\"") == Some("") && text + "" == text;
      hide Body, ReadInside;
      ReadBody(text, "\"");
    }
  }

  lemma ClosedLine(text: string, t: string)
    requires EndsLine(text) && t == text[..|text| - 1]
    ensures Closed(text) == Body(t) + "\\n\""
  {
    var b := Body(text);
    assert EscapeChar('\n') == "\\n\"\n\"";
    assert b == Body(t) + "\\n\"\n\"";
    assert b[..|b| - 3] == Body(t) + "\\n";
    hide Body;
    assert (Body(t) + "\\n") + "\"" == Body(t) + "\\n\"";
  }

  lemma ReadLineEnd()
    ensures ReadInside("\\n\"") == Some("\n")
  {
    assert "\\n\""[2..] == "\"" && "\n" + "" == "\n";
    assert ReadInside("\"") == Some("");
  }

  /** Reading the adjacent literals of an escaped text gives back the text. */
  lemma EscapeRoundTrip(text: string)
    ensures Read(Escape(text)) == Some(text)
  {
    hide Closed;
    ReadClosed(text);
    var s := Escape(text);
    if '\n' in text {
      assert s[1..] == "\"\n\"" + Closed(text);
      assert s[1..][3..] == Closed(text);
    } else {
      assert s[1..] == Closed(text);
    }
  }

  /** So different texts have different written forms. */
  lemma EscapeInjective(a: string, b: string)
    requires Escape(a) == Escape(b)
    ensures a == b
  {
    EscapeRoundTrip(a);
    EscapeRoundTrip(b);
  }

  // ---- writing it in place ----

  /** What the loop takes off `len` for one character. */
  function Cost(c: char): nat { if c == '\n' then 6 else if c == '\\' then 2 else 1 }

  /** How far the loop gets from character `k` on, with `left` on its count. */
  function Reached(text: string, k: nat, left: int): (r: nat)
    requires k <= |text|
    ensures k <= r <= |text|
    decreases |text| - k
  {
    if k == |text| || left <= 1 then k else Reached(text, k + 1, left - Cost(text[k]))
  }

  /** The part of the text that is written. */
  function Kept(text: string, len: int): string { text[..Reached(text, 0, len - |Opening(text)|)] }

  /** The string `escape` leaves in its buffer: for a text that is not cut off, its written form. */
  function Written(text: string, len: int): string {
    var all := Opening(text) + Body(Kept(text, len));
    (if EndsLine(text) then LineMulti(text); all[..|all| - 3] else all) + "\""
  }

  /** How many characters of the buffer are written to. */
  function Touched(text: string, len: int): nat {
    |Opening(text)| + |Body(Kept(text, len))| + if EndsLine(text) then 0 else 2
  }

  lemma LineMulti(text: string)
    requires EndsLine(text)
    ensures |Opening(text)| == 4
  {
  }

  lemma WrittenWhole(text: string, len: int)
    requires Kept(text, len) == text
    ensures Written(text, len) == Escape(text)
  {
    if EndsLine(text) {
      LineEnd(text);
      var o, b := Opening(text), Body(text);
      assert (o + b)[..|o + b| - 3] == o + b[..|b| - 3];
    }
  }

  /** Every text of at most (len - 6) / 6 characters is written whole, inside the buffer. */
  lemma ShortTextsFit(text: string, len: nat)
    requires 6 * |text| + 6 <= len
    ensures Kept(text, len) == text && Touched(text, len) <= len
  {
    ReachesEnd(text, 0, len - |Opening(text)|);
    assert text[..|text|] == text;
    BodyBound(text);
  }

  lemma {:induction false} ReachesEnd(text: string, k: nat, left: int)
    requires k <= |text| && left > 6 * (|text| - k)
    ensures Reached(text, k, left) == |text|
    decreases |text| - k
  {
    if k < |text| { ReachesEnd(text, k + 1, left - Cost(text[k])); }
  }

  lemma {:induction false} BodyBound(text: string)
    ensures |Body(text)| <= 5 * |text|
  {
    if text != "" { BodyBound(text[..|text| - 1]); }
  }

  lemma BodySnoc(text: string, k: nat)
    requires k < |text|
    ensures Body(text[..k + 1]) == Body(text[..k]) + EscapeChar(text[k])
  {
    assert text[..k + 1][..k] == text[..k];
  }

  lemma {:induction false} BodyPrefix(text: string, j: nat, k: nat)
    requires j <= k <= |text|
    ensures |Body(text[..j])| + (k - j) <= |Body(text[..k])|
    decreases k
  {
    if j < k {
      BodyPrefix(text, j, k - 1);
      BodySnoc(text, k - 1);
    }
  }

  /** Without newlines the loop writes at least what it takes off its count, so when it stops early it
      has used up all but one. */
  lemma {:induction false} CutIsFull(text: string, k: nat, left: int)
    requires k <= |text| && '\n' !in text
    ensures var r := Reached(text, k, left);
      r == |text| || |Body(text[..r])| - |Body(text[..k])| >= left - 1
    decreases |text| - k
  {
    if k < |text| && left > 1 {
      BodySnoc(text, k);
      assert text[k] in text;
      assert |EscapeChar(text[k])| >= Cost(text[k]);
      hide Body, EscapeChar, Cost;
      CutIsFull(text, k + 1, left - Cost(text[k]));
    }
  }

  /** How often `c` occurs, and what the loop takes off its count for a whole text. */
  function Tally(s: string, c: char): (n: nat)
    ensures n <= |s| && (n > 0 <==> c in s)
  {
    if s == "" then 0 else Tally(s[..|s| - 1], c) + if s[|s| - 1] == c then 1 else 0
  }

  function Spent(s: string): nat {
    if s == "" then 0 else Spent(s[..|s| - 1]) + Cost(s[|s| - 1])
  }

  /** The count is one short for every quote and one too many for every newline. */
  lemma {:induction false} BodyBalance(s: string)
    ensures |Body(s)| + Tally(s, '\n') == Spent(s) + Tally(s, '"')
  {
    if s != "" { BodyBalance(s[..|s| - 1]); }
  }

  /** By how much the last character written runs the count below 1. */
  function Over(text: string, len: int): int { Spent(Kept(text, len)) - (len - |Opening(text)| - 1) }

  /** `escape` stays inside a buffer of `len` characters, for every text, exactly when this holds.  Where
      nothing is cut off, the written form fits, with its terminator or with the three characters
      that are taken back at the end of a line.  Where the text is cut off, newlines make up for
      the quotes, for what the last character ran over, and for the closing quote and terminator. */
  lemma StaysInsideIff(text: string, len: int)
    ensures Touched(text, len) <= len <==>
      var kept, end := Kept(text, len), EndsLine(text);
      if kept == text then |Escape(text)| + (if end then 2 else 1) <= len
      else Tally(kept, '"') + Over(text, len) + (if end then 0 else 2) <= Tally(kept, '\n') + 1
  {
    hide Body, Reached;
    BodyBalance(Kept(text, len));
    if EndsLine(text) { LineEnd(text); }
  }

  /** A cut text has used up its count, and runs over it by at most five. */
  lemma CutRunsOver(text: string, len: int)
    requires Kept(text, len) != text && len >= 6
    ensures 0 <= Over(text, len) <= 5
  {
    var left := len - |Opening(text)|;
    assert text[..0] == "" && text[..|text|] == text;
    CutSpent(text, 0, left);
  }

  lemma {:induction false} CutSpent(text: string, k: nat, left: int)
    requires k <= |text|
    ensures var r := Reached(text, k, left);
      var spent := Spent(text[..r]) - Spent(text[..k]);
      (r < |text| ==> spent >= left - 1) && (left > 1 ==> spent <= left + 4)
    decreases |text| - k
  {
    if k < |text| && left > 1 {
      assert text[..k + 1][..k] == text[..k];
      CutSpent(text, k + 1, left - Cost(text[k]));
    }
  }

  /** In particular, without newlines: exactly when the whole written form and its terminator fit.
      Cutting off does not keep it inside. */
  lemma OneLineInsideIff(text: string, len: nat)
    requires '\n' !in text
    ensures Touched(text, len) <= len <==> |Escape(text)| + 1 <= len
  {
    hide Body, Reached;
    OneLine(text);
    var r := Reached(text, 0, len - 1);
    CutIsFull(text, 0, len - 1);
    assert text[..|text|] == text;
    BodyPrefix(text, r, |text|);
  }

  lemma OneLine(text: string)
    requires '\n' !in text
    ensures !EndsLine(text) && |Opening(text)| == 1 && Body(text[..0]) == ""
    ensures |Escape(text)| == 1 + |Body(text)| + 1
  {
    assert text != "" ==> text[|text| - 1] in text;
  }

  function Quotes(n: nat): string { seq(n, _ => '"') }

  lemma {:induction false} QuotesBody(n: nat)
    ensures |Body(Quotes(n))| == 2 * n
  {
    if n > 0 {
      QuotesBody(n - 1);
      assert Quotes(n)[..n - 1] == Quotes(n - 1);
    }
  }

  /** A quote takes 1 off the count and two characters of the buffer: 8191 of them, half the buffer of
      `message__add`, run past its end. */
  lemma QuotesInsideIff(n: nat)
    ensures Touched(Quotes(n), 16384) <= 16384 <==> n <= 8190
  {
    QuotesBody(n);
    OneLineInsideIff(Quotes(n), 16384);
  }

  function Letters(n: nat): string { seq(n, _ => 'a') }

  lemma {:induction false} LettersBody(n: nat)
    ensures |Body(Letters(n))| == n
  {
    if n > 0 {
      LettersBody(n - 1);
      assert Letters(n)[..n - 1] == Letters(n - 1);
    }
  }

  lemma {:induction false} LettersReached(text: string, k: nat, m: nat, left: int)
    requires k + m <= |text| && left > m && forall j :: k <= j < k + m ==> text[j] == 'a'
    ensures Reached(text, k, left) == Reached(text, k + m, left - m)
    decreases m
  {
    if m > 0 { LettersReached(text, k + 1, m - 1, left - 1); }
  }

  /** A line of `n` letters and its newline, as the help texts of menus have them: with 16376 to 16378
      letters the newline still goes in and runs past the end of the buffer of `message__add`. */
  lemma LineInsideIff(n: nat)
    ensures Touched(Letters(n) + "\n", 16384) <= 16384 <==> !(16376 <= n <= 16378)
  {
    var text := Letters(n) + "\n";
    assert text[n] == '\n' && EndsLine(text);
    LineMulti(text);
    hide Body, Opening, EscapeChar;
    if n <= 16378 {
      LineWhole(text, n);
    } else {
      LineCut(text, n);
    }
  }

  lemma LineWhole(text: string, n: nat)
    requires text == Letters(n) + "\n" && n <= 16378
    ensures Reached(text, 0, 16380) == |text| && text[..|text|] == text && |Body(text)| == n + 5
  {
    LettersReached(text, 0, n, 16380);
    assert text[n] == '\n' && Reached(text, n + 1, 16380 - n - 6) == n + 1;
    assert text[..n] == Letters(n) && text[..n + 1] == text;
    LettersBody(n);
    BodySnoc(text, n);
  }

  lemma LineCut(text: string, n: nat)
    requires text == Letters(n) + "\n" && n > 16378
    ensures Reached(text, 0, 16380) == 16379 && |Body(text[..16379])| == 16379
  {
    LettersReached(text, 0, 16379, 16380);
    assert text[..16379] == Letters(16379);
    LettersBody(16379);
  }

  /** Store `s` at `at`. */
  method Emit(bf: array<char>, at: nat, s: string) returns (next: nat)
    requires at + |s| <= bf.Length
    modifies bf
    ensures next == at + |s| && bf[..next] == old(bf[..at]) + s
  {
    ghost var was := bf[..at];
    forall k | 0 <= k < |s| {
      bf[at + k] := s[k];
    }
    next := at + |s|;
    assert bf[..next] == was + s;
  }

  /** The loop of `escape`. */
  method EscapeLoop(text: string, bf: array<char>, len: int) returns (at: nat)
    requires Touched(text, len) <= bf.Length
    requires bf[..|Opening(text)|] == Opening(text)
    modifies bf
    ensures at <= bf.Length && bf[..at] == Opening(text) + Body(Kept(text, len))
  {
    hide EscapeChar, Body, Opening;
    at := |Opening(text)|;
    var left, k := len - at, 0;
    ghost var r := Reached(text, 0, left);
    StartEmpty(text);
    while k < |text| && left > 1
      invariant k <= |text| && Reached(text, k, left) == r
      invariant at == |Opening(text)| + |Body(text[..k])| <= bf.Length
      invariant bf[..at] == Opening(text) + Body(text[..k])
    {
      BodySnoc(text, k);
      BodyPrefix(text, k + 1, r);
      ghost var next := Opening(text) + Body(text[..k + 1]);
      at := Emit(bf, at, EscapeChar(text[k]));
      assert bf[..at] == next;
      left, k := left - Cost(text[k]), k + 1;
    }
  }

  /** `escape`, for any text and count for which it stays inside its buffer. */
  method EscapeInto(text: string, bf: array<char>, len: int) returns (end: nat)
    requires Touched(text, len) <= bf.Length
    modifies bf
    ensures end < bf.Length && bf[..end] == Written(text, len) && bf[end] == '\0'
  {
    hide Body, Opening, Kept;
    var at := Emit(bf, 0, Opening(text));
    assert bf[..|Opening(text)|] == Opening(text);
    at := EscapeLoop(text, bf, len);
    ghost var all := bf[..at];
    if EndsLine(text) {
      LineMulti(text);
      at := at - 3;
    }
    assert bf[..at] == all[..at];
    at := Emit(bf, at, "\"");
    ghost var done := bf[..at];
    bf[at] := '\0';
    assert bf[..at] == done;
    return at;
  }

  lemma StartEmpty(text: string)
    ensures Body(text[..0]) == ""
  {
  }

  lemma LineEnd(text: string)
    requires EndsLine(text)
    ensures |Body(text)| >= 5
  {
  }

  // ---- the message list ----

  datatype Place = Place(file: string, line: int)
  datatype Message = Message(msg: string, option: Option<string>, files: seq<Place>)
  datatype Added = Added(text: string, option: Option<string>, place: Place)

  function Position(list: seq<Message>, msg: string): (i: nat)
    ensures i <= |list|
    ensures i < |list| ==> list[i].msg == msg
    ensures forall k :: 0 <= k < i ==> list[k].msg != msg
  {
    if list == [] || list[0].msg == msg then 0 else
      var i := Position(list[1..], msg);
      assert forall k :: 0 < k < 1 + i ==> list[k] == list[1..][k - 1];
      1 + i
  }

  /** `message__add`: one more place for a known message, else a new message at the head. */
  function AddOne(list: seq<Message>, a: Added): seq<Message> { AddWritten(list, Escape(a.text), a) }

  function AddWritten(list: seq<Message>, msg: string, a: Added): seq<Message> {
    var i := Position(list, msg);
    if i < |list| then list[i := list[i].(files := [a.place] + list[i].files)]
    else [Message(msg, a.option, [a.place])] + list
  }

  function AddAll(adds: seq<Added>): seq<Message> {
    if adds == [] then [] else AddOne(AddAll(adds[..|adds| - 1]), adds[|adds| - 1])
  }

  /** The places at which a text was added, newest first, and the option of its first adding. */
  function Places(adds: seq<Added>, text: string): seq<Place> {
    if adds == [] then [] else
    var a := adds[|adds| - 1];
    (if a.text == text then [a.place] else []) + Places(adds[..|adds| - 1], text)
  }

  function FirstOption(adds: seq<Added>, text: string): Option<string> {
    if adds == [] then None
    else if adds[0].text == text then adds[0].option
    else FirstOption(adds[1..], text)
  }

  function Lookup(list: seq<Message>, msg: string): Option<Message> {
    var i := Position(list, msg);
    if i < |list| then Some(list[i]) else None
  }

  ghost predicate OneEach(list: seq<Message>) {
    forall i, j :: 0 <= i < j < |list| ==> list[i].msg != list[j].msg
  }

  lemma AddOneLookup(list: seq<Message>, a: Added, text: string)
    requires OneEach(list)
    ensures OneEach(AddOne(list, a))
    ensures var was := Lookup(list, Escape(text));
      Lookup(AddOne(list, a), Escape(text)) ==
        if a.text != text then was
        else if was.Some? then Some(was.value.(files := [a.place] + was.value.files))
        else Some(Message(Escape(text), a.option, [a.place]))
  {
    hide Escape;
    var msg, key := Escape(a.text), Escape(text);
    if msg == key { EscapeInjective(a.text, text); }
    var i, j := Position(list, msg), Position(list, key);
    var r := AddOne(list, a);
    var j' := Position(r, key);
    if i < |list| {
      assert forall k :: 0 <= k < |list| ==> r[k].msg == list[k].msg;
      assert j' == j;
    } else if msg == key {
      assert r[0].msg == key;
      assert j' == 0;
    } else {
      assert forall k :: 0 <= k < |list| ==> r[k + 1] == list[k];
      assert j < |list| ==> r[j + 1].msg == key;
      assert j' == j + 1;
    }
  }

  lemma {:induction false} FirstOptionSnoc(adds: seq<Added>, a: Added, text: string)
    ensures FirstOption(adds + [a], text) ==
      if Places(adds, text) != [] then FirstOption(adds, text) else if a.text == text then a.option else None
    ensures Places(adds, text) == [] ==> FirstOption(adds, text) == None
    decreases |adds|
  {
    if adds == [] {
      assert adds + [a] == [a] && [a][1..] == [];
    } else {
      assert (adds + [a])[1..] == adds[1..] + [a];
      FirstOptionSnoc(adds[1..], a, text);
      PlacesCons(adds, text);
    }
  }

  lemma {:induction false} PlacesCons(adds: seq<Added>, text: string)
    requires adds != []
    ensures Places(adds, text) == Places(adds[1..], text) + if adds[0].text == text then [adds[0].place] else []
    decreases |adds|
  {
    var n := |adds| - 1;
    if n == 0 {
      assert adds[..0] == [] && adds[1..] == [];
    } else {
      PlacesCons(adds[..n], text);
      assert adds[..n][1..] == adds[1..][..n - 1] && adds[1..][n - 1] == adds[n];
    }
  }

  /** After any run of additions there is one entry for each distinct text that was added and no
      other, with the option of its first adding and all its places, newest first. */
  lemma {:induction false} OneEntryPerText(adds: seq<Added>, text: string)
    ensures OneEach(AddAll(adds))
    ensures Lookup(AddAll(adds), Escape(text)) ==
      if Places(adds, text) == [] then None
      else Some(Message(Escape(text), FirstOption(adds, text), Places(adds, text)))
    decreases |adds|
  {
    hide Escape, AddOne, Position;
    if adds == [] {
      NothingFound(Escape(text));
    } else {
      var n := |adds| - 1;
      OneEntryPerText(adds[..n], text);
      AddOneLookup(AddAll(adds[..n]), adds[n], text);
      FirstOptionSnoc(adds[..n], adds[n], text);
      assert adds[..n] + [adds[n]] == adds;
      var before := Places(adds[..n], text);
      assert [] + before == before && [adds[n].place] + [] == [adds[n].place];
      assert Places(adds, text) == if adds[n].text == text then [adds[n].place] + before else before;
    }
  }

  lemma NothingFound(msg: string)
    ensures Lookup([], msg) == None
  {
  }

  /** Every entry is the written form of a text that was added. */
  lemma {:induction false} EntriesWereAdded(adds: seq<Added>, k: nat)
    requires k < |AddAll(adds)|
    ensures exists i :: 0 <= i < |adds| && AddAll(adds)[k].msg == Escape(adds[i].text)
    decreases |adds|
  {
    hide Escape;
    var n := |adds| - 1;
    var was := AddAll(adds[..n]);
    var msg := Escape(adds[n].text);
    if Position(was, msg) < |was| {
      EntriesWereAdded(adds[..n], k);
      var i :| 0 <= i < n && was[k].msg == Escape(adds[..n][i].text);
      assert AddAll(adds)[k].msg == Escape(adds[i].text);
    } else if k > 0 {
      EntriesWereAdded(adds[..n], k - 1);
      var i :| 0 <= i < n && was[k - 1].msg == Escape(adds[..n][i].text);
      assert AddAll(adds)[k].msg == Escape(adds[i].text);
    }
  }

  function Forms(list: seq<Message>): (r: seq<string>)
    ensures |r| == |list| && forall i :: 0 <= i < |list| ==> r[i] == list[i].msg
  {
    seq(|list|, i requires 0 <= i < |list| => list[i].msg)
  }

  lemma FormsOfAdd(list: seq<Message>, msg: string, a: Added)
    ensures Forms(AddWritten(list, msg, a)) == if Lookup(list, msg) == None then [msg] + Forms(list) else Forms(list)
  {
    var r := AddWritten(list, msg, a);
    if Position(list, msg) < |list| {
      assert Forms(r) == Forms(list);
    } else {
      assert Forms(r) == [msg] + Forms(list);
    }
  }

  /** The list has the texts in the order of their first adding, newest first. */
  lemma NewestFirst(adds: seq<Added>, a: Added)
    ensures Forms(AddAll(adds + [a])) ==
      if Places(adds, a.text) == [] then [Escape(a.text)] + Forms(AddAll(adds)) else Forms(AddAll(adds))
  {
    hide Escape, AddWritten, Lookup, Forms;
    assert (adds + [a])[..|adds|] == adds;
    OneEntryPerText(adds, a.text);
    FormsOfAdd(AddAll(adds), Escape(a.text), a);
  }

  class MessageTable {
    var list: seq<Message>

    constructor ()
      ensures list == []
    {
      list := [];
    }

    /** `mesage__find`. */
    method FindMessage(msg: string) returns (i: nat)
      ensures i == Position(list, msg)
    {
      i := 0;
      while i < |list| && list[i].msg != msg
        invariant i <= Position(list, msg)
      {
        i := i + 1;
      }
    }

    /** `message__add`; `memory` says whether the allocations succeed.  For a text that is not cut off
        this is `AddOne`. */
    method Add(a: Added, memory: bool) returns (rc: int)
      requires Touched(a.text, 16384) <= 16384
      modifies this
      ensures list == if memory then AddWritten(old(list), Written(a.text, 16384), a) else old(list)
      ensures Kept(a.text, 16384) == a.text && memory ==> list == AddOne(old(list), a)
      ensures rc == if memory then 0 else -1
    {
      hide Escape, Written;
      if Kept(a.text, 16384) == a.text { WrittenWhole(a.text, 16384); }
      var bf := new char[16384];
      var end := EscapeInto(a.text, bf, bf.Length);
      var msg := bf[..end];
      var i := FindMessage(msg);
      if !memory {
        return -1;
      }
      if i < |list| {
        list := list[i := list[i].(files := [a.place] + list[i].files)];
      } else {
        list := [Message(msg, a.option, [a.place])] + list;
      }
      return 0;
    }
  }
}
