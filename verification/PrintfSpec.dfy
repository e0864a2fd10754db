/** What `__v_printf` writes, as a function of the format and the arguments.

    C strings are Dafny strings without NUL.  `long` has 32 bits, so an `int` and a `long` argument
    are both `Int`; a `long long` argument is `Long64`.  The outcome of a format is what was
    handed to `put` before the return: `Done` for a regular return, `Failed` for -1, and
    `NotCovered` where the source's behaviour rests on code, platform choices or argument
    mismatches that this model leaves out.
  */
module PrintfSpec {
  import opened MachineWords
  import opened Numerals

  datatype Arg = Int(i: int32) | Long64(l: int64) | Str(s: string) | NullStr

  datatype Outcome = Done(out: string) | Failed(out: string) | NotCovered

  // ---- strtoul and strtol in base 10 ----

  predicate IsDigit(c: char) { '0' <= c <= '9' }

  function DigitRun(s: string): (n: nat)
    ensures n <= |s|
    ensures forall k :: 0 <= k < n ==> IsDigit(s[k])
    ensures n < |s| ==> !IsDigit(s[n])
  {
    if s == [] || !IsDigit(s[0]) then 0 else
      var n := DigitRun(s[1..]);
      assert forall k :: 0 < k < 1 + n ==> s[k] == s[1..][k - 1];
      1 + n
  }

  /** The value, saturating, and what follows. */
  function Strtoul(s: string): (r: (uint32, string))
    ensures |r.1| <= |s| && (s != [] && IsDigit(s[0]) ==> |r.1| < |s|)
  {
    var n := DigitRun(s);
    (Min(Value(s[..n], 10), TWO_32 - 1), s[n..])
  }

  function SkipBlanks(s: string): (t: string)
    ensures |t| <= |s|
  {
    if s != [] && (s[0] == ' ' || '\t' <= s[0] <= '\r') then SkipBlanks(s[1..]) else s
  }

  /** Blanks, an optional sign, digits; without digits nothing is consumed. */
  function Strtol(s: string): (r: (int, string))
    ensures |r.1| <= |s| && r.0 < TWO_31
  {
    var t := SkipBlanks(s);
    var neg := t != [] && t[0] == '-';
    var u := if t != [] && t[0] in "+-" then t[1..] else t;
    var n := DigitRun(u);
    if n == 0 then (0, s)
    else (if neg then -Min(Value(u[..n], 10), TWO_31) else Min(Value(u[..n], 10), TWO_31 - 1), u[n..])
  }

  // ---- flags, width, precision ----

  /** The local variables a conversion specification sets. */
  datatype Flags = Flags(
    hash: bool, left: bool, space: bool, plus: bool, dot: bool, zero: bool, long: int, width: uint32, preci: uint32)

  const NO_FLAGS := Flags(false, false, false, false, false, false, 0, 0, 0)

  datatype Parsed = Bad | Mismatch | Conversion(c: char, rest: string, args: seq<Arg>, flags: Flags)

  /** From just after the `%` to the conversion character. */
  function Parse(s: string, args: seq<Arg>, f: Flags): (p: Parsed)
    ensures p.Conversion? ==> |p.rest| < |s|
    decreases |s|
  {
    if s == [] then Bad else
    var c, t := s[0], s[1..];
    if c == '#' then Parse(t, args, f.(hash := true))
    else if c == 'z' then Parse(t, args, f)
    else if c == 'h' then Parse(t, args, f.(long := f.long - 1))
    else if c == 'q' || c == 'L' then Parse(t, args, f.(long := f.long + 2))
    else if c == 'l' then Parse(t, args, f.(long := f.long + 1))
    else if c == '-' then Parse(t, args, f.(left := true))
    else if c == ' ' then Parse(t, args, f.(space := true))
    else if c == '+' then Parse(t, args, f.(plus := true))
    else if IsDigit(c) then
      if f.dot then Bad else
      var (w, rest) := Strtoul(s);
      Parse(rest, args, f.(width := w, zero := f.zero || (c == '0' && !f.left)))
    else if c == '*' then
      if args == [] || !args[0].Int? then Mismatch
      else Parse(t, args[1..], f.(width := args[0].i % TWO_32))
    else if c == '.' then
      if t != [] && t[0] == '*' then
        if args == [] || !args[0].Int? then Mismatch
        else Parse(t[1..], args[1..], f.(dot := true, preci := Max(args[0].i, 0)))
      else
        var (n, rest) := Strtol(t);
        Parse(rest, args, f.(dot := true, preci := Max(n, 0)))
    else Conversion(c, t, args, f)
  }

  // ---- one field ----

  function Repeat(n: int, c: char): (s: string)
    ensures |s| == Max(n, 0)
    ensures forall k :: 0 <= k < |s| ==> s[k] == c
  {
    seq(Max(n, 0), _ => c)
  }

  /** The bit pattern of a 32-bit value read as an `int`. */
  function Signed(x: uint32): int32 { if x < TWO_31 then x else x - TWO_32 }

  /** Label `print_out`: `sign` is the part that stays in front of zero padding. */
  function PrintOut(f: Flags, sign: string, body: string): string {
    if f.width == 0 && f.preci == 0 then sign + body else
    var width := Signed((f.width - |sign|) % TWO_32);
    var vs := Max(f.preci, |body|);
    if f.left then
      sign + Repeat(f.preci - |body|, '0') + body + Repeat(width - vs, ' ')
    else if f.dot then
      Repeat(width - vs, ' ') + sign + Repeat(f.preci - |body|, '0') + body
    else if f.zero then
      sign + Repeat(width - |body|, '0') + body
    else
      Repeat(width - |body|, ' ') + sign + body
  }

  function StringField(f: Flags, s: string): string {
    var n := if f.dot && |s| > f.preci then f.preci else |s|;
    PrintOut(f.(preci := 0, dot := false, zero := false), "", s[..n])
  }

  function Base(c: char): (b: nat)
    ensures 2 <= b <= 36
  {
    if c == 'b' then 2 else if c == 'o' then 8 else if c == 'x' || c == 'X' then 16 else 10
  }

  predicate IsNumber(c: char) { c in "bxXdiuo" }
  predicate IsSigned(c: char) { c in "di" }

  /** The unsigned value whose digits are printed. */
  function Magnitude(f: Flags, signed: bool, v: int): nat {
    var m := if signed && v < 0 then -v else v % (if f.long > 1 then TWO_64 else TWO_32);
    if f.long < -1 then m % TWO_8 else if f.long < 0 then m % TWO_16 else m
  }

  function Sign(f: Flags, signed: bool, v: int): string {
    if signed && v < 0 then "-"
    else if signed && f.plus then "+"
    else if signed && f.space then " "
    else ""
  }

  function AltPrefix(f: Flags, c: char): string {
    if !f.hash then "" else if c == 'o' then "0" else ['0', c]
  }

  function NumberField(f: Flags, c: char, v: int): string {
    var f1 := if c in "xX" && f.preci > f.width then f.(width := f.preci) else f;
    var digits := Numeral(Magnitude(f, IsSigned(c), v), Base(c), c == 'X');
    PrintOut(f1, Sign(f, IsSigned(c), v) + AltPrefix(f, c), if f.dot && digits == "0" then "" else digits)
  }

  datatype Field = Text(text: string, args: seq<Arg>) | NoField

  /** `#` is followed only without precision and on x, X and o. */
  predicate HashCovered(f: Flags, c: char) {
    f.hash ==> c in "xXo" && !f.dot
  }

  function OneField(c: char, f: Flags, args: seq<Arg>): Field {
    if c == '%' then Text("%", args)
    else if c == 'c' then
      if args == [] || !args[0].Int? then NoField else Text([(args[0].i % TWO_8) as char], args[1..])
    else if c == 's' then
      if args == [] || f.hash then NoField
      else if args[0].Str? then Text(StringField(f, args[0].s), args[1..])
      else if args[0].NullStr? then Text(StringField(f, "(null)"), args[1..])
      else NoField
    else if IsNumber(c) then
      if args == [] || !HashCovered(f, c) then NoField
      else if f.long > 1 && args[0].Long64? then Text(NumberField(f, c, args[0].l), args[1..])
      else if f.long <= 1 && args[0].Int? then Text(NumberField(f, c, args[0].i), args[1..])
      else NoField
    else if c in "mpfg" then NoField
    else Text("", args)
  }

  // ---- the whole format ----

  function SkipTo(s: string): (n: nat)
    ensures n <= |s| && '%' !in s[..n] && (n < |s| ==> s[n] == '%')
  {
    if s == [] || s[0] == '%' then 0 else
      var n := SkipTo(s[1..]);
      assert s[..1 + n] == [s[0]] + s[1..][..n];
      1 + n
  }

  function Prepend(s: string, o: Outcome): Outcome {
    match o
    case Done(out) => Done(s + out)
    case Failed(out) => Failed(s + out)
    case NotCovered => NotCovered
  }

  /** One turn of the main loop: literal text up to the next `%`, then one conversion. */
  datatype Turn =
    | Last(text: string)
    | Broken(text: string)
    | Uncovered
    | More(text: string, rest: string, args: seq<Arg>)

  function OneTurn(format: string, args: seq<Arg>): (t: Turn)
    ensures t.More? ==> |t.rest| < |format|
  {
    var n := SkipTo(format);
    if n == |format| then Last(format) else
    match Parse(format[n + 1..], args, NO_FLAGS)
    case Bad => Broken(format[..n])
    case Mismatch => Uncovered
    case Conversion(c, rest, args1, f) =>
      match OneField(c, f, args1)
      case NoField => Uncovered
      case Text(text, args2) => More(format[..n] + text, rest, args2)
  }

  function Render(format: string, args: seq<Arg>): Outcome
    decreases |format|
  {
    match OneTurn(format, args)
    case Last(text) => Done(text)
    case Broken(text) => Failed(text)
    case Uncovered => NotCovered
    case More(text, rest, args2) => Prepend(text, Render(rest, args2))
  }
}
