/** Section 7.21.6.1 of ISO/IEC 9899:2011 for the integer and string conversions, and the proof that
    `__v_printf` prints what it asks for. */
module PrintfIso {
  import opened Wrappers
  import opened MachineWords
  import opened Numerals
  import opened PrintfSpec
  import opened Printf

  // ---- what the standard asks for ----

  /** Blanks, sign, zeros, digits, blanks. */
  function Laid(blanks: int, sign: string, zeros: int, digits: string, after: int): string {
    Repeat(blanks, ' ') + sign + Repeat(zeros, '0') + digits + Repeat(after, ' ')
  }

  /** An integer field.  `width` is a minimum, `prec` the minimum number of digits; `digits` is the
      plain numeral of the magnitude. */
  function IsoInteger(left: bool, zero: bool, width: nat, prec: Option<nat>, sign: string, digits: string): string {
    var shown := if prec == Some(0) && digits == "0" then "" else digits;
    var zeros := match prec case Some(p) => Max(p - |shown|, 0) case None => 0;
    var pad := width - |sign| - zeros - |shown|;
    if left then Laid(0, sign, zeros, shown, pad)
    else if zero && prec.None? then Laid(0, sign, pad, shown, 0)
    else Laid(pad, sign, zeros, shown, 0)
  }

  function IsoString(left: bool, width: nat, prec: Option<nat>, s: string): string {
    var shown := match prec case Some(p) => s[..Min(p, |s|)] case None => s;
    if left then shown + Repeat(width - |shown|, ' ') else Repeat(width - |shown|, ' ') + shown
  }

  // ---- a conversion specification as written ----

  /** How a width or precision is given: not at all, by a dot alone, in digits, or by `*` and an
      argument. */
  datatype Amount = Absent | Bare | Written(n: nat) | Passed(i: int)

  /** What the code makes of it, and what the standard asks for: a negative precision passed by `*`
      counts as 0 here and as absent there. */
  function Given(a: Amount): Option<nat> {
    match a case Absent => None case Bare => Some(0) case Written(n) => Some(n) case Passed(i) => Some(Max(i, 0))
  }

  function Asked(a: Amount): Option<nat> { if Negative(a) then None else Given(a) }

  predicate Negative(a: Amount) { a.Passed? && a.i < 0 }

  datatype Directive = Directive(flags: string, width: Amount, prec: Amount, length: string, conv: char)

  predicate WellFormed(d: Directive) {
    && FlagString(d.flags)
    && d.width != Bare && d.width != Written(0) && !Negative(d.width)
    && InInt(d.width) && InInt(d.prec)
    && LengthString(d.length)
    && (IsNumber(d.conv) || d.conv == 's')
  }

  predicate InInt(a: Amount) {
    (a.Written? ==> a.n < TWO_31) && (a.Passed? ==> -TWO_31 <= a.i < TWO_31)
  }

  function WidthOf(d: Directive): nat { match Given(d.width) case Some(w) => w case None => 0 }

  /** The arguments that `*` takes. */
  function Stars(a: Amount): (args: seq<Arg>)
    requires InInt(a)
  {
    if a.Passed? then [Int(a.i)] else []
  }

  function Decimal(n: nat): string { Numeral(n, 10, false) }

  /** The text after the `%`. */
  function Source(d: Directive): string {
    d.flags + WidthText(d.width) + PrecText(d.prec) + d.length + [d.conv]
  }

  function Count(c: char): int {
    if c == 'h' then -1 else if c == 'l' then 1 else if c == 'z' then 0 else 2
  }

  /** How far `flag_long` moves. */
  function Long(length: string): int {
    if length == "" then 0 else Count(length[0]) + Long(length[1..])
  }

  // ---- parsing it ----

  predicate NoDigitFirst(s: string) { s != "" ==> !IsDigit(s[0]) }

  lemma DecimalDigits(n: nat)
    ensures Decimal(n) != "" && Value(Decimal(n), 10) == n
    ensures forall k :: 0 <= k < |Decimal(n)| ==> IsDigit(Decimal(n)[k])
    ensures n > 0 ==> Decimal(n)[0] != '0'
  {
    if n == 0 {
      assert "0"[..0] == [];
    } else {
      DigitsValue(n, 10, false);
      NoLeadingZero(n, 10, false);
      DigitsOfBase(n, 10, false);
      forall k | 0 <= k < |Decimal(n)| ensures IsDigit(Decimal(n)[k]) {
        assert DigitOf(Decimal(n)[k], 10, false);
      }
    }
  }

  lemma {:induction false} RunOf(ds: string, t: string)
    requires (forall k :: 0 <= k < |ds| ==> IsDigit(ds[k])) && NoDigitFirst(t)
    ensures DigitRun(ds + t) == |ds|
  {
    if ds == "" {
      assert ds + t == t;
    } else {
      assert (ds + t)[1..] == ds[1..] + t;
      RunOf(ds[1..], t);
    }
  }

  lemma {:induction false} LeadingZeroValue(s: string, base: nat)
    ensures Value("0" + s, base) == Value(s, base)
  {
    var z := "0" + s;
    if s == "" {
      assert z == "0" && "0"[..0] == [];
    } else {
      LeadingZeroValue(s[..|s| - 1], base);
      assert z[..|z| - 1] == "0" + s[..|s| - 1];
    }
  }

  lemma RunZero(g: string)
    ensures DigitRun("0" + g) == 1 + DigitRun(g)
  {
    assert ("0" + g)[1..] == g;
  }

  lemma StrtoulZero(g: string)
    ensures Strtoul("0" + g) == if DigitRun(g) == 0 then (0, g) else Strtoul(g)
  {
    RunZero(g);
    hide Value, DigitRun;
    var n := DigitRun(g);
    ZeroSlices(g, n);
    LeadingZeroValue(g[..n], 10);
    EmptyValue(10);
  }

  lemma ZeroSlices(g: string, n: nat)
    requires n <= |g|
    ensures var s := "0" + g; s[0] == '0' && s[1..] == g && s[..1 + n] == "0" + g[..n] && s[1 + n..] == g[n..]
    ensures n == 0 ==> g[..n] == "" && g[n..] == g
  {
  }

  /** A `0` in front only sets the zero flag and forgets the width read so far. */
  lemma ParseZero(g: string, args: seq<Arg>, f: Flags)
    requires !f.dot
    ensures Parse("0" + g, args, f) == Parse(g, args, f.(width := 0, zero := f.zero || !f.left))
  {
    hide Strtoul, Strtol;
    assert ("0" + g)[0] == '0';
    StrtoulZero(g);
  }

  predicate IsModifier(c: char) {
    c == '-' || c == '+' || c == ' ' || c == '#' || c == 'h' || c == 'l' || c == 'L' || c == 'q' || c == 'z'
  }

  /** What one of the single-character flags and modifiers sets. */
  function Modify(f: Flags, c: char): Flags {
    match c
    case '-' => f.(left := true)
    case '+' => f.(plus := true)
    case ' ' => f.(space := true)
    case '#' => f.(hash := true)
    case 'h' => f.(long := f.long - 1)
    case 'l' => f.(long := f.long + 1)
    case 'z' => f
    case '0' => f.(width := 0, zero := f.zero || !f.left)
    case _ => f.(long := f.long + 2)
  }

  lemma ParseModifier(c: char, t: string, args: seq<Arg>, f: Flags)
    requires IsModifier(c)
    ensures Parse([c] + t, args, f) == Parse(t, args, Modify(f, c))
  {
    assert ([c] + t)[1..] == t;
  }

  function ModifyAll(f: Flags, cs: string): Flags
    decreases |cs|
  {
    if cs == "" then f else ModifyAll(Modify(f, cs[0]), cs[1..])
  }

  predicate AllModifiers(cs: string) {
    forall k :: 0 <= k < |cs| ==> IsModifier(cs[k]) || cs[k] == '0'
  }

  lemma {:induction false} ParseModifiers(cs: string, t: string, args: seq<Arg>, f: Flags)
    requires AllModifiers(cs) && ('0' in cs ==> !f.dot)
    ensures Parse(cs + t, args, f) == Parse(t, args, ModifyAll(f, cs))
    decreases |cs|
  {
    hide Parse;
    if cs == "" {
      assert cs + t == t;
    } else {
      var c, g := cs[0], cs[1..] + t;
      assert cs + t == [c] + g;
      assert IsModifier(c) || c == '0';
      if c == '0' { ParseZero(g, args, f); } else { ParseModifier(c, g, args, f); }
      ParseModifiers(cs[1..], t, args, Modify(f, c));
    }
  }

  lemma ModifyFlag(f: Flags, c: char)
    requires c == '-' || c == '+' || c == ' ' || c == '#' || c == '0'
    ensures var g := Modify(f, c);
      && g.left == (f.left || c == '-') && g.plus == (f.plus || c == '+') && g.space == (f.space || c == ' ')
      && g.zero == (f.zero || (c == '0' && !f.left)) && g.width == (if c == '0' then 0 else f.width)
      && g.hash == (f.hash || c == '#') && g.dot == f.dot && g.long == f.long && g.preci == f.preci
  {
  }

  lemma InCons(c: char, t: string, x: char)
    ensures x in [c] + t <==> x == c || x in t
  {
  }

  predicate FlagString(flags: string) {
    forall k :: 0 <= k < |flags| ==>
      flags[k] == '-' || flags[k] == '+' || flags[k] == ' ' || flags[k] == '#' || flags[k] == '0'
  }

  /** What a flag string amounts to: order and repetition do not matter. */
  lemma {:induction false} FlagsMean(flags: string, f: Flags)
    requires FlagString(flags)
    ensures var g := ModifyAll(f, flags);
      && g.left == (f.left || '-' in flags) && g.plus == (f.plus || '+' in flags)
      && g.space == (f.space || ' ' in flags) && g.hash == (f.hash || '#' in flags)
      && (f.width == 0 ==> g.width == 0)
      && (!g.left ==> g.zero == (f.zero || '0' in flags))
      && g.dot == f.dot && g.long == f.long && g.preci == f.preci
    decreases |flags|
  {
    hide Modify;
    if flags != "" {
      var c, t := flags[0], flags[1..];
      assert flags == [c] + t;
      ModifyFlag(f, c);
      InCons(c, t, '-');
      InCons(c, t, '+');
      InCons(c, t, ' ');
      InCons(c, t, '#');
      InCons(c, t, '0');
      FlagsMean(t, Modify(f, c));
    }
  }

  predicate LengthString(length: string) {
    forall k :: 0 <= k < |length| ==>
      length[k] == 'h' || length[k] == 'l' || length[k] == 'L' || length[k] == 'q' || length[k] == 'z'
  }

  lemma ModifyLength(f: Flags, c: char)
    requires c == 'h' || c == 'l' || c == 'L' || c == 'q' || c == 'z'
    ensures Modify(f, c) == f.(long := f.long + Count(c))
  {
  }

  lemma {:induction false} LengthMeans(length: string, f: Flags)
    requires LengthString(length)
    ensures ModifyAll(f, length) == f.(long := f.long + Long(length))
    decreases |length|
  {
    hide Modify, Count;
    if length != "" {
      ModifyLength(f, length[0]);
      LengthMeans(length[1..], Modify(f, length[0]));
    }
  }

  lemma StrtoulDecimal(w: nat, t: string)
    requires w < TWO_32 && NoDigitFirst(t)
    ensures Strtoul(Decimal(w) + t) == (w, t)
  {
    hide Decimal;
    var s := Decimal(w) + t;
    DecimalDigits(w);
    RunOf(Decimal(w), t);
    assert s[..|Decimal(w)|] == Decimal(w) && s[|Decimal(w)|..] == t;
  }

  lemma ParseWidth(w: nat, t: string, args: seq<Arg>, f: Flags)
    requires 1 <= w < TWO_32 && !f.dot && NoDigitFirst(t)
    ensures Parse(Decimal(w) + t, args, f) == Parse(t, args, f.(width := w))
  {
    hide Decimal, Strtoul;
    DecimalDigits(w);
    StrtoulDecimal(w, t);
    var s := Decimal(w) + t;
    assert s[0] == Decimal(w)[0] && IsDigit(s[0]) && s[0] != '0';
  }

  lemma StrtolDecimal(p: nat, t: string)
    requires p < TWO_31 && NoDigitFirst(t)
    ensures Strtol(Decimal(p) + t) == (p, t)
  {
    hide Decimal;
    var u := Decimal(p) + t;
    DecimalDigits(p);
    RunOf(Decimal(p), t);
    assert u[0] == Decimal(p)[0] && IsDigit(u[0]);
    assert SkipBlanks(u) == u;
    assert u[..|Decimal(p)|] == Decimal(p) && u[|Decimal(p)|..] == t;
  }

  lemma ParsePrecision(p: nat, t: string, args: seq<Arg>, f: Flags)
    requires p < TWO_31 && NoDigitFirst(t)
    ensures Parse("." + (Decimal(p) + t), args, f) == Parse(t, args, f.(dot := true, preci := p))
  {
    hide Decimal, Strtol;
    DecimalDigits(p);
    StrtolDecimal(p, t);
    var u := Decimal(p) + t;
    assert u[0] == Decimal(p)[0] && IsDigit(u[0]);
    assert ("." + u)[1..] == u;
  }

  /** The flags a specification leaves, with the zero flag as far as it matters. */
  ghost predicate Means(d: Directive, f: Flags) {
    && f.hash == ('#' in d.flags) && f.left == ('-' in d.flags)
    && f.plus == ('+' in d.flags) && f.space == (' ' in d.flags)
    && (!f.left ==> f.zero == ('0' in d.flags))
    && f.long == Long(d.length)
    && f.width == WidthOf(d)
    && f.dot == (d.prec != Absent) && f.preci == (match Given(d.prec) case Some(p) => p case None => 0)
  }

  function WidthText(a: Amount): string {
    match a case Written(w) => Decimal(w) case Passed(_) => "*" case _ => ""
  }

  function PrecText(a: Amount): string {
    match a case Absent => "" case Bare => "." case Written(p) => "." + Decimal(p) case Passed(_) => ".*"
  }

  /** What the width and the precision set. */
  function WithWidth(f: Flags, a: Amount): Flags
    requires InInt(a)
  {
    if Given(a).Some? then f.(width := Given(a).value) else f
  }

  function WithPrec(f: Flags, a: Amount): Flags
    requires InInt(a)
  {
    if Given(a).Some? then f.(dot := true, preci := Given(a).value) else f
  }

  lemma StarStep(s: string, args: seq<Arg>, f: Flags)
    requires s != "" && s[0] == '*' && args != [] && args[0].Int?
    ensures Parse(s, args, f) == Parse(s[1..], args[1..], f.(width := args[0].i % TWO_32))
  {
  }

  lemma ParseStar(n: nat, t: string, args: seq<Arg>, f: Flags)
    requires n < TWO_31
    ensures Parse("*" + t, [Int(n)] + args, f) == Parse(t, args, f.(width := n))
  {
    var s, all := "*" + t, [Int(n)] + args;
    StarStep(s, all, f);
    hide Parse;
    assert all[1..] == args && s[1..] == t && n % TWO_32 == n;
  }

  lemma ParseDotStar(n: int32, t: string, args: seq<Arg>, f: Flags)
    ensures Parse(".*" + t, [Int(n)] + args, f) == Parse(t, args, f.(dot := true, preci := Max(n, 0)))
  {
    hide Strtoul, Strtol;
    var s, all := ".*" + t, [Int(n)] + args;
    assert all[0] == Int(n) && all[1..] == args && s[0] == '.' && s[1..] == "*" + t;
    assert s[1..][0] == '*' && s[1..][1..] == t;
  }

  lemma ParseWidthText(a: Amount, t: string, args: seq<Arg>, f: Flags)
    requires a != Bare && a != Written(0) && !Negative(a) && InInt(a)
    requires !f.dot && NoDigitFirst(t)
    ensures Parse(WidthText(a) + t, Stars(a) + args, f) == Parse(t, args, WithWidth(f, a))
  {
    hide Parse, Decimal;
    match a
    case Written(w) =>
      ParseWidth(w, t, args, f);
      assert Stars(a) + args == args;
    case Passed(n) => ParseStar(n, t, args, f);
    case Absent =>
      assert WidthText(a) + t == t;
      assert Stars(a) + args == args;
  }

  /** Text that goes on with a letter. */
  predicate LetterFirst(s: string) { s != "" && 'A' <= s[0] <= 'z' }

  lemma ParseDot(t: string, args: seq<Arg>, f: Flags)
    requires LetterFirst(t)
    ensures Parse("." + t, args, f) == Parse(t, args, f.(dot := true, preci := 0))
  {
    var s := "." + t;
    assert s[1..] == t && SkipBlanks(t) == t;
    assert Strtol(t) == (0, t);
  }

  lemma ParsePrecText(a: Amount, t: string, args: seq<Arg>, f: Flags)
    requires InInt(a) && LetterFirst(t)
    ensures Parse(PrecText(a) + t, Stars(a) + args, f) == Parse(t, args, WithPrec(f, a))
  {
    hide Parse, Decimal;
    match a
    case Written(p) =>
      ParsePrecision(p, t, args, f);
      assert PrecText(a) + t == "." + (Decimal(p) + t);
      assert Stars(a) + args == args;
    case Passed(n) => ParseDotStar(n, t, args, f);
    case Bare =>
      ParseDot(t, args, f);
      assert Stars(a) + args == args;
    case Absent =>
      assert PrecText(a) + t == t;
      assert Stars(a) + args == args;
  }

  lemma FieldsMean(d: Directive, f3: Flags)
    requires WellFormed(d) && f3 == WithPrec(WithWidth(ModifyAll(NO_FLAGS, d.flags), d.width), d.prec)
    ensures Means(d, f3.(long := f3.long + Long(d.length)))
  {
    hide ModifyAll, Long;
    FlagsMean(d.flags, NO_FLAGS);
  }

  lemma LengthThenEnd(d: Directive, rest: string, args: seq<Arg>, f: Flags)
    requires WellFormed(d)
    ensures LetterFirst(d.length + ([d.conv] + rest))
    ensures Parse(d.length + ([d.conv] + rest), args, f) ==
      Conversion(d.conv, rest, args, f.(long := f.long + Long(d.length)))
  {
    hide Parse, ModifyAll, Long;
    var tail := [d.conv] + rest;
    assert (d.length + tail)[0] == if d.length == "" then d.conv else d.length[0];
    ParseModifiers(d.length, tail, args, f);
    LengthMeans(d.length, f);
    ParseEnd(d.conv, rest, args, ModifyAll(f, d.length));
  }

  lemma ParseDirective(d: Directive, rest: string, args: seq<Arg>) returns (f: Flags)
    requires WellFormed(d)
    ensures Parse(Source(d) + rest, Stars(d.width) + (Stars(d.prec) + args), NO_FLAGS) ==
      Conversion(d.conv, rest, args, f)
    ensures Means(d, f)
  {
    hide Decimal, ModifyAll, Parse, Long, WidthText, PrecText, Stars, WithPrec, Given, Means;
    hide FlagString, LengthString, LetterFirst, WithWidth, Negative, InInt;
    var t1 := d.length + ([d.conv] + rest);
    var t2 := PrecText(d.prec) + t1;
    var args1 := Stars(d.prec) + args;
    SourceIs(d, rest);
    hide Source;
    ParseFlags(d, WidthText(d.width) + t2, Stars(d.width) + args1);
    var f1 := ModifyAll(NO_FLAGS, d.flags);
    var f3 := WithPrec(WithWidth(f1, d.width), d.prec);
    LengthThenEnd(d, rest, args, f3);
    ParseAmounts(d, t1, args, f1);
    f := f3.(long := f3.long + Long(d.length));
    FieldsMean(d, f3);
  }

  lemma ParseAmounts(d: Directive, t: string, args: seq<Arg>, f: Flags)
    requires WellFormed(d) && !f.dot && LetterFirst(t)
    ensures Parse(WidthText(d.width) + (PrecText(d.prec) + t), Stars(d.width) + (Stars(d.prec) + args), f) ==
      Parse(t, args, WithPrec(WithWidth(f, d.width), d.prec))
  {
    hide Parse, WidthText, PrecText, Stars, Given;
    FirstOfPrec(d.prec, t);
    ParseWidthText(d.width, PrecText(d.prec) + t, Stars(d.prec) + args, f);
    ParsePrecText(d.prec, t, args, WithWidth(f, d.width));
  }

  lemma Regroup(a: string, b: string, c: string, d: string, e: string, rest: string)
    ensures a + b + c + d + e + rest == a + (b + (c + (d + (e + rest))))
  {
  }

  lemma SourceIs(d: Directive, rest: string)
    ensures Source(d) + rest ==
      d.flags + (WidthText(d.width) + (PrecText(d.prec) + (d.length + ([d.conv] + rest))))
  {
    hide WidthText, PrecText;
    Regroup(d.flags, WidthText(d.width), PrecText(d.prec), d.length, [d.conv], rest);
  }

  lemma FirstOfPrec(a: Amount, t: string)
    requires LetterFirst(t)
    ensures NoDigitFirst(PrecText(a) + t)
  {
  }

  lemma ParseFlags(d: Directive, t: string, args: seq<Arg>)
    requires WellFormed(d)
    ensures var f := ModifyAll(NO_FLAGS, d.flags);
      !f.dot && Parse(d.flags + t, args, NO_FLAGS) == Parse(t, args, f)
  {
    hide Parse, ModifyAll;
    ParseModifiers(d.flags, t, args, NO_FLAGS);
    FlagsMean(d.flags, NO_FLAGS);
  }

  lemma ParseEnd(c: char, rest: string, args: seq<Arg>, f: Flags)
    requires IsNumber(c) || c == 's'
    ensures Parse([c] + rest, args, f) == Conversion(c, rest, args, f)
  {
    assert ([c] + rest)[1..] == rest;
  }

  // ---- printing it ----

  /** The width after the sign has been taken off, for widths an `int` can hold. */
  lemma WidthAfterSign(w: nat, k: nat)
    requires w < TWO_31 && k <= 2
    ensures Signed((w - k) % TWO_32) == w - k
  {
  }

  /** `print_out` with the width as a number, for widths an `int` can hold. */
  lemma PrintOutWidth(f: Flags, sign: string, body: string)
    requires f.width < TWO_31 && |sign| <= 2
    ensures var width, vs := f.width - |sign|, Max(f.preci, |body|);
      PrintOut(f, sign, body) ==
        if f.width == 0 && f.preci == 0 then sign + body
        else if f.left then sign + Repeat(f.preci - |body|, '0') + body + Repeat(width - vs, ' ')
        else if f.dot then Repeat(width - vs, ' ') + sign + Repeat(f.preci - |body|, '0') + body
        else if f.zero then sign + Repeat(width - |body|, '0') + body
        else Repeat(width - |body|, ' ') + sign + body
  {
    WidthAfterSign(f.width, |sign|);
  }

  /** `print_out` in one line. */
  lemma PrintOutLaid(f: Flags, sign: string, body: string)
    requires f.width < TWO_31 && |sign| <= 2 && (!f.dot ==> f.preci == 0)
    ensures var pad := f.width - |sign| - Max(f.preci, |body|);
      PrintOut(f, sign, body) ==
        if f.left then Laid(0, sign, f.preci - |body|, body, pad)
        else if !f.dot && f.zero then Laid(0, sign, pad, body, 0)
        else Laid(pad, sign, f.preci - |body|, body, 0)
  {
    PrintOutWidth(f, sign, body);
    Empty();
    hide PrintOut, Repeat;
  }

  lemma Empty()
    ensures forall n, c :: n <= 0 ==> Repeat(n, c) == ""
    ensures forall s: string :: s + "" == s && "" + s == s
  {
  }

  /** A zero hidden by the precision comes back as padding. */
  lemma ZeroShown(blanks: int, sign: string, p: nat, after: int)
    requires p > 0
    ensures Laid(blanks, sign, p, "", after) == Laid(blanks, sign, p - 1, "0", after)
  {
    assert Repeat(p, '0') == Repeat(p - 1, '0') + "0";
  }

  /** `print_out` lays out sign or prefix, padding and digits as the standard asks. */
  lemma PrintOutIsIso(f: Flags, sign: string, digits: string)
    requires f.width < TWO_31 && |sign| <= 2 && digits != "" && (!f.dot ==> f.preci == 0)
    ensures PrintOut(f, sign, if f.dot && digits == "0" then "" else digits) ==
      IsoInteger(f.left, f.zero, f.width, Prec(f), sign, digits)
  {
    hide PrintOut, Laid, Repeat;
    var body := if f.dot && digits == "0" then "" else digits;
    var pad := f.width - |sign| - Max(f.preci, |body|);
    PrintOutLaid(f, sign, body);
    if f.dot && digits == "0" && f.preci > 0 {
      ZeroShown(0, sign, f.preci, pad);
      ZeroShown(pad, sign, f.preci, 0);
    }
    LaidMax(0, sign, f.preci - |body|, body, pad);
    LaidMax(pad, sign, f.preci - |body|, body, 0);
  }

  lemma LaidMax(blanks: int, sign: string, zeros: int, digits: string, after: int)
    ensures Laid(blanks, sign, zeros, digits, after) == Laid(blanks, sign, Max(zeros, 0), digits, after)
  {
    assert Repeat(zeros, '0') == Repeat(Max(zeros, 0), '0');
  }

  ghost function Prec(f: Flags): Option<nat> { if f.dot then Some(f.preci) else None }

  /** A number's field, with whatever prefix `#` puts in front. */
  lemma NumberIsLaid(f: Flags, c: char, v: int)
    requires f.width < TWO_31 && f.preci < TWO_31 && (!f.dot ==> f.preci == 0) && HashCovered(f, c)
    ensures NumberField(f, c, v) ==
      IsoInteger(f.left, f.zero, f.width, Prec(f), Sign(f, IsSigned(c), v) + AltPrefix(f, c),
                 Numeral(Magnitude(f, IsSigned(c), v), Base(c), c == 'X'))
  {
    hide Magnitude, Numeral, PrintOut, IsoInteger;
    var digits := Numeral(Magnitude(f, IsSigned(c), v), Base(c), c == 'X');
    var sign := Sign(f, IsSigned(c), v) + AltPrefix(f, c);
    NumeralNonempty(Magnitude(f, IsSigned(c), v), Base(c), c == 'X');
    PrintOutIsIso(f, sign, digits);
    if c in "xX" && f.preci > f.width {
      assert sign == "";
      WiderPrecision(f, if f.dot && digits == "0" then "" else digits);
    }
  }

  lemma NumeralNonempty(m: nat, base: nat, up: bool)
    requires 2 <= base <= 36
    ensures Numeral(m, base, up) != "" && Value(Numeral(m, base, up), base) == m
    ensures Numeral(m, base, up) == "0" <==> m == 0
    ensures forall k :: 0 <= k < |Numeral(m, base, up)| ==> DigitOf(Numeral(m, base, up)[k], base, up)
  {
    if m == 0 {
      assert "0"[..0] == [];
      assert DigitOf(DigitChar(0, up), base, up);
    } else {
      NoLeadingZero(m, base, up);
      DigitsValue(m, base, up);
      DigitsOfBase(m, base, up);
    }
  }

  /** Widening the field to the precision first, as %x does, changes nothing. */
  lemma WiderPrecision(f: Flags, body: string)
    requires f.dot && f.width < f.preci < TWO_31
    ensures PrintOut(f.(width := f.preci), "", body) == PrintOut(f, "", body)
  {
  }

  // ---- what an integer field says ----

  function TrimLeft(s: string): string { if s != "" && s[0] == ' ' then TrimLeft(s[1..]) else s }
  function TrimRight(s: string): string { if s != "" && s[|s| - 1] == ' ' then TrimRight(s[..|s| - 1]) else s }

  /** Strip blanks, take a sign, read digits; no digits mean 0. */
  function ReadInteger(s: string, base: nat): int {
    var t := TrimRight(TrimLeft(s));
    if t != "" && t[0] == '-' then var v: int := Value(t[1..], base); -v
    else if t != "" && t[0] == '+' then Value(t[1..], base)
    else Value(t, base)
  }

  lemma {:induction false} TrimLeftBlanks(n: nat, s: string)
    ensures TrimLeft(Repeat(n, ' ') + s) == TrimLeft(s)
  {
    var t := Repeat(n, ' ') + s;
    if n == 0 {
      assert t == s;
    } else {
      assert t[1..] == Repeat(n - 1, ' ') + s;
      TrimLeftBlanks(n - 1, s);
    }
  }

  lemma {:induction false} TrimRightBlanks(s: string, n: nat)
    ensures TrimRight(s + Repeat(n, ' ')) == TrimRight(s)
  {
    var t := s + Repeat(n, ' ');
    if n == 0 {
      assert t == s;
    } else {
      assert t[..|t| - 1] == s + Repeat(n - 1, ' ');
      TrimRightBlanks(s, n - 1);
    }
  }

  lemma {:induction false} ZerosValue(n: nat, s: string, base: nat)
    ensures Value(Repeat(n, '0') + s, base) == Value(s, base)
  {
    var t := Repeat(n, '0') + s;
    if n == 0 {
      assert t == s;
    } else {
      assert t == "0" + (Repeat(n - 1, '0') + s);
      LeadingZeroValue(Repeat(n - 1, '0') + s, base);
      ZerosValue(n - 1, s, base);
    }
  }

  ghost predicate Unblank(s: string) {
    forall k :: 0 <= k < |s| ==> s[k] !in " +-"
  }

  lemma ReadPadded(a: nat, sign: string, ds: string, b: nat, base: nat)
    requires sign in {"", " ", "+", "-"} && Unblank(ds)
    ensures ReadInteger(Repeat(a, ' ') + sign + ds + Repeat(b, ' '), base) ==
      (if sign == "-" then -1 else 1) * Value(ds, base)
  {
    var s := Repeat(a, ' ') + sign + ds + Repeat(b, ' ');
    if sign == "+" || sign == "-" {
      var core := sign + ds;
      assert s == Repeat(a, ' ') + (core + Repeat(b, ' '));
      TrimLeftBlanks(a, core + Repeat(b, ' '));
      TrimRightBlanks(core, b);
      assert core[1..] == ds;
    } else {
      var a' := a + |sign|;
      assert s == Repeat(a', ' ') + (ds + Repeat(b, ' '));
      TrimLeftBlanks(a', ds + Repeat(b, ' '));
      if ds == "" {
        assert ds + Repeat(b, ' ') == Repeat(b, ' ') + "";
        TrimLeftBlanks(b, "");
      } else {
        TrimRightBlanks(ds, b);
      }
    }
  }

  lemma NumeralUnblank(m: nat, base: nat, up: bool)
    requires 2 <= base <= 36
    ensures Unblank(Numeral(m, base, up))
  {
    hide Numeral;
    NumeralNonempty(m, base, up);
    forall k | 0 <= k < |Numeral(m, base, up)| ensures Numeral(m, base, up)[k] !in " +-" {
      assert DigitOf(Numeral(m, base, up)[k], base, up);
    }
  }

  /** For every flag combination, width and precision the standard's field is as wide as asked and no
      wider than needed, and reads back as the number printed. */
  lemma IsoIntegerMeans(
      left: bool, zero: bool, width: nat, prec: Option<nat>, sign: string, m: nat, base: nat, up: bool)
    requires sign in {"", " ", "+", "-"} && 2 <= base <= 36
    ensures var digits := Numeral(m, base, up);
      var field := IsoInteger(left, zero, width, prec, sign, digits);
      var shown := if prec == Some(0) && m == 0 then 0 else |digits|;
      && |field| == Max(width, |sign| + Max(match prec case Some(p) => p case None => 0, shown))
      && ReadInteger(field, base) == (if sign == "-" then -1 else 1) * m
  {
    hide Numeral, Laid, ReadInteger;
    var digits := Numeral(m, base, up);
    NumeralNonempty(m, base, up);
    var shown := if prec == Some(0) && digits == "0" then "" else digits;
    var z := match prec case Some(p) => Max(p - |shown|, 0) case None => 0;
    var pad := width - |sign| - z - |shown|;
    NumeralUnblank(m, base, up);
    assert shown == "" ==> Value(shown, base) == 0 == m;
    LaidMeans(0, sign, z, shown, pad, base);
    LaidMeans(0, sign, pad, shown, 0, base);
    LaidMeans(pad, sign, z, shown, 0, base);
  }

  lemma LaidMeans(a: int, sign: string, z: int, shown: string, b: int, base: nat)
    requires sign in {"", " ", "+", "-"} && Unblank(shown)
    ensures var s := Laid(a, sign, z, shown, b);
      && |s| == Max(a, 0) + |sign| + Max(z, 0) + |shown| + Max(b, 0)
      && ReadInteger(s, base) == (if sign == "-" then -1 else 1) * Value(shown, base)
  {
    hide ReadInteger;
    var ds := Repeat(z, '0') + shown;
    var a', b' := Max(a, 0), Max(b, 0);
    assert Laid(a, sign, z, shown, b) == Repeat(a', ' ') + sign + ds + Repeat(b', ' ') by {
      assert Repeat(a, ' ') == Repeat(a', ' ') && Repeat(b, ' ') == Repeat(b', ' ');
    }
    ReadPadded(a', sign, ds, b', base);
    ZerosValue(Max(z, 0), shown, base);
    assert Repeat(z, '0') == Repeat(Max(z, 0), '0');
  }

  // ---- the alternative form ----

  /** `#` on x, X and o: a leading zero for o, and 0x or 0X for x or X when the number is not zero. */
  function IsoAlternative(left: bool, zero: bool, width: nat, c: char, digits: string): string {
    if c == 'o' then
      IsoInteger(left, zero, width, None, "", if digits != "" && digits[0] == '0' then digits else "0" + digits)
    else
      IsoInteger(left, zero, width, None, if digits == "0" then "" else HashPrefix(c), digits)
  }

  function HashPrefix(c: char): string { if c == 'o' then "0" else ['0', c] }

  lemma LaidZero(a: int, z: int, digits: string, b: int)
    ensures Laid(a, "0", z, digits, b) == Laid(a, "", z, "0" + digits, b)
  {
    assert "0" + Repeat(z, '0') == Repeat(z, '0') + "0";
  }

  /** For o a leading zero in the digits comes to the same as a zero in front of them. */
  lemma OctalPrefix(left: bool, zero: bool, width: nat, digits: string)
    requires digits != "" && digits[0] != '0'
    ensures IsoInteger(left, zero, width, None, "0", digits) == IsoInteger(left, zero, width, None, "", "0" + digits)
  {
    hide Laid;
    var pad := width - 1 - |digits|;
    LaidZero(0, 0, digits, pad);
    LaidZero(0, pad, digits, 0);
    LaidZero(pad, 0, digits, 0);
  }

  /** Every character of the field of a zero without prefix is a blank or a zero. */
  lemma ZeroField(left: bool, zero: bool, width: nat)
    ensures var t := IsoInteger(left, zero, width, None, "", "0");
      && |t| == Max(width, 1)
      && forall k :: 0 <= k < |t| ==>
        t[k] == if !left && zero then '0' else if k == (if left then 0 else |t| - 1) then '0' else ' '
  {
  }

  lemma HexZeroDiffers(left: bool, zero: bool, width: nat, c: char)
    requires c in "xX"
    ensures IsoInteger(left, zero, width, None, ['0', c], "0") != IsoInteger(left, zero, width, None, "", "0")
  {
    var pad := width - 3;
    var t := IsoInteger(left, zero, width, None, ['0', c], "0");
    var k := if left || zero then 1 else Max(pad, 0) + 1;
    assert t[k] == c;
    ZeroField(left, zero, width);
  }

  lemma OctalZeroIff(left: bool, zero: bool, width: nat)
    ensures IsoInteger(left, zero, width, None, "0", "0") == IsoInteger(left, zero, width, None, "", "0")
      <==> !left && zero && width >= 2
  {
    var pad := width - 2;
    var t, u := IsoInteger(left, zero, width, None, "0", "0"), IsoInteger(left, zero, width, None, "", "0");
    ZeroField(left, zero, width);
    assert |t| == Max(width, 2);
    if !left && zero {
      assert forall k :: 0 <= k < |t| ==> t[k] == '0';
    } else {
      var k := if left then 1 else |t| - 2;
      assert t[k] == '0';
    }
  }

  // ---- precision 0 and no precision ----

  /** The two fields are the same exactly when there are digits to show and no zeros to pad with. */
  lemma PrecisionZeroIff(left: bool, zero: bool, width: nat, sign: string, digits: string)
    requires sign in {"", " ", "+", "-"} && digits != ""
    ensures IsoInteger(left, zero, width, Some(0), sign, digits) == IsoInteger(left, zero, width, None, sign, digits)
      <==> digits != "0" && !(zero && !left && width > |sign| + |digits|)
  {
    hide Laid;
    if digits == "0" {
      NothingShown(left, zero, width, sign);
      ZeroIsShown(left, zero, width, sign);
    } else if zero && !left && width > |sign| + |digits| {
      PaddingDiffers(width - |sign| - |digits|, sign, digits);
    } else {
      NoPadding(width - |sign| - |digits|, sign, digits);
    }
  }

  lemma NoPadding(pad: int, sign: string, digits: string)
    ensures pad <= 0 ==> Laid(pad, sign, 0, digits, 0) == Laid(0, sign, pad, digits, 0)
  {
    Empty();
  }

  lemma PaddingDiffers(pad: int, sign: string, digits: string)
    requires sign in {"", " ", "+", "-"} && pad > 0
    ensures Laid(pad, sign, 0, digits, 0) != Laid(0, sign, pad, digits, 0)
  {
    var t, u := Laid(pad, sign, 0, digits, 0), Laid(0, sign, pad, digits, 0);
    assert u[|sign|] == '0';
    assert t[|sign|] == if |sign| < pad then ' ' else sign[|sign| - pad];
  }

  lemma NothingShown(left: bool, zero: bool, width: nat, sign: string)
    requires sign in {"", " ", "+", "-"}
    ensures '0' !in IsoInteger(left, zero, width, Some(0), sign, "0")
  {
    var pad := width - |sign|;
    assert '0' !in Repeat(pad, ' ') && '0' !in sign;
  }

  lemma ZeroIsShown(left: bool, zero: bool, width: nat, sign: string)
    ensures '0' in IsoInteger(left, zero, width, None, sign, "0")
  {
  }

  // ---- the whole conversion ----

  /** The number a conversion is asked to print: the argument itself when signed, its value modulo
      the width of the type when not. */
  function Printed(long: int, signed: bool, v: int): int {
    if signed then v
    else v % (if long > 1 then TWO_64 else if long >= 0 then TWO_32 else if long == -1 then TWO_16 else TWO_8)
  }

  /** Arguments of the promoted type that fit the length modifier. */
  predicate Fits(long: int, signed: bool, v: int) {
    && (if long > 1 then -TWO_63 <= v < TWO_63 else -TWO_31 <= v < TWO_31)
    && (signed && long == -1 ==> -0x8000 <= v < 0x8000)
    && (signed && long < -1 ==> -0x80 <= v < 0x80)
  }

  lemma MagnitudePrinted(f: Flags, signed: bool, v: int)
    requires Fits(f.long, signed, v)
    ensures Magnitude(f, signed, v) == Abs(Printed(f.long, signed, v))
    ensures Printed(f.long, signed, v) < 0 <==> signed && v < 0
  {
    if !signed {
      ModMod(v, TWO_16, TWO_16);
      ModMod(v, TWO_8, 0x100_0000);
    }
  }

  lemma ModMod(v: int, m: nat, k: nat)
    requires m >= 1 && k >= 1 && m * k == TWO_32
    ensures v % TWO_32 % m == v % m
  {
    var q, r := v / TWO_32, v % TWO_32;
    var t, u := r / m, r % m;
    assert v == m * (k * q + t) + u by {
      assert TWO_32 * q == m * (k * q);
      assert m * (k * q + t) == m * (k * q) + m * t;
    }
    ModUnique(v, m, k * q + t, u);
  }

  lemma ModUnique(v: int, m: nat, t: int, u: nat)
    requires m >= 1 && v == m * t + u && u < m
    ensures v % m == u
  {
    var q := v / m;
    assert v == m * q + v % m;
    assert m * (q - t) == m * q - m * t;
    if q > t {
      assert m * (q - t) >= m * 1 by { MulMono(m, m, q - t, 1); }
    } else if q < t {
      assert m * (t - q) == m * t - m * q;
      assert m * (t - q) >= m * 1 by { MulMono(m, m, t - q, 1); }
    }
  }

  function ArgOf(long: int, v: int): Arg
    requires Fits(long, false, v)
  {
    if long > 1 then Long64(v) else Int(v)
  }

  function SignOf(d: Directive, n: int): string {
    if n < 0 then "-"
    else if IsSigned(d.conv) && '+' in d.flags then "+"
    else if IsSigned(d.conv) && ' ' in d.flags then " "
    else ""
  }

  function Abs(n: int): nat { if n < 0 then 0 - n else n }

  function DigitsOf(d: Directive, v: int): string {
    Numeral(Abs(Printed(Long(d.length), IsSigned(d.conv), v)), Base(d.conv), d.conv == 'X')
  }

  /** The standard's field for directive `d` and argument `v`. */
  function NumberText(d: Directive, v: int): string {
    var n, digits := Printed(Long(d.length), IsSigned(d.conv), v), DigitsOf(d, v);
    if '#' in d.flags
    then IsoAlternative('-' in d.flags, '0' in d.flags, WidthOf(d), d.conv, digits)
    else IsoInteger('-' in d.flags, '0' in d.flags, WidthOf(d), Asked(d.prec), SignOf(d, n), digits)
  }

  /** Directives that print numbers, with `#` only on x, X and o and without precision, and arguments
      that fit them. */
  predicate NumberCovered(d: Directive, v: int) {
    && WellFormed(d) && IsNumber(d.conv) && Fits(Long(d.length), IsSigned(d.conv), v)
    && ('#' in d.flags ==> d.conv in "xXo" && d.prec == Absent)
  }

  /** With `#` besides: the number is not zero, or it is an octal zero among padding zeros. */
  predicate AlternativeOk(d: Directive, v: int) {
    || Printed(Long(d.length), IsSigned(d.conv), v) != 0
    || (d.conv == 'o' && '0' in d.flags && '-' !in d.flags && WidthOf(d) >= 2)
  }

  /** With a negative precision: the number has digits, and the field no padding zeros. */
  predicate NegativeOk(d: Directive, v: int) {
    var n := Printed(Long(d.length), IsSigned(d.conv), v);
    n != 0 && !('0' in d.flags && '-' !in d.flags && WidthOf(d) > |SignOf(d, n)| + |DigitsOf(d, v)|)
  }

  predicate NumberOk(d: Directive, v: int) {
    && NumberCovered(d, v)
    && ('#' in d.flags ==> AlternativeOk(d, v))
    && (Negative(d.prec) ==> NegativeOk(d, v))
  }

  /** The length of the field is max(width, sign + max(precision, digits)), and it reads back as the
      number asked for; a zero with precision 0 has no digits. */
  lemma NumberTextMeans(d: Directive, v: int)
    requires NumberCovered(d, v) && '#' !in d.flags
    ensures var n := Printed(Long(d.length), IsSigned(d.conv), v);
      var digits := if Asked(d.prec) == Some(0) && n == 0 then 0 else |DigitsOf(d, v)|;
      var least := match Asked(d.prec) case Some(p) => p case None => 0;
      && |NumberText(d, v)| == Max(WidthOf(d), |SignOf(d, n)| + Max(least, digits))
      && ReadInteger(NumberText(d, v), Base(d.conv)) == n
  {
    hide IsoInteger, ReadInteger, Numeral;
    var n := Printed(Long(d.length), IsSigned(d.conv), v);
    MagnitudePrinted(NO_FLAGS.(long := Long(d.length)), IsSigned(d.conv), v);
    IsoIntegerMeans('-' in d.flags, '0' in d.flags, WidthOf(d), Asked(d.prec), SignOf(d, n),
                    Abs(n), Base(d.conv), d.conv == 'X');
  }

  /** An alternative field without blanks and without the prefix of x and X. */
  function ReadAlternative(s: string, c: char): int {
    if c == 'o' then ReadInteger(s, 8) else
    var t := TrimRight(TrimLeft(s));
    if |t| < 2 || t[0] != '0' || t[1] != c then -1 else Value(t[2..], 16)
  }

  lemma AlternativeMeans(left: bool, zero: bool, width: nat, c: char, digits: string)
    requires c in "xXo" && digits != "" && digits[0] != '0' && Unblank(digits)
    ensures var t := IsoAlternative(left, zero, width, c, digits);
      && |t| == Max(width, |HashPrefix(c)| + |digits|)
      && ReadAlternative(t, c) == Value(digits, Base(c))
  {
    hide Laid, ReadAlternative;
    if c == 'o' { OctalPrefix(left, zero, width, digits); }
    var pad := width - |HashPrefix(c)| - |digits|;
    PrefixedMeans(0, c, 0, digits, pad);
    PrefixedMeans(0, c, pad, digits, 0);
    PrefixedMeans(pad, c, 0, digits, 0);
  }

  /** With `#` the field of a number other than zero has length max(width, prefix + digits) and reads
      back as the number too. */
  lemma AlternativeTextMeans(d: Directive, v: int)
    requires NumberCovered(d, v) && '#' in d.flags && Printed(Long(d.length), IsSigned(d.conv), v) != 0
    ensures |NumberText(d, v)| == Max(WidthOf(d), |HashPrefix(d.conv)| + |DigitsOf(d, v)|)
    ensures ReadAlternative(NumberText(d, v), d.conv) == Printed(Long(d.length), IsSigned(d.conv), v)
  {
    hide Numeral, ReadAlternative, IsoAlternative;
    var n := Printed(Long(d.length), IsSigned(d.conv), v);
    MagnitudePrinted(NO_FLAGS.(long := Long(d.length)), IsSigned(d.conv), v);
    NumeralNonempty(Abs(n), Base(d.conv), d.conv == 'X');
    AlternativeNonzero(d, n);
    NumeralUnblank(Abs(n), Base(d.conv), d.conv == 'X');
    AlternativeMeans('-' in d.flags, '0' in d.flags, WidthOf(d), d.conv, DigitsOf(d, v));
  }

  lemma PrefixedMeans(a: int, c: char, z: int, digits: string, b: int)
    requires c in "xXo" && digits != "" && Unblank(digits)
    ensures var s := Laid(a, HashPrefix(c), z, digits, b);
      && |s| == Max(a, 0) + |HashPrefix(c)| + Max(z, 0) + |digits| + Max(b, 0)
      && ReadAlternative(s, c) == Value(digits, Base(c))
  {
    var s, zeros := Laid(a, HashPrefix(c), z, digits, b), Max(z, 0);
    hide ReadAlternative, Value, ReadInteger;
    assert Repeat(a, ' ') == Repeat(Max(a, 0), ' ') && Repeat(z, '0') == Repeat(zeros, '0');
    assert Repeat(b, ' ') == Repeat(Max(b, 0), ' ');
    if c == 'o' {
      OctalMeans(Max(a, 0), zeros, digits, Max(b, 0));
    } else {
      HexMeans(Max(a, 0), c, zeros, digits, Max(b, 0));
    }
  }

  lemma OctalMeans(a: nat, z: nat, digits: string, b: nat)
    requires digits != "" && Unblank(digits)
    ensures ReadAlternative(Laid(a, "0", z, digits, b), 'o') == Value(digits, 8)
  {
    LaidZero(a, z, digits, b);
    hide Laid, Value, ReadInteger;
    LaidMeans(a, "", z, "0" + digits, b, 8);
    LeadingZeroValue(digits, 8);
  }

  lemma HexMeans(a: nat, c: char, z: nat, digits: string, b: nat)
    requires c in "xX" && digits != "" && Unblank(digits)
    ensures ReadAlternative(Laid(a, ['0', c], z, digits, b), c) == Value(digits, 16)
  {
    var core := ['0', c] + (Repeat(z, '0') + digits);
    assert Laid(a, ['0', c], z, digits, b) == Repeat(a, ' ') + (core + Repeat(b, ' '));
    TrimLeftBlanks(a, core + Repeat(b, ' '));
    assert TrimLeft(core + Repeat(b, ' ')) == core + Repeat(b, ' ');
    TrimRightBlanks(core, b);
    assert core[|core| - 1] == digits[|digits| - 1];
    assert core[2..] == Repeat(z, '0') + digits;
    ZerosValue(z, digits, 16);
  }

  /** The arguments of one conversion: those of its stars, then its own. */
  function NumberArgs(d: Directive, v: int): seq<Arg>
    requires WellFormed(d) && Fits(Long(d.length), false, v)
  {
    Stars(d.width) + (Stars(d.prec) + [ArgOf(Long(d.length), v)])
  }

  lemma ArgsGrouped(a: seq<Arg>, b: seq<Arg>, x: Arg, more: seq<Arg>)
    ensures (a + (b + [x])) + more == a + (b + ([x] + more))
  {
  }

  /** What the code prints for a covered directive: its flags, width and precision laid out with the
      prefix always in front under `#`. */
  function CodeText(d: Directive, v: int): string {
    var n := Printed(Long(d.length), IsSigned(d.conv), v);
    IsoInteger('-' in d.flags, '0' in d.flags, WidthOf(d), Given(d.prec),
               SignOf(d, n) + (if '#' in d.flags then HashPrefix(d.conv) else ""), DigitsOf(d, v))
  }

  lemma CodePrints(d: Directive, v: int, rest: string, more: seq<Arg>)
    requires NumberCovered(d, v)
    ensures Fits(Long(d.length), false, v)
    ensures Render("%" + Source(d) + rest, NumberArgs(d, v) + more) == Prepend(CodeText(d, v), Render(rest, more))
  {
    hide IsoInteger, Numeral, NumberField, Parse, Source, Render, Stars;
    var signed, long := IsSigned(d.conv), Long(d.length);
    var args := [ArgOf(long, v)] + more;
    var f := ParseDirective(d, rest, args);
    MagnitudePrinted(f, signed, v);
    var n := Printed(long, signed, v);
    NumberIsLaid(f, d.conv, v);
    var sign := Sign(f, signed, v) + AltPrefix(f, d.conv);
    LeftIgnoresZero(f.zero, '0' in d.flags, f.width, Given(d.prec), sign, DigitsOf(d, v));
    assert args[1..] == more;
    ArgsGrouped(Stars(d.width), Stars(d.prec), ArgOf(long, v), more);
    OneDirective(d, rest, NumberArgs(d, v) + more, args, f, CodeText(d, v));
  }

  /** %d, %i, %u, %x, %X, %o and %b with any flags among `-`, `+`, space and `0` in any order, any
      width and precision an `int` can hold, in digits or by `*`, and any length modifiers, and `#` on
      x, X and o: the code parses the directive, takes its arguments and prints the standard's
      field, whatever follows. */
  lemma NumberDirective(d: Directive, v: int, rest: string, more: seq<Arg>)
    requires NumberOk(d, v)
    ensures Fits(Long(d.length), false, v)
    ensures Render("%" + Source(d) + rest, NumberArgs(d, v) + more) == Prepend(NumberText(d, v), Render(rest, more))
  {
    hide Render, Source, NumberArgs, CodeText, NumberText;
    CodePrints(d, v, rest, more);
    CodeIsIsoIff(d, v);
  }

  lemma LeftIgnoresZero(z1: bool, z2: bool, width: nat, prec: Option<nat>, sign: string, digits: string)
    ensures IsoInteger(true, z1, width, prec, sign, digits) == IsoInteger(true, z2, width, prec, sign, digits)
  {
  }

  /** A directive at the head of a format renders as its one field. */
  lemma OneDirective(d: Directive, rest: string, all: seq<Arg>, args: seq<Arg>, f: Flags, text: string)
    requires Parse(Source(d) + rest, all, NO_FLAGS) == Conversion(d.conv, rest, args, f) && args != []
    requires OneField(d.conv, f, args) == Field.Text(text, args[1..])
    ensures Render("%" + Source(d) + rest, all) == Prepend(text, Render(rest, args[1..]))
  {
    hide Parse, Source, OneField;
    var s := "%" + Source(d) + rest;
    assert SkipTo(s) == 0 && s[1..] == Source(d) + rest && s[..0] == "";
    assert "" + text == text;
    assert OneTurn(s, all) == More(text, rest, args[1..]);
  }

  lemma LaidString(pad: int, none: int, shown: string)
    requires none <= 0
    ensures Laid(0, "", none, shown, pad) == shown + Repeat(pad, ' ')
    ensures Laid(pad, "", none, shown, 0) == Repeat(pad, ' ') + shown
  {
    Empty();
  }

  lemma StringFieldIsIso(f: Flags, s: string)
    requires f.width < TWO_31
    ensures StringField(f, s) == IsoString(f.left, f.width, Prec(f), s)
    ensures |StringField(f, s)| == Max(f.width, if f.dot then Min(f.preci, |s|) else |s|)
  {
    hide PrintOut, Laid;
    var shown := s[..if f.dot then Min(f.preci, |s|) else |s|];
    assert s[..|s|] == s;
    PrintOutLaid(f.(preci := 0, dot := false, zero := false), "", shown);
    LaidString(f.width - |shown|, -|shown|, shown);
  }

  function StringText(d: Directive, s: string): string {
    IsoString('-' in d.flags, WidthOf(d), Asked(d.prec), s)
  }

  predicate StringCovered(d: Directive) { WellFormed(d) && d.conv == 's' && '#' !in d.flags }

  predicate StringOk(d: Directive, s: string) {
    StringCovered(d) && (Negative(d.prec) ==> BlankWithin(s, WidthOf(d)))
  }

  function StringArgs(d: Directive, s: string): seq<Arg>
    requires WellFormed(d)
  {
    Stars(d.width) + (Stars(d.prec) + [Str(s)])
  }

  /** What the code prints. */
  lemma CodePrintsString(d: Directive, s: string, rest: string, more: seq<Arg>)
    requires StringCovered(d)
    ensures Render("%" + Source(d) + rest, StringArgs(d, s) + more) ==
      Prepend(IsoString('-' in d.flags, WidthOf(d), Given(d.prec), s), Render(rest, more))
  {
    hide Parse, Source, StringField, IsoString, NumberField, Render, Stars;
    var args := [Str(s)] + more;
    var f := ParseDirective(d, rest, args);
    StringFieldIsIso(f, s);
    assert args[1..] == more;
    ArgsGrouped(Stars(d.width), Stars(d.prec), Str(s), more);
    OneDirective(d, rest, StringArgs(d, s) + more, args, f, StringField(f, s));
  }

  lemma IsoStringLength(left: bool, width: nat, prec: Option<nat>, s: string)
    ensures |IsoString(left, width, prec, s)| == Max(width, match prec case Some(p) => Min(p, |s|) case None => |s|)
  {
  }

  predicate BlankWithin(s: string, width: nat) {
    |s| <= width && forall k :: 0 <= k < |s| ==> s[k] == ' '
  }

  /** A negative precision prints nothing of the string, where the standard asks for all of it; that is
      the same exactly for blanks within the width. */
  lemma NegativeStringIff(left: bool, width: nat, s: string)
    ensures IsoString(left, width, Some(0), s) == IsoString(left, width, None, s) <==> BlankWithin(s, width)
  {
    var none, all := IsoString(left, width, Some(0), s), IsoString(left, width, None, s);
    assert s[..Min(0, |s|)] == "" && none == Repeat(width, ' ');
    var at := if left then 0 else Max(width - |s|, 0);
    assert forall k :: 0 <= k < |s| ==> all[at + k] == s[k];
    if none == all {
      assert forall k :: 0 <= k < |s| ==> s[k] == none[at + k];
    }
  }

  /** %s with any flags, width and precision: at most precision characters, padded with blanks. */
  lemma StringDirective(d: Directive, s: string, rest: string, more: seq<Arg>)
    requires StringOk(d, s)
    ensures Render("%" + Source(d) + rest, StringArgs(d, s) + more) == Prepend(StringText(d, s), Render(rest, more))
    ensures |StringText(d, s)| == Max(WidthOf(d), match Asked(d.prec) case Some(p) => Min(p, |s|) case None => |s|)
  {
    CodePrintsString(d, s, rest, more);
    IsoStringLength('-' in d.flags, WidthOf(d), Asked(d.prec), s);
    hide Source, Render, Stars, StringArgs, IsoString, BlankWithin;
    NegativeStringIff('-' in d.flags, WidthOf(d), s);
  }

  // ---- where the code and the standard part ----

  /** What the code prints is the standard's field always without `#` and without a negative
      precision.  With `#` it is exactly when the number is not zero or is an octal zero among
      padding zeros, and with a negative precision exactly when the number is not zero and the field
      has no padding zeros. */
  lemma CodeIsIsoIff(d: Directive, v: int)
    requires NumberCovered(d, v)
    ensures CodeText(d, v) == NumberText(d, v) <==>
      ('#' in d.flags ==> AlternativeOk(d, v)) && (Negative(d.prec) ==> NegativeOk(d, v))
  {
    hide IsoInteger, Numeral;
    var n, digits := Printed(Long(d.length), IsSigned(d.conv), v), DigitsOf(d, v);
    var left, zero, width := '-' in d.flags, '0' in d.flags, WidthOf(d);
    var sign := SignOf(d, n);
    assert sign + "" == sign;
    NumeralNonempty(Abs(n), Base(d.conv), d.conv == 'X');
    if '#' in d.flags {
      assert sign == "" && sign + HashPrefix(d.conv) == HashPrefix(d.conv);
      if n != 0 {
        AlternativeNonzero(d, n);
        if d.conv == 'o' { OctalPrefix(left, zero, width, digits); }
      } else if d.conv == 'o' {
        OctalZeroIff(left, zero, width);
      } else {
        HexZeroDiffers(left, zero, width, d.conv);
      }
    } else if Negative(d.prec) {
      PrecisionZeroIff(left, zero, width, sign, digits);
    }
  }

  lemma AlternativeNonzero(d: Directive, n: int)
    requires n != 0 && d.conv in "xXo"
    ensures Numeral(Abs(n), Base(d.conv), d.conv == 'X') != ""
    ensures Numeral(Abs(n), Base(d.conv), d.conv == 'X')[0] != '0'
  {
    NoLeadingZero(Abs(n), Base(d.conv), d.conv == 'X');
  }

  /** So a whole call with `#` prints the standard's text exactly under that condition. */
  lemma AlternativeFormIff(d: Directive, v: int)
    requires NumberCovered(d, v) && '#' in d.flags
    ensures Fits(Long(d.length), false, v)
    ensures Render("%" + Source(d), NumberArgs(d, v)) == Done(NumberText(d, v)) <==> AlternativeOk(d, v)
  {
    hide CodeText, NumberText, Source, NumberArgs, Render;
    CodePrints(d, v, "", []);
    CodeIsIsoIff(d, v);
    NothingLeft([]);
    assert "%" + Source(d) + "" == "%" + Source(d) && NumberArgs(d, v) + [] == NumberArgs(d, v);
    assert CodeText(d, v) + "" == CodeText(d, v);
  }

  /** The input: zero prints as 0x0, and the standard asks for 0. */
  lemma HashZero()
    ensures Render("%#x", [Int(0)]) == Done("0x0")
    ensures NumberText(Directive("#", Absent, Absent, "", 'x'), 0) == "0"
  {
    hide CodeText, NumberText, Render, Source;
    var d := Directive("#", Absent, Absent, "", 'x');
    HashZeroCovered(d);
    HashZeroTexts(d);
    CodePrints(d, 0, "", []);
    assert NumberArgs(d, 0) + [] == [Int(0)];
    assert "%" + Source(d) + "" == "%#x";
    NothingLeft([]);
    assert "0x0" + "" == "0x0";
  }

  /** The input for a negative precision: zero prints as nothing, and the standard asks for 0. */
  lemma NegativeZero()
    ensures Render("%.*d", [Int(-1), Int(0)]) == Done("")
    ensures NumberText(Directive("", Absent, Passed(-1), "", 'd'), 0) == "0"
  {
    hide CodeText, NumberText, Render, Source;
    var d := Directive("", Absent, Passed(-1), "", 'd');
    NegativeZeroCovered(d);
    NegativeZeroTexts(d);
    CodePrints(d, 0, "", []);
    assert NumberArgs(d, 0) + [] == [Int(-1), Int(0)];
    assert "%" + Source(d) + "" == "%.*d";
    NothingLeft([]);
    assert "" + "" == "";
  }

  lemma NegativeZeroCovered(d: Directive)
    requires d == Directive("", Absent, Passed(-1), "", 'd')
    ensures NumberCovered(d, 0) && Source(d) == ".*d"
  {
    assert FlagString("") && LengthString("") && Long("") == 0;
  }

  lemma NegativeZeroTexts(d: Directive)
    requires d == Directive("", Absent, Passed(-1), "", 'd')
    ensures CodeText(d, 0) == "" && NumberText(d, 0) == "0"
  {
    var n := Printed(Long(d.length), IsSigned(d.conv), 0);
    assert n == 0 && DigitsOf(d, 0) == "0" && SignOf(d, n) == "" && WidthOf(d) == 0;
    assert '#' !in d.flags && '-' !in d.flags && '0' !in d.flags && Given(d.prec) == Some(0) && Asked(d.prec) == None;
    hide DigitsOf, SignOf, WidthOf, IsoInteger;
    ShortZero();
    NoZero();
    assert "" + "" == "";
  }

  lemma NoZero()
    ensures IsoInteger(false, false, 0, Some(0), "", "0") == ""
  {
    Empty();
  }

  /** A whole call of %s prints the standard's text exactly when the precision is not negative, or the
      string is blank and within the width. */
  lemma StringFormIff(d: Directive, s: string)
    requires StringCovered(d)
    ensures Render("%" + Source(d), StringArgs(d, s)) == Done(StringText(d, s)) <==>
      (Negative(d.prec) ==> BlankWithin(s, WidthOf(d)))
  {
    hide Source, StringArgs, Render, IsoString, BlankWithin;
    CodePrintsString(d, s, "", []);
    NothingLeft([]);
    assert "%" + Source(d) + "" == "%" + Source(d) && StringArgs(d, s) + [] == StringArgs(d, s);
    var text := IsoString('-' in d.flags, WidthOf(d), Given(d.prec), s);
    assert text + "" == text;
    NegativeStringIff('-' in d.flags, WidthOf(d), s);
  }

  lemma HashZeroCovered(d: Directive)
    requires d == Directive("#", Absent, Absent, "", 'x')
    ensures NumberCovered(d, 0) && Source(d) == "#x"
  {
    assert FlagString("#") && LengthString("") && Long("") == 0;
  }

  lemma HashZeroTexts(d: Directive)
    requires d == Directive("#", Absent, Absent, "", 'x')
    ensures CodeText(d, 0) == "0x0" && NumberText(d, 0) == "0"
  {
    var n := Printed(Long(d.length), IsSigned(d.conv), 0);
    assert n == 0 && DigitsOf(d, 0) == "0" && SignOf(d, n) == "" && WidthOf(d) == 0;
    assert '#' in d.flags && '-' !in d.flags && '0' !in d.flags;
    hide DigitsOf, SignOf, WidthOf, IsoInteger;
    ShortZero();
  }

  lemma ShortZero()
    ensures IsoInteger(false, false, 0, None, "" + HashPrefix('x'), "0") == "0x0"
    ensures IsoInteger(false, false, 0, None, "", "0") == "0"
  {
    Empty();
  }

  // ---- what comes out, without a word of how ----

  /** The lengths of the standard and of the code, and the bits of their types. */
  predicate TypeBits(length: string, bits: nat) {
    || (bits == 32 && (length == "" || length == "l" || length == "z"))
    || (bits == 64 && (length == "ll" || length == "q" || length == "L"))
    || (bits == 16 && length == "h")
    || (bits == 8 && length == "hh")
  }

  /** Two to the power of `bits`. */
  function Range(bits: nat): nat {
    if bits == 8 then 0x100
    else if bits == 16 then 0x1_0000
    else if bits == 32 then 0x1_0000_0000
    else 0x1_0000_0000_0000_0000
  }

  lemma LongOf(length: string, bits: nat)
    requires TypeBits(length, bits)
    ensures LengthString(length)
    ensures Long(length) > 1 <==> bits == 64
    ensures Long(length) == -1 <==> bits == 16
    ensures Long(length) < -1 <==> bits == 8
  {
    if |length| == 2 {
      assert length[1..][1..] == "" && length[1..][0] == length[1];
      assert Long(length[1..]) == Count(length[1]) + Long("");
    } else if |length| == 1 {
      assert length[1..] == "";
    }
  }

  /** No capital letter, or no small one. */
  predicate InCase(s: string, up: bool) {
    forall k :: 0 <= k < |s| ==> if up then !('a' <= s[k] <= 'z') else !('A' <= s[k] <= 'Z')
  }

  lemma NumeralInCase(m: nat, base: nat, up: bool)
    requires 2 <= base <= 36
    ensures InCase(Numeral(m, base, up), up)
  {
    hide Numeral;
    NumeralNonempty(m, base, up);
    var s := Numeral(m, base, up);
    forall k | 0 <= k < |s| ensures if up then !('a' <= s[k] <= 'z') else !('A' <= s[k] <= 'Z') {
      assert DigitOf(s[k], base, up);
    }
  }

  lemma LaidInCase(a: int, sign: string, z: int, digits: string, b: int, up: bool)
    requires InCase(sign, up) && InCase(digits, up)
    ensures InCase(Laid(a, sign, z, digits, b), up)
  {
    InCaseJoin(Repeat(a, ' '), sign, up);
    InCaseJoin(Repeat(a, ' ') + sign, Repeat(z, '0'), up);
    InCaseJoin(Repeat(a, ' ') + sign + Repeat(z, '0'), digits, up);
    InCaseJoin(Repeat(a, ' ') + sign + Repeat(z, '0') + digits, Repeat(b, ' '), up);
  }

  lemma InCaseJoin(s: string, t: string, up: bool)
    requires InCase(s, up) && InCase(t, up)
    ensures InCase(s + t, up)
  {
  }

  lemma FieldInCase(left: bool, zero: bool, width: nat, prec: Option<nat>, sign: string, digits: string, up: bool)
    requires InCase(sign, up) && InCase(digits, up)
    ensures InCase(IsoInteger(left, zero, width, prec, sign, digits), up)
  {
    hide Laid, InCase;
    var shown := if prec == Some(0) && digits == "0" then "" else digits;
    var zeros := match prec case Some(p) => Max(p - |shown|, 0) case None => 0;
    var pad := width - |sign| - zeros - |shown|;
    assert InCase("", up) by { NothingInCase(up); }
    LaidInCase(0, sign, zeros, shown, pad, up);
    LaidInCase(0, sign, pad, shown, 0, up);
    LaidInCase(pad, sign, zeros, shown, 0, up);
  }

  lemma NothingInCase(up: bool)
    ensures InCase("", up) && InCase(" ", up) && InCase("+", up) && InCase("-", up)
  {
  }

  /** A call with one directive, any flags but `#`, any width and precision: it prints a text that reads
      back, in base 10 for d, i and u, 2 for b, 8 for o and 16 for x and X, as the argument for d and i,
      and as the argument modulo the range of its type for the others; X with capital digits, x with
      small ones. */
  lemma NumberReadsBack(d: Directive, v: int, bits: nat) returns (t: string)
    requires WellFormed(d) && '#' !in d.flags && TypeBits(d.length, bits)
    requires if bits == 64 then -0x8000_0000_0000_0000 <= v < 0x8000_0000_0000_0000 else -0x8000_0000 <= v < 0x8000_0000
    requires d.conv == 'd' || d.conv == 'i' ==> -(Range(bits) / 2) <= v < Range(bits) / 2
    requires d.conv in {'d', 'i', 'u', 'b', 'o', 'x', 'X'}
    ensures var arg := if bits == 64 then Long64(v) else Int(v);
      Render("%" + Source(d), Stars(d.width) + (Stars(d.prec) + [arg])) == Done(t)
    ensures d.conv == 'd' || d.conv == 'i' ==> ReadInteger(t, 10) == v
    ensures d.conv == 'u' ==> ReadInteger(t, 10) == v % Range(bits)
    ensures d.conv == 'b' ==> ReadInteger(t, 2) == v % Range(bits)
    ensures d.conv == 'o' ==> ReadInteger(t, 8) == v % Range(bits)
    ensures d.conv == 'x' || d.conv == 'X' ==> ReadInteger(t, 16) == v % Range(bits)
    ensures InCase(t, d.conv == 'X')
  {
    hide Render, Source, CodeText, ReadInteger, Stars, Long, InCase;
    LongOf(d.length, bits);
    CodePrints(d, v, "", []);
    t := CodeText(d, v);
    assert "%" + Source(d) + "" == "%" + Source(d) && NumberArgs(d, v) + [] == NumberArgs(d, v) && t + "" == t;
    NothingLeft([]);
    CodeReadsBack(d, v);
    CodeInCase(d, v);
  }

  lemma CodeReadsBack(d: Directive, v: int)
    requires NumberCovered(d, v) && '#' !in d.flags
    ensures ReadInteger(CodeText(d, v), Base(d.conv)) == Printed(Long(d.length), IsSigned(d.conv), v)
  {
    hide IsoInteger, ReadInteger, Numeral;
    var n := Printed(Long(d.length), IsSigned(d.conv), v);
    MagnitudePrinted(NO_FLAGS.(long := Long(d.length)), IsSigned(d.conv), v);
    assert SignOf(d, n) + "" == SignOf(d, n);
    IsoIntegerMeans('-' in d.flags, '0' in d.flags, WidthOf(d), Given(d.prec), SignOf(d, n),
                    Abs(n), Base(d.conv), d.conv == 'X');
  }

  lemma CodeInCase(d: Directive, v: int)
    requires NumberCovered(d, v) && '#' !in d.flags
    ensures InCase(CodeText(d, v), d.conv == 'X')
  {
    hide IsoInteger, Numeral, InCase;
    var n := Printed(Long(d.length), IsSigned(d.conv), v);
    NothingInCase(d.conv == 'X');
    assert SignOf(d, n) + "" == SignOf(d, n);
    NumeralInCase(Abs(n), Base(d.conv), d.conv == 'X');
    FieldInCase('-' in d.flags, '0' in d.flags, WidthOf(d), Given(d.prec), SignOf(d, n), DigitsOf(d, v), d.conv == 'X');
  }

  // ---- whole formats ----

  /** Plain text as it is written in a format: every `%` twice. */
  function Quoted(text: string): string {
    if text == "" then "" else (if text[0] == '%' then "%%" else [text[0]]) + Quoted(text[1..])
  }

  lemma RenderChar(c: char, g: string, args: seq<Arg>)
    requires c != '%'
    ensures Render([c] + g, args) == Prepend([c], Render(g, args))
  {
    hide Parse, OneField;
    var s, n := [c] + g, SkipTo(g);
    assert s[1..] == g;
    assert SkipTo(s) == 1 + n;
    if n < |g| {
      assert s[1 + n + 1..] == g[n + 1..] && s[..1 + n] == [c] + g[..n];
      var t := OneTurn(g, args);
      if t.More? {
        var text := t.text[n..];
        assert t.text == g[..n] + text && s[..1 + n] + text == [c] + t.text;
        PrependTwice([c], t.text, Render(t.rest, t.args));
      }
    }
  }

  lemma RenderPercent(g: string, args: seq<Arg>)
    ensures Render("%%" + g, args) == Prepend("%", Render(g, args))
  {
    var s := "%%" + g;
    assert SkipTo(s) == 0 && s[..0] == "" && s[1..] == "%" + g && ("%" + g)[1..] == g;
    assert Parse("%" + g, args, NO_FLAGS) == Conversion('%', g, args, NO_FLAGS);
    assert "" + "%" == "%";
    assert OneTurn(s, args) == More("%", g, args);
  }

  lemma {:induction false} LiteralText(text: string, rest: string, args: seq<Arg>)
    ensures Render(Quoted(text) + rest, args) == Prepend(text, Render(rest, args))
    decreases |text|
  {
    hide Render;
    if text == "" {
      assert Quoted(text) + rest == rest;
      PrependNothing(Render(rest, args));
    } else {
      var c, g := text[0], Quoted(text[1..]) + rest;
      LiteralText(text[1..], rest, args);
      if c == '%' {
        assert Quoted(text) + rest == "%%" + g;
        RenderPercent(g, args);
      } else {
        assert Quoted(text) + rest == [c] + g;
        RenderChar(c, g, args);
      }
      PrependTwice([c], text[1..], Render(rest, args));
      assert [c] + text[1..] == text;
    }
  }

  lemma PrependNothing(o: Outcome)
    ensures Prepend("", o) == o
  {
    if o != NotCovered { assert "" + o.out == o.out; }
  }

  datatype Item =
    | Literal(text: string)
    | Number(d: Directive, v: int)
    | Words(d: Directive, s: string)
    | Letter(c: char)

  predicate ItemOk(i: Item) {
    match i
    case Literal(_) => true
    case Number(d, v) => NumberOk(d, v)
    case Words(d, s) => StringOk(d, s)
    case Letter(c) => c as int < TWO_8
  }

  function ItemFormat(i: Item): string {
    match i
    case Literal(text) => Quoted(text)
    case Number(d, _) => "%" + Source(d)
    case Words(d, _) => "%" + Source(d)
    case Letter(_) => "%c"
  }

  function ItemArgs(i: Item): seq<Arg>
    requires ItemOk(i)
  {
    match i
    case Literal(_) => []
    case Number(d, v) => NumberArgs(d, v)
    case Words(d, s) => StringArgs(d, s)
    case Letter(c) => [Int(c as int)]
  }

  function ItemText(i: Item): string {
    match i
    case Literal(text) => text
    case Number(d, v) => NumberText(d, v)
    case Words(d, s) => StringText(d, s)
    case Letter(c) => [c]
  }

  predicate AllOk(items: seq<Item>) { forall k :: 0 <= k < |items| ==> ItemOk(items[k]) }

  function FormatOf(items: seq<Item>): string {
    if items == [] then "" else ItemFormat(items[0]) + FormatOf(items[1..])
  }

  function ArgsOf(items: seq<Item>): seq<Arg>
    requires AllOk(items)
  {
    if items == [] then [] else ItemArgs(items[0]) + ArgsOf(items[1..])
  }

  function TextOf(items: seq<Item>): string {
    if items == [] then "" else ItemText(items[0]) + TextOf(items[1..])
  }

  lemma ItemStep(i: Item, rest: string, more: seq<Arg>)
    requires ItemOk(i)
    ensures Render(ItemFormat(i) + rest, ItemArgs(i) + more) == Prepend(ItemText(i), Render(rest, more))
  {
    hide Render, NumberText, StringText, Source, Quoted, NumberArgs, StringArgs;
    match i
    case Literal(text) =>
      LiteralText(text, rest, more);
      assert [] + more == more;
    case Number(d, v) => NumberDirective(d, v, rest, more);
    case Words(d, s) => StringDirective(d, s, rest, more);
    case Letter(c) => CharPrints(c as int, rest, more);
  }

  /** %c prints the low eight bits of its argument. */
  lemma CharPrints(v: int32, rest: string, more: seq<Arg>)
    ensures Render("%c" + rest, [Int(v)] + more) == Prepend([(v % 256) as char], Render(rest, more))
  {
    var s, args, c := "%c" + rest, [Int(v)] + more, (v % 256) as char;
    assert SkipTo(s) == 0 && s[..0] == "" && s[1..] == "c" + rest && ("c" + rest)[1..] == rest;
    assert Parse("c" + rest, args, NO_FLAGS) == Conversion('c', rest, args, NO_FLAGS);
    assert args[0] == Int(v) && args[1..] == more && "" + [c] == [c];
    assert OneTurn(s, args) == More([c], rest, more);
  }

  /** A null string prints as (null), with width and precision. */
  lemma NullPrints(d: Directive, rest: string, more: seq<Arg>)
    requires StringCovered(d)
    ensures Render("%" + Source(d) + rest, Stars(d.width) + (Stars(d.prec) + ([NullStr] + more))) ==
      Prepend(IsoString('-' in d.flags, WidthOf(d), Given(d.prec), "(null)"), Render(rest, more))
  {
    hide Parse, Source, StringField, IsoString, NumberField, Render, Stars;
    var args := [NullStr] + more;
    var f := ParseDirective(d, rest, args);
    StringFieldIsIso(f, "(null)");
    assert args[1..] == more;
    OneDirective(d, rest, Stars(d.width) + (Stars(d.prec) + args), args, f, StringField(f, "(null)"));
  }

  /** A conversion character that is none prints nothing and takes no argument. */
  lemma UnknownConversion(c: char, rest: string, args: seq<Arg>)
    requires c !in "#zhqLl- +*.%cmsbpXxdiuofg" && !('0' <= c <= '9')
    ensures Render("%" + ([c] + rest), args) == Render(rest, args)
  {
    var s, t := "%" + ([c] + rest), [c] + rest;
    assert s[1..] == t && t[1..] == rest && SkipTo(s) == 0 && s[..0] == "";
    assert Parse(t, args, NO_FLAGS) == Conversion(c, rest, args, NO_FLAGS);
    assert OneField(c, NO_FLAGS, args) == Field.Text("", args);
    hide Parse, OneField;
    assert "" + "" == "";
    PrependNothing(Render(rest, args));
  }

  /** Blank, or one of the five characters from tab to carriage return. */
  predicate IsBlank(c: char) { c as int == 32 || 9 <= c as int <= 13 }

  lemma {:induction false} SkipsBlanks(blanks: string, t: string)
    requires (forall k :: 0 <= k < |blanks| ==> IsBlank(blanks[k])) && (t == "" || !IsBlank(t[0]))
    ensures SkipBlanks(blanks + t) == t
  {
    if blanks == "" {
      assert blanks + t == t;
    } else {
      assert (blanks + t)[1..] == blanks[1..] + t;
      SkipsBlanks(blanks[1..], t);
    }
  }

  /** How the code reads a precision that is written out: blanks and a sign are skipped as `strtol` does,
      the value is held within 32 bits, and one that is negative counts as 0. */
  lemma WrittenPrecision(blanks: string, sign: string, p: nat, t: string, args: seq<Arg>, f: Flags)
    requires (forall k :: 0 <= k < |blanks| ==> IsBlank(blanks[k])) && sign in {"", "+", "-"} && NoDigitFirst(t)
    ensures Parse("." + (blanks + (sign + (Decimal(p) + t))), args, f) ==
      Parse(t, args, f.(dot := true, preci := if sign == "-" then 0 else if p < 2147483647 then p else 2147483647))
  {
    hide Decimal, Parse, Strtol;
    StrtolSigned(blanks, sign, p, t);
    var s := blanks + (sign + (Decimal(p) + t));
    FirstIsNoStar(blanks, sign, p, t);
    DotStep(s, args, f);
  }

  lemma DotStep(s: string, args: seq<Arg>, f: Flags)
    requires s != "" && s[0] != '*'
    ensures Parse("." + s, args, f) == Parse(Strtol(s).1, args, f.(dot := true, preci := Max(Strtol(s).0, 0)))
  {
    assert ("." + s)[1..] == s;
  }

  lemma FirstIsNoStar(blanks: string, sign: string, p: nat, t: string)
    requires (forall k :: 0 <= k < |blanks| ==> IsBlank(blanks[k])) && sign in {"", "+", "-"}
    ensures var s := blanks + (sign + (Decimal(p) + t)); s != "" && s[0] != '*'
  {
    hide Decimal;
    DecimalDigits(p);
    var u := Decimal(p) + t;
    assert u[0] == Decimal(p)[0] && IsDigit(u[0]);
    var v := sign + u;
    assert v[0] == if sign == "" then u[0] else sign[0];
    assert (blanks + v)[0] == if blanks == "" then v[0] else blanks[0];
  }

  lemma StrtolSigned(blanks: string, sign: string, p: nat, t: string)
    requires (forall k :: 0 <= k < |blanks| ==> IsBlank(blanks[k])) && sign in {"", "+", "-"} && NoDigitFirst(t)
    ensures Strtol(blanks + (sign + (Decimal(p) + t))) ==
      (if sign == "-" then -Min(p, 2147483648) else Min(p, 2147483647), t)
  {
    hide Decimal, SkipBlanks;
    var u := Decimal(p) + t;
    var v := sign + u;
    DecimalDigits(p);
    RunOf(Decimal(p), t);
    assert u[0] == Decimal(p)[0] && IsDigit(u[0]);
    assert v[0] == (if sign == "" then u[0] else sign[0]) && (sign != "" ==> v[1..] == u) && (sign == "" ==> v == u);
    SkipsBlanks(blanks, v);
    assert u[..|Decimal(p)|] == Decimal(p) && u[|Decimal(p)|..] == t;
  }

  /** A digit right after `.*` breaks the directive. */
  lemma DigitAfterPrecision(c: char, rest: string, n: int32, more: seq<Arg>)
    requires '0' <= c <= '9'
    ensures Render("%.*" + ([c] + rest), [Int(n)] + more) == Failed("")
  {
    var t := [c] + rest;
    var s := "%.*" + t;
    assert SkipTo(s) == 0 && s[..0] == "" && s[1..] == ".*" + t;
    ParseDotStar(n, t, more, NO_FLAGS);
    assert Parse(t, more, NO_FLAGS.(dot := true, preci := Max(n, 0))) == Bad by { assert t[0] == c; }
  }

  /** A format that ends inside a directive is broken: what came before it has been written. */
  lemma EndsInDirective(text: string, cs: string, args: seq<Arg>)
    requires AllModifiers(cs)
    ensures Render(Quoted(text) + ("%" + cs), args) == Failed(text)
  {
    hide Render;
    LiteralText(text, "%" + cs, args);
    DirectiveCutOff(cs, args);
    assert text + "" == text;
  }

  lemma DirectiveCutOff(cs: string, args: seq<Arg>)
    requires AllModifiers(cs)
    ensures Render("%" + cs, args) == Failed("")
  {
    var s := "%" + cs;
    ParseModifiers(cs, "", args, NO_FLAGS);
    assert Parse("", args, ModifyAll(NO_FLAGS, cs)) == Bad;
    hide Parse, ModifyAll;
    assert cs + "" == cs && s[1..] == cs && SkipTo(s) == 0 && s[..0] == "";
  }

  /** A format put together from any number of literal pieces and directives prints exactly the pieces
      and the standard's fields, in order, each field taking its own argument. */
  lemma {:induction false} WholeFormat(items: seq<Item>)
    requires AllOk(items)
    ensures Render(FormatOf(items), ArgsOf(items)) == Done(TextOf(items))
    decreases |items|
  {
    if items == [] {
      NothingLeft([]);
    } else {
      hide Render, ItemFormat, ItemText, ItemArgs;
      WholeFormat(items[1..]);
      ItemStep(items[0], FormatOf(items[1..]), ArgsOf(items[1..]));
    }
  }
}
