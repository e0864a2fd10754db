/** `__v_printf` and `vsnprintf` as programs: a loop over the format that hands pieces of text to a
    sink, proved to write exactly `PrintfSpec.Render` however the pieces are cut. */
module Printf {
  import opened MachineWords
  import opened Numerals
  import opened PrintfSpec

  /** `struct str_data` with `swrite`.  The ghost fields are everything handed to `put` so far, and
      what the array held to begin with; the array keeps as much of the text as fits. */
  class Sink {
    const str: array?<char>
    var len: nat
    const size: nat
    ghost var out: string
    ghost const before: string

    /** The sink's state depends only on the text written, not on how it was cut into pieces, and
        nothing past the terminator has been touched. */
    ghost predicate Valid()
      reads this, str
    {
      && len == Min(|out|, size)
      && (str != null ==>
            && |before| == str.Length
            && (size == 0 ==> str[..] == before)
            && (size > 0 ==> size < str.Length && str[..len] == out[..len] && (len > 0 ==> str[len] == '\0'))
            && (forall x :: len < x < str.Length ==> str[x] == before[x]))
    }

    constructor (str: array?<char>, size: nat)
      requires str != null && size > 0 ==> size < str.Length
      ensures Valid() && this.str == str && this.size == size && out == ""
      ensures str != null ==> before == str[..]
    {
      this.str, this.size, len, out := str, size, 0, "";
      before := if str == null then "" else str[..];
    }

    /** The `memcpy` of `swrite`, and its terminator. */
    method Copy(data: string)
      requires str != null && len + |data| < str.Length
      modifies str
      ensures str[..len + |data|] == old(str[..len]) + data && str[len + |data|] == '\0'
      ensures forall x :: len + |data| < x < str.Length ==> str[x] == old(str[x])
    {
      ghost var was := str[..len];
      forall k | 0 <= k < |data| {
        str[len + k] := data[k];
      }
      str[len + |data|] := '\0';
      assert str[..len + |data|] == was + data;
    }

    /** `swrite`. */
    method Put(data: string)
      requires Valid()
      modifies this, str
      ensures Valid() && out == old(out) + data
    {
      var tmp := size - len;
      if tmp > 0 {
        var n := if |data| > tmp then tmp else |data|;
        Appended(out, data, len, n);
        if str != null {
          Copy(data[..n]);
        }
        len := len + n;
      } else {
        assert (out + data)[..len] == out[..len];
      }
      out := out + data;
    }
  }

  lemma Appended(out: string, data: string, len: nat, n: nat)
    requires len <= |out| && n <= |data| && (n > 0 ==> len == |out|)
    ensures (out + data)[..len + n] == out[..len] + data[..n]
  {
  }

  /** `write_pad`: pieces of sixteen, then the rest. */
  method WritePad(sink: Sink, len: int, c: char) returns (nr: nat)
    requires sink.Valid()
    modifies sink, sink.str
    ensures sink.Valid() && sink.out == old(sink.out) + Repeat(len, c) && nr == |Repeat(len, c)|
  {
    nr := 0;
    var left := len;
    while left > 15
      invariant sink.Valid() && left + nr == len && (nr > 0 ==> left >= 0)
      invariant sink.out == old(sink.out) + Repeat(nr, c)
    {
      sink.Put(Repeat(16, c));
      assert Repeat(nr + 16, c) == Repeat(nr, c) + Repeat(16, c);
      left, nr := left - 16, nr + 16;
    }
    if left > 0 {
      sink.Put(Repeat(left, c));
      assert Repeat(len, c) == Repeat(nr, c) + Repeat(left, c);
      nr := nr + left;
    } else {
      assert Repeat(len, c) == Repeat(nr, c);
    }
  }

  lemma Grouped(w: string, a: string, b: string, c: string, d: string)
    ensures w + a + b + c + d == w + (a + b + c + d)
    ensures w + a + b + c == w + (a + b + c)
  {
  }

  /** Label `print_out`; the first `todo` characters of `text` are the sign or prefix. */
  method WriteField(sink: Sink, f: Flags, text: string, todo: nat) returns (n: nat)
    requires sink.Valid() && todo <= |text|
    modifies sink, sink.str
    ensures sink.Valid()
    ensures sink.out == old(sink.out) + PrintOut(f, text[..todo], text[todo..])
    ensures n == |PrintOut(f, text[..todo], text[todo..])|
  {
    var sign, body := text[..todo], text[todo..];
    if f.width == 0 && f.preci == 0 {
      sink.Put(text);
      assert text == sign + body;
      return |text|;
    }
    var width := Signed((f.width - todo) % TWO_32);
    PrintOutCases(f, sign, body, width);
    hide PrintOut, Signed, Repeat;
    if f.left {
      n := WriteLeft(sink, width, f.preci, sign, body);
    } else if f.dot {
      n := WriteDotted(sink, width, f.preci, sign, body);
    } else {
      n := WriteUndotted(sink, width, f.zero, sign, body);
    }
  }

  /** `print_out` with a width or a precision, branch by branch. */
  lemma PrintOutCases(f: Flags, sign: string, body: string, width: int)
    requires width == Signed((f.width - |sign|) % TWO_32) && !(f.width == 0 && f.preci == 0)
    ensures var vs := Max(f.preci, |body|);
      PrintOut(f, sign, body) ==
        if f.left then sign + Repeat(f.preci - |body|, '0') + body + Repeat(width - vs, ' ')
        else if f.dot then Repeat(width - vs, ' ') + sign + Repeat(f.preci - |body|, '0') + body
        else if f.zero then sign + Repeat(width - |body|, '0') + body
        else Repeat(width - |body|, ' ') + sign + body
  {
  }

  /** The branch for `-`: blanks last. */
  method WriteLeft(sink: Sink, width: int, preci: nat, sign: string, body: string) returns (n: nat)
    requires sink.Valid()
    modifies sink, sink.str
    ensures sink.Valid()
    ensures var t := sign + Repeat(preci - |body|, '0') + body + Repeat(width - Max(preci, |body|), ' ');
      sink.out == old(sink.out) + t && n == |t|
  {
    ghost var was := sink.out;
    sink.Put(sign);
    var pad1 := WritePad(sink, preci - |body|, '0');
    sink.Put(body);
    var vs := Max(preci, |body|);
    var pad2 := WritePad(sink, width - vs, ' ');
    Grouped(was, sign, Repeat(preci - |body|, '0'), body, Repeat(width - vs, ' '));
    n := |sign| + pad1 + |body| + pad2;
  }

  /** The branch with a precision: blanks, sign, zeros, digits. */
  method WriteDotted(sink: Sink, width: int, preci: nat, sign: string, body: string) returns (n: nat)
    requires sink.Valid()
    modifies sink, sink.str
    ensures sink.Valid()
    ensures var t := Repeat(width - Max(preci, |body|), ' ') + sign + Repeat(preci - |body|, '0') + body;
      sink.out == old(sink.out) + t && n == |t|
  {
    ghost var was := sink.out;
    var vs := Max(preci, |body|);
    var pad1 := WritePad(sink, width - vs, ' ');
    sink.Put(sign);
    var pad2 := WritePad(sink, preci - |body|, '0');
    sink.Put(body);
    Grouped(was, Repeat(width - vs, ' '), sign, Repeat(preci - |body|, '0'), body);
    n := pad1 + |sign| + pad2 + |body|;
  }

  /** The branch without precision: zeros go after the sign, blanks before it. */
  method WriteUndotted(sink: Sink, width: int, zero: bool, sign: string, body: string) returns (n: nat)
    requires sink.Valid()
    modifies sink, sink.str
    ensures sink.Valid()
    ensures var pad := Repeat(width - |body|, if zero then '0' else ' ');
      && sink.out == old(sink.out) + (if zero then sign + pad + body else pad + sign + body)
      && n == |sign| + |pad| + |body|
  {
    ghost var was, pad := sink.out, Repeat(width - |body|, if zero then '0' else ' ');
    if zero {
      sink.Put(sign);
      n := WritePad(sink, width - |body|, '0');
      Grouped(was, sign, pad, body, "");
    } else {
      n := WritePad(sink, width - |body|, ' ');
      sink.Put(sign);
      Grouped(was, pad, sign, body, "");
    }
    sink.Put(body);
    n := n + |sign| + |body|;
  }

  lemma {:induction false} PowMonotone(a: nat, b: nat, k: nat)
    requires a <= b
    ensures Pow(a, k) <= Pow(b, k)
  {
    if k > 0 {
      PowMonotone(a, b, k - 1);
      MulMono(b, a, Pow(b, k - 1), Pow(a, k - 1));
    }
  }

  lemma {:induction false} PowAdd(b: nat, j: nat, k: nat)
    ensures Pow(b, j + k) == Pow(b, j) * Pow(b, k)
  {
    if j > 0 {
      PowAdd(b, j - 1, k);
      Times(b, Pow(b, j - 1), Pow(b, k));
      assert Pow(b, j + k) == b * Pow(b, j - 1 + k);
    } else {
      assert Pow(b, 0) == 1;
    }
  }

  lemma Times(x: nat, y: nat, z: nat)
    ensures x * (y * z) == (x * y) * z
  {
  }

  /** The 123 characters handed to the digit loop are always enough. */
  lemma DigitsAlwaysFit(m: nat, base: nat)
    requires m < TWO_64 && 2 <= base <= 36
    ensures m < Pow(base, 122)
  {
    assert Pow(2, 8) == 0x100;
    PowAdd(2, 8, 8);
    PowAdd(2, 16, 16);
    PowAdd(2, 32, 32);
    assert Pow(2, 64) == TWO_64;
    PowAdd(2, 64, 58);
    PowPos(2, 58);
    MulMono(Pow(2, 64), Pow(2, 64), Pow(2, 58), 1);
    PowMonotone(2, base, 122);
  }

  lemma NumeralFits(m: nat, base: nat, up: bool)
    requires m < TWO_64 && 2 <= base <= 36
    ensures Numerals.Text(123, m, base, up) == Numeral(m, base, up)
  {
    DigitsAlwaysFit(m, base);
    TextReadsBack(123, m, base, up);
  }

  lemma MagnitudeBound(f: Flags, signed: bool, v: int)
    requires -TWO_63 <= v < TWO_63
    ensures Magnitude(f, signed, v) < TWO_64
  {
  }

  /** The digits shown: none for a zero with an explicit precision. */
  ghost function Shown(f: Flags, c: char, m: nat): string {
    var digits := Numeral(m, Base(c), c == 'X');
    if f.dot && digits == "0" then "" else digits
  }

  /** `0`, `0x` or `0X` ahead of the digits under `#`. */
  method FormatPrefix(buf: array<char>, f: Flags, c: char) returns (sz: nat)
    requires buf.Length == 128
    modifies buf
    ensures sz == |AltPrefix(f, c)| <= 2 && buf[1..1 + sz] == AltPrefix(f, c)
  {
    sz := 0;
    if f.hash {
      buf[1] := '0';
      sz := 1;
      if c != 'o' {
        buf[2] := c;
        sz := 2;
      }
    }
  }

  /** Label `num_printf`: prefix and digits go into a local buffer of 128 from index 1 on. */
  method FormatDigits(buf: array<char>, f: Flags, c: char, m: nat) returns (sz: nat)
    requires buf.Length == 128 && m < TWO_64
    modifies buf
    ensures 1 + sz <= 128 && buf[1..1 + sz] == AltPrefix(f, c) + Shown(f, c, m)
  {
    hide Numeral, Numerals.Text, AltPrefix, Base;
    var at := FormatPrefix(buf, f, c);
    ghost var prefix, digits := buf[1..1 + at], Numeral(m, Base(c), c == 'X');
    NumeralFits(m, Base(c), c == 'X');
    var start := 1 + at;
    var retval := LongToString(buf, start, 123, m, Base(c), c == 'X');
    assert buf[1..start] == prefix;
    assert buf[start..start + retval] == digits && |digits| == retval;
    Joined(buf[..], 1, start, retval);
    OneZero(buf[start..start + retval]);
    assert retval > 0 ==> buf[start..start + retval][0] == buf[start];
    if f.dot && retval == 1 && buf[start] == '0' {
      assert prefix + "" == prefix;
      return at;
    }
    return at + retval;
  }

  lemma Joined(s: string, from: nat, mid: nat, n: nat)
    requires from <= mid && mid + n <= |s|
    ensures s[from..mid + n] == s[from..mid] + s[mid..mid + n]
  {
  }

  lemma OneZero(s: string)
    ensures s == "0" <==> |s| == 1 && s[0] == '0'
  {
  }

  /** The sign goes in front; `todo` counts sign and prefix. */
  method FormatNumber(f: Flags, c: char, v: int) returns (text: string, todo: nat)
    requires HashCovered(f, c) && -TWO_63 <= v < TWO_63
    ensures todo <= |text|
    ensures text[..todo] == Sign(f, IsSigned(c), v) + AltPrefix(f, c)
    ensures text[todo..] == Shown(f, c, Magnitude(f, IsSigned(c), v))
  {
    var buf := new char[128](_ => '\0');
    MagnitudeBound(f, IsSigned(c), v);
    var m := Magnitude(f, IsSigned(c), v);
    var sz := FormatDigits(buf, f, c, m);
    text := buf[1..1 + sz];
    todo := if !f.hash then 0 else if c == 'o' then 1 else 2;
    ghost var sign, shown := Sign(f, IsSigned(c), v), Shown(f, c, m);
    if IsSigned(c) && (v < 0 || f.plus || f.space) {
      buf[0] := if v < 0 then '-' else if f.plus then '+' else ' ';
      text, todo := [buf[0]] + text, 1;
    }
    assert text == sign + AltPrefix(f, c) + shown;
  }

  /** Label `num_printf` to the end of the field. */
  method WriteNumber(sink: Sink, f: Flags, c: char, v: int) returns (n: nat)
    requires sink.Valid() && HashCovered(f, c) && -TWO_63 <= v < TWO_63
    modifies sink, sink.str
    ensures sink.Valid()
    ensures sink.out == old(sink.out) + NumberField(f, c, v) && n == |NumberField(f, c, v)|
  {
    var text, todo := FormatNumber(f, c, v);
    var f1 := if c in "xX" && f.preci > f.width then f.(width := f.preci) else f;
    n := WriteField(sink, f1, text, todo);
  }

  /** The switch over flags, width, precision and length up to the conversion character. */
  method ReadDirective(s: string, args: seq<Arg>) returns (p: Parsed)
    ensures p == Parse(s, args, NO_FLAGS)
  {
    var rest, a, f := s, args, NO_FLAGS;
    while rest != []
      invariant Parse(rest, a, f) == Parse(s, args, NO_FLAGS)
      decreases |rest|
    {
      var c := rest[0];
      match c
      case '#' => rest, f := rest[1..], f.(hash := true);
      case 'z' => rest := rest[1..];
      case 'h' => rest, f := rest[1..], f.(long := f.long - 1);
      case 'q' => rest, f := rest[1..], f.(long := f.long + 2);
      case 'L' => rest, f := rest[1..], f.(long := f.long + 2);
      case 'l' => rest, f := rest[1..], f.(long := f.long + 1);
      case '-' => rest, f := rest[1..], f.(left := true);
      case ' ' => rest, f := rest[1..], f.(space := true);
      case '+' => rest, f := rest[1..], f.(plus := true);
      case '*' =>
        if a == [] || !a[0].Int? {
          return Mismatch;
        }
        rest, a, f := rest[1..], a[1..], f.(width := a[0].i % TWO_32);
      case '.' =>
        if |rest| > 1 && rest[1] == '*' {
          if a == [] || !a[0].Int? {
            return Mismatch;
          }
          assert rest[1..][1..] == rest[2..];
          rest, a, f := rest[2..], a[1..], f.(dot := true, preci := Max(a[0].i, 0));
        } else {
          var (n, t) := Strtol(rest[1..]);
          rest, f := t, f.(dot := true, preci := Max(n, 0));
        }
      case _ =>
        if !IsDigit(c) {
          return Conversion(c, rest[1..], a, f);
        }
        if f.dot {
          return Bad;
        }
        var (w, t) := Strtoul(rest);
        rest, f := t, f.(width := w, zero := f.zero || (c == '0' && !f.left));
    }
    return Bad;
  }

  /** `skip_to`. */
  method CountLiteral(s: string) returns (n: nat)
    ensures n == SkipTo(s)
  {
    n := 0;
    while n < |s| && s[n] != '%'
      invariant n <= |s| && n + SkipTo(s[n..]) == SkipTo(s)
    {
      assert s[n..][1..] == s[n + 1..];
      n := n + 1;
    }
  }

  /** One conversion written out. */
  method WriteConversion(sink: Sink, c: char, f: Flags, args: seq<Arg>) returns (n: nat, rest: seq<Arg>)
    requires sink.Valid() && OneField(c, f, args).Text?
    modifies sink, sink.str
    ensures sink.Valid() && OneField(c, f, args).args == rest
    ensures var t := OneField(c, f, args).text; sink.out == old(sink.out) + t && n == |t|
  {
    rest := args;
    if c == '%' {
      sink.Put("%");
      n := 1;
    } else if c == 'c' {
      sink.Put([(args[0].i % TWO_8) as char]);
      n, rest := 1, args[1..];
    } else if c == 's' {
      var s := if args[0].NullStr? then "(null)" else args[0].s;
      var sz := if f.dot && |s| > f.preci then f.preci else |s|;
      var text := s[..sz];
      assert text[..0] == "" && text[0..] == text;
      n := WriteField(sink, f.(preci := 0, dot := false, zero := false), text, 0);
      rest := args[1..];
    } else if IsNumber(c) {
      n := WriteNumber(sink, f, c, if f.long > 1 then args[0].l else args[0].i);
      rest := args[1..];
    } else {
      n := 0;
    }
  }

  /** One turn of the main loop; `rest` and `more` are what is left of format and arguments. */
  method WriteTurn(sink: Sink, format: string, args: seq<Arg>)
    returns (n: nat, bad: bool, rest: string, more: seq<Arg>, ghost t: Turn)
    requires sink.Valid() && OneTurn(format, args) != Uncovered
    modifies sink, sink.str
    ensures sink.Valid() && t == OneTurn(format, args) && bad == t.Broken?
    ensures sink.out == old(sink.out) + t.text && n == |t.text|
    ensures t.Last? ==> rest == ""
    ensures t.More? ==> rest == t.rest && more == t.args
  {
    hide OneField, Parse;
    t := OneTurn(format, args);
    n := CountLiteral(format);
    var literal := format[..n];
    if n > 0 {
      sink.Put(literal);
    }
    assert sink.out == old(sink.out) + literal;
    if n == |format| {
      return n, false, "", args, t;
    }
    var p := ReadDirective(format[n + 1..], args);
    if p.Bad? {
      return n, true, "", args, t;
    }
    ghost var text := OneField(p.c, p.flags, p.args).text;
    var k, left := WriteConversion(sink, p.c, p.flags, p.args);
    assert sink.out == old(sink.out) + (literal + text);
    return n + k, false, p.rest, left, t;
  }

  lemma PrependTwice(s: string, t: string, o: Outcome)
    ensures Prepend(s, Prepend(t, o)) == Prepend(s + t, o)
  {
    if o != NotCovered {
      assert s + (t + o.out) == s + t + o.out;
    }
  }

  /** `__v_printf`: exactly the text of `Render` reaches the sink, and the result counts it; -1 comes
      after what was written before the bad directive. */
  method VPrintf(sink: Sink, format: string, args: seq<Arg>) returns (n: int)
    requires sink.Valid() && Render(format, args) != NotCovered
    modifies sink, sink.str
    ensures sink.Valid() && sink.out == old(sink.out) + Render(format, args).out
    ensures n == match Render(format, args) case Done(out) => |out| case Failed(_) => -1
  {
    hide OneTurn;
    var len: nat := 0;
    var rest, a := format, args;
    ghost var was, done := sink.out, "";
    while rest != []
      invariant sink.Valid() && sink.out == was + done && len == |done|
      invariant Prepend(done, Render(rest, a)) == Render(format, args)
      decreases |rest|
    {
      var k, bad, rest', a', t := WriteTurn(sink, rest, a);
      assert sink.out == was + (done + t.text);
      if bad {
        return -1;
      }
      if rest' == [] { NothingLeft(a'); }
      assert Render(rest, a) == Prepend(t.text, Render(rest', a')) by { if t.Last? { assert t.text + "" == t.text; } }
      PrependTwice(done, t.text, Render(rest', a'));
      rest, a, done, len := rest', a', done + t.text, len + k;
    }
    NothingLeft(a);
    return len;
  }

  lemma NothingLeft(args: seq<Arg>)
    ensures Render("", args) == Done("")
  {
  }

  /** `vsnprintf`, for output that an `int` can count.

      With room for anything at all, the array ends up holding the first `min(n, size - 1)`
      characters of the full text and a terminator, with every later element untouched; with a null
      array or size 0 nothing is stored.  The result is the length of the full text either way. */
  method Vsnprintf(str: array?<char>, size: uint32, format: string, args: seq<Arg>) returns (n: int)
    requires str != null ==> size <= str.Length
    requires Render(format, args) != NotCovered && |Render(format, args).out| < TWO_31
    modifies str
    ensures n == match Render(format, args) case Done(out) => |out| case Failed(_) => -1
    ensures str != null && size > 0 && n >= 0 ==>
      var m := Min(n, size - 1);
      && str[..m] == Render(format, args).out[..m]
      && str[m] == '\0'
      && forall x :: m < x < str.Length ==> str[x] == old(str[x])
    ensures str != null && size == 0 ==> str[..] == old(str[..])
  {
    var sink := new Sink(str, if size > 0 then size - 1 else 0);
    n := VPrintf(sink, format, args);
    ghost var text := Render(format, args).out;
    hide Render;
    assert sink.out == text by { assert "" + text == text; }
    if str != null && size != 0 && n >= 0 {
      ghost var m := Min(n, size - 1);
      assert sink.len == m && str[..m] == text[..m];
      ghost var kept := str[..m];
      if size != TWO_32 - 1 && n >= size {
        str[size - 1] := '\0';
      } else {
        str[n] := '\0';
      }
      assert str[..m] == kept;
    }
  }
}
