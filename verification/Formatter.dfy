/** sprintf: the meaning of a format, and the state machine that writes it. */
module Formatter {
  import opened Words
  import opened Numerals

  /** One variadic argument. */
  datatype Arg = Word(v: u32) | Quad(q: u64) | Str(s: seq<char>)

  /** What a conversion stands for; it takes `length` characters and `count` arguments. */
  datatype Conversion = Bad | Good(text: seq<char>, length: nat, count: nat)

  /** What a call writes, and whether it comes to the end of the format. */
  datatype Result = Result(out: seq<char>, ok: bool)

  function BaseOf(c: char): Option<u8> {
    if c == 'b' then Some(2) else if c == 'o' then Some(8)
    else if c == 'd' then Some(10) else if c == 'x' then Some(16) else None
  }

  /** The bits of a word argument that a size letter keeps. */
  function Narrow(c: char, v: u32): u32 {
    if c == 'b' then v % 0x100 else if c == 'w' then v % 0x1_0000 else v
  }

  function High(q: u64): u32 {
    q / 0x1_0000_0000
  }

  function Low(q: u64): u32 {
    q % 0x1_0000_0000
  }

  /** The low half of a 64-bit number comes out only if its digits fill the padding. */
  function LowText(low: u32, base: u8): seq<char>
    requires base == 2 || base == 16
  {
    if |Lowest(low, base)| >= MaxDigits(base) then Reverse(Lowest(low, base)) else []
  }

  /** A 64-bit number: the text of its high half, then what comes out of its low half. */
  function QuadText(q: u64, base: u8): seq<char>
    requires base == 2 || base == 16
  {
    Text(High(q), base) + LowText(Low(q), base)
  }

  /** The arguments a format takes are there and are of the right kind. */
  predicate ArgsMatch(fmt: seq<char>, args: seq<Arg>)
    decreases |fmt|
  {
    if |fmt| < 2 then true
    else if fmt[0] != '%' then ArgsMatch(fmt[1..], args)
    else
      && Takes(fmt[1], args)
      && var c := Convert(fmt, args);
         c.Good? ==> ArgsMatch(fmt[c.length..], args[c.count..])
  }

  /** The first argument suits the letter behind the percent sign. */
  predicate Takes(c: char, args: seq<Arg>) {
    && (c == 's' ==> args != [] && args[0].Str? && '\0' !in args[0].s)
    && (c == 'q' ==> args != [] && args[0].Quad?)
    && (c == 'b' || c == 'w' || c == 'd' ==> args != [] && args[0].Word?)
  }

  /** The conversion at the front of a format that starts with a percent sign. */
  function Convert(fmt: seq<char>, args: seq<Arg>): (c: Conversion)
    requires |fmt| >= 2 && Takes(fmt[1], args)
    ensures c.Good? ==> 2 <= c.length <= |fmt| && c.count <= |args|
  {
    if fmt[1] == 's' then Good(args[0].s, 2, 1)
    else if fmt[1] == '%' then Good(['%'], 2, 0)
    else if |fmt| == 2 then Bad
    else if fmt[1] == 'q' then
      if fmt[2] == 'b' then Good(QuadText(args[0].q, 2), 3, 1)
      else if fmt[2] == 'o' || fmt[2] == 'd' || fmt[2] == 'x' then Good(QuadText(args[0].q, 16), 3, 1)
      else Bad
    else if fmt[1] == 'b' || fmt[1] == 'w' || fmt[1] == 'd' then
      var base := BaseOf(fmt[2]);
      if base.Some? then Good(Text(Narrow(fmt[1], args[0].v), base.value), 3, 1) else Bad
    else Bad
  }

  /** The meaning of a format: literals and rendered arguments, up to a bad conversion. */
  function Render(fmt: seq<char>, args: seq<Arg>): Result
    requires ArgsMatch(fmt, args)
    decreases |fmt|
  {
    if fmt == [] || fmt == ['%'] then Result([], true)
    else if fmt[0] != '%' then
      var rest := Render(fmt[1..], args);
      Result([fmt[0]] + rest.out, rest.ok)
    else
      var c := Convert(fmt, args);
      if c.Bad? then Result([], false)
      else
        var rest := Render(fmt[c.length..], args[c.count..]);
        Result(c.text + rest.out, rest.ok)
  }

  // --------------------------------------------------------------- conversions

  /** strcpy of a string to a place at or before it in the same buffer. */
  method StrCpyDown(mem: array<char>, to: nat, from: nat)
    requires to <= from <= mem.Length && from + |CString(mem[..], from)| < mem.Length
    modifies mem
    ensures mem[..to] == old(mem[..to])
    ensures CString(mem[..], to) == old(CString(mem[..], from))
  {
    ghost var before, s := mem[..], CString(mem[..], from);
    CStringAt(before, from);
    var i := 0;
    while mem[from + i] != '\0'
      invariant 0 <= i <= |s|
      invariant mem[..to] == before[..to]
      invariant mem[to..to + i] == before[from..from + i]
      invariant forall k | to + i <= k < mem.Length :: mem[k] == before[k]
      decreases |s| - i
    {
      mem[to + i] := mem[from + i];
      i := i + 1;
      assert mem[to..to + i] == mem[to..to + i - 1] + [mem[to + i - 1]];
    }
    mem[to + i] := '\0';
    CStringIs(mem[..], to, s);
  }

  /** itoa without padding puts the text of the number into the buffer. */
  method PutText(i: u32, base: u8, buf: array<char>)
    requires IsBase(base) && buf.Length == NUM_BUF_LEN
    modifies buf
    ensures CString(buf[..], 0) == Text(i, base) && |Text(i, base)| <= MaxDigits(base) + |Prefix(base)|
  {
    LowestShort(i, base);
    OutputIs(i, base, 0);
    Itoa(i, base, buf, 0, 0);
    PaddingIff(i, base, 0, buf[..], 0);
  }

  /** What a padded call of itoa writes behind its prefix. */
  lemma LowOutput(low: u32, base: u8)
    requires base == 2 || base == 16
    ensures var out, text, skip := Output(low, base, MaxDigits(base)), LowText(low, base), |Prefix(base)|;
            && |out| == skip + MaxDigits(base) + 1
            && |text| < |out| - skip && out[skip..][..|text|] == text && out[skip..][|text|] == '\0'
            && '\0' !in text
  {
    LowestShort(low, base);
    OutputIs(low, base, MaxDigits(base));
    TextHasNoNul(low, base);
    var text := LowText(low, base);
    assert text != [] ==> text == Text(low, base)[|Prefix(base)|..];
  }

  /** The second call of itoa, behind d characters of text. */
  method AppendLow(low: u32, base: u8, buf: array<char>, d: nat)
    requires (base == 2 || base == 16) && buf.Length == NUM_BUF_LEN && d <= MaxDigits(base) + |Prefix(base)|
    modifies buf
    ensures buf[..d] == old(buf[..d]) && CString(buf[..], d) == LowText(low, base)
    ensures d + |LowText(low, base)| < buf.Length
  {
    ghost var out, text, skip := Output(low, base, MaxDigits(base)), LowText(low, base), |Prefix(base)|;
    LowOutput(low, base);
    Itoa(low, base, buf, d, if base == 2 then 32 else 8);
    assert buf[..][d + skip..d + |out|] == buf[..][d..d + |out|][skip..];
    CStringOf(buf[..], d + skip, out[skip..], text);
    if base == 16 {
      StrCpyDown(buf, d, d + 2);
    }
  }

  /** The conversion of a 64-bit number: two calls of itoa, the second one padded. */
  method ConvertQuad(q: u64, base: u8, buf: array<char>)
    requires (base == 2 || base == 16) && buf.Length == NUM_BUF_LEN
    modifies buf
    ensures CString(buf[..], 0) == QuadText(q, base) && |QuadText(q, base)| < buf.Length
  {
    PutText(High(q), base, buf);
    ghost var high := Text(High(q), base);
    CStringAt(buf[..], 0);
    var d := StrLen(buf, 0);
    AppendLow(Low(q), base, buf, d);
    CStringConcat(buf[..], 0, high);
  }

  /**
   * The switch on the letters behind a percent sign. fmt[p] is the first letter; next is
   * the last letter of the conversion, s the memory that starts with its text.
   */
  method Placeholder(fmt: seq<char>, p: nat, args: seq<Arg>) returns (ok: bool, next: nat, used: nat, s: seq<char>)
    requires 0 < p < |fmt| - 1 && IsFormat(fmt) && Takes(fmt[p], args)
    ensures var c := Convert(fmt[p - 1..|fmt| - 1], args);
            if c.Bad? then !ok
            else ok && next == p - 2 + c.length && used == c.count && CString(s, 0) == c.text && |c.text| < |s|
  {
    ok, next, used, s := true, p, 0, [];
    ghost var rest := fmt[p - 1..|fmt| - 1];
    assert rest[1] == fmt[p] && (p + 1 < |fmt| - 1 ==> rest[2] == fmt[p + 1]);
    var buf := new char[65](_ => '\0');
    if fmt[p] == 's' {
      used, s := 1, args[0].s + ['\0'];
      CStringIs(s, 0, args[0].s);
    } else if fmt[p] == '%' {
      buf[0] := '%';
      buf[1] := '\0';
      s := buf[..];
      CStringIs(s, 0, ['%']);
    } else if fmt[p] == 'q' {
      used, next := 1, p + 1;
      if fmt[next] == 'b' {
        ConvertQuad(args[0].q, 2, buf);
      } else if fmt[next] == 'o' || fmt[next] == 'd' || fmt[next] == 'x' {
        ConvertQuad(args[0].q, 16, buf);
      } else {
        return false, next, used, s;
      }
      s := buf[..];
    } else {
      if fmt[p] != 'b' && fmt[p] != 'w' && fmt[p] != 'd' {
        return false, next, used, s;
      }
      var d := Narrow(fmt[p], args[0].v);
      used, next := 1, p + 1;
      var base := BaseOf(fmt[next]);
      if base.None? {
        return false, next, used, s;
      }
      PutText(d, base.value, buf);
      s := buf[..];
    }
  }

  /** A format in memory: its characters, and the only NUL behind them. */
  predicate IsFormat(fmt: seq<char>) {
    fmt != [] && fmt[|fmt| - 1] == '\0' && '\0' !in fmt[..|fmt| - 1]
  }

  /** The copy loop for the text of a conversion. */
  method CopyText(dst: array<char>, n: nat, s: seq<char>) returns (m: nat)
    requires |CString(s, 0)| < |s| && n + |CString(s, 0)| <= dst.Length
    modifies dst
    ensures m == n + |CString(s, 0)|
    ensures dst[..m] == old(dst[..n]) + CString(s, 0)
    ensures forall k | m <= k < dst.Length :: dst[k] == old(dst[k])
  {
    CStringAt(s, 0);
    ghost var text := CString(s, 0);
    var k := 0;
    m := n;
    while s[k] != '\0'
      invariant 0 <= k <= |text| && m == n + k
      invariant dst[..m] == old(dst[..n]) + text[..k]
      invariant forall k | m <= k < dst.Length :: dst[k] == old(dst[k])
      decreases |text| - k
    {
      assert s[0..0 + |text|][k] == text[k];
      dst[m] := s[k];
      m := m + 1;
      k := k + 1;
      assert dst[..m] == dst[..m - 1] + [dst[m - 1]];
    }
  }

  /** How a call ends that has written some text and has the rest of the format before it. */
  function Finish(written: seq<char>, rest: seq<char>, args: seq<Arg>): Option<Result>
    decreases |rest|
  {
    if rest == [] || rest == ['%'] then Some(Result(written, true))
    else if rest[0] != '%' then Finish(written + [rest[0]], rest[1..], args)
    else if !Takes(rest[1], args) then None
    else
      var c := Convert(rest, args);
      if c.Bad? then Some(Result(written, false))
      else Finish(written + c.text, rest[c.length..], args[c.count..])
  }

  lemma {:induction false} LiteralMeaning(rest: seq<char>, args: seq<Arg>)
    requires ArgsMatch(rest, args) && rest != [] && rest[0] != '%'
    ensures ArgsMatch(rest[1..], args)
    ensures var tail := Render(rest[1..], args); Render(rest, args) == Result([rest[0]] + tail.out, tail.ok)
  {
    if |rest| == 1 {
      assert rest[1..] == [];
    }
  }

  lemma Joined(written: seq<char>, text: seq<char>, tail: seq<char>)
    ensures written + (text + tail) == written + text + tail
  {
  }

  /** With the right arguments it ends with the meaning of the rest. */
  lemma {:induction false} FinishIs(written: seq<char>, rest: seq<char>, args: seq<Arg>)
    requires ArgsMatch(rest, args)
    ensures var meaning := Render(rest, args);
            Finish(written, rest, args) == Some(Result(written + meaning.out, meaning.ok))
    decreases |rest|
  {
    if rest == [] || rest == ['%'] {
      assert written + [] == written;
    } else if rest[0] != '%' {
      LiteralMeaning(rest, args);
      FinishIs(written + [rest[0]], rest[1..], args);
      Joined(written, [rest[0]], Render(rest[1..], args).out);
    } else {
      var c := Convert(rest, args);
      if c.Good? {
        FinishIs(written + c.text, rest[c.length..], args[c.count..]);
        Joined(written, c.text, Render(rest[c.length..], args[c.count..]).out);
      } else {
        assert written + [] == written;
      }
    }
  }

  /** What is written stays. */
  lemma {:induction false} FinishKeeps(written: seq<char>, rest: seq<char>, args: seq<Arg>)
    requires Finish(written, rest, args).Some?
    ensures written <= Finish(written, rest, args).value.out
    decreases |rest|
  {
    if rest == [] || rest == ['%'] {
    } else if rest[0] != '%' {
      FinishKeeps(written + [rest[0]], rest[1..], args);
    } else {
      var c := Convert(rest, args);
      if c.Good? {
        FinishKeeps(written + c.text, rest[c.length..], args[c.count..]);
      }
    }
  }

  lemma LiteralStep(total: Result, written: seq<char>, rest: seq<char>, args: seq<Arg>)
    requires Finish(written, rest, args) == Some(total) && rest != [] && rest[0] != '%'
    ensures Finish(written + [rest[0]], rest[1..], args) == Some(total)
    ensures |written| < |total.out|
  {
    FinishKeeps(written + [rest[0]], rest[1..], args);
  }

  lemma ConversionStep(total: Result, written: seq<char>, rest: seq<char>, args: seq<Arg>)
    requires Finish(written, rest, args) == Some(total) && |rest| >= 2 && rest[0] == '%'
    ensures Takes(rest[1], args)
    ensures var c := Convert(rest, args);
            if c.Bad? then total == Result(written, false)
            else && |written + c.text| <= |total.out|
                 && Finish(written + c.text, rest[c.length..], args[c.count..]) == Some(total)
  {
    var c := Convert(rest, args);
    if c.Good? {
      FinishKeeps(written + c.text, rest[c.length..], args[c.count..]);
    }
  }

  /** A literal character of the format goes to the output. */
  method PutLiteral(dst: array<char>, n: nat, fmt: seq<char>, p: nat, ghost args: seq<Arg>, ghost total: Result)
    requires p < |fmt| - 1 && fmt[p] != '%' && n <= dst.Length && |total.out| <= dst.Length
    requires Finish(dst[..n], fmt[p..|fmt| - 1], args) == Some(total)
    modifies dst
    ensures n < |total.out| && forall k | n < k < dst.Length :: dst[k] == old(dst[k])
    ensures Finish(dst[..n + 1], fmt[p + 1..|fmt| - 1], args) == Some(total)
  {
    ghost var end, written := |fmt| - 1, dst[..n];
    LiteralStep(total, written, fmt[p..end], args);
    assert fmt[p..end][1..] == fmt[p + 1..end];
    dst[n] := fmt[p];
    assert dst[..n + 1] == written + [fmt[p]];
  }

  /** A conversion of the format goes to the output; p is the place behind its percent sign. */
  method PutConversion(dst: array<char>, n: nat, fmt: seq<char>, p: nat, args: seq<Arg>, ghost total: Result)
    returns (ok: bool, m: nat, next: nat, used: nat)
    requires IsFormat(fmt) && 0 < p < |fmt| - 1 && fmt[p - 1] == '%' && n <= dst.Length && |total.out| <= dst.Length
    requires Finish(dst[..n], fmt[p - 1..|fmt| - 1], args) == Some(total)
    modifies dst
    ensures if !ok then total == Result(dst[..n], false) && dst[..] == old(dst[..])
            else && n <= m <= |total.out| && p <= next < |fmt| - 1 && used <= |args|
                 && Finish(dst[..m], fmt[next + 1..|fmt| - 1], args[used..]) == Some(total)
    ensures forall k | m <= k < dst.Length :: dst[k] == old(dst[k])
  {
    ghost var end, written := |fmt| - 1, dst[..n];
    ghost var rest := fmt[p - 1..end];
    ConversionStep(total, written, rest, args);
    var s;
    ok, next, used, s := Placeholder(fmt, p, args);
    m := n;
    if ok {
      assert rest[Convert(rest, args).length..] == fmt[next + 1..end];
      m := CopyText(dst, n, s);
    }
  }

  /** Behind a percent sign, the rest of the format starts with that sign. */
  function From(p: nat, placeholder: bool): nat {
    if placeholder && p > 0 then p - 1 else p
  }

  predicate BehindSign(fmt: seq<char>, p: nat, placeholder: bool) {
    placeholder ==> 0 < p <= |fmt| && fmt[p - 1] == '%'
  }

  /** One turn of the loop over the format; ok is false at a bad conversion. */
  method Turn(dst: array<char>, n: nat, fmt: seq<char>, p: nat, placeholder: bool, args: seq<Arg>, ghost total: Result)
    returns (ok: bool, m: nat, next: nat, holder: bool, used: nat)
    requires IsFormat(fmt) && p < |fmt| - 1 && BehindSign(fmt, p, placeholder)
    requires n <= |total.out| <= dst.Length
    requires Finish(dst[..n], fmt[From(p, placeholder)..|fmt| - 1], args) == Some(total)
    modifies dst
    ensures !ok ==> total == Result(dst[..n], false) && m == n
    ensures ok ==>
              && p < next < |fmt| && n <= m <= |total.out| && used <= |args| && BehindSign(fmt, next, holder)
              && Finish(dst[..m], fmt[From(next, holder)..|fmt| - 1], args[used..]) == Some(total)
    ensures forall k | m <= k < dst.Length :: dst[k] == old(dst[k])
  {
    ok, m, next, holder, used := true, n, p + 1, false, 0;
    if placeholder {
      var last;
      ok, m, last, used := PutConversion(dst, n, fmt, p, args, total);
      m := if ok then m else n;
      next := last + 1;
    } else if fmt[p] == '%' {
      holder := true;
    } else {
      PutLiteral(dst, n, fmt, p, args, total);
      m := n + 1;
    }
    assert used == 0 ==> args[used..] == args;
  }

  /**
   * sprintf: writes the meaning of the format, without a terminator, and returns its
   * length, or -1 at a bad conversion. The format is never read past its NUL.
   */
  method Sprintf(dst: array<char>, fmt: seq<char>, args: seq<Arg>) returns (r: int)
    requires IsFormat(fmt) && ArgsMatch(fmt[..|fmt| - 1], args)
    requires |Render(fmt[..|fmt| - 1], args).out| <= dst.Length
    modifies dst
    ensures var meaning := Render(fmt[..|fmt| - 1], args);
            && dst[..|meaning.out|] == meaning.out
            && (forall k | |meaning.out| <= k < dst.Length :: dst[k] == old(dst[k]))
            && r == if meaning.ok then |meaning.out| else -1
  {
    ghost var total := Render(fmt[..|fmt| - 1], args);
    var p: nat, n: nat := 0, 0;
    var placeholder, rest := false, args;
    assert dst[..0] + total.out == total.out && fmt[0..|fmt| - 1] == fmt[..|fmt| - 1];
    FinishIs(dst[..0], fmt[..|fmt| - 1], args);
    while fmt[p] != '\0'
      invariant p < |fmt| && n <= |total.out| && BehindSign(fmt, p, placeholder)
      invariant Finish(dst[..n], fmt[From(p, placeholder)..|fmt| - 1], rest) == Some(total)
      invariant forall k | n <= k < dst.Length :: dst[k] == old(dst[k])
      decreases |fmt| - p
    {
      var ok, used;
      ok, n, p, placeholder, used := Turn(dst, n, fmt, p, placeholder, rest, total);
      if !ok {
        return -1;
      }
      rest := rest[used..];
    }
    FormatEnds(total, dst[..n], fmt, p, placeholder, rest);
    return n;
  }

  /** At the end of the format, everything is written. */
  lemma FormatEnds(total: Result, written: seq<char>, fmt: seq<char>, p: nat, placeholder: bool, args: seq<Arg>)
    requires IsFormat(fmt) && p < |fmt| && fmt[p] == '\0' && BehindSign(fmt, p, placeholder)
    requires Finish(written, fmt[From(p, placeholder)..|fmt| - 1], args) == Some(total)
    ensures total == Result(written, true)
  {
    assert forall k | 0 <= k < |fmt| - 1 :: fmt[k] == fmt[..|fmt| - 1][k];
    var rest := fmt[From(p, placeholder)..|fmt| - 1];
    assert rest == if placeholder then ['%'] else [];
  }

  // -------------------------------------------------------- what formats mean

  /** The grammar of formats, without their arguments. */
  predicate WellFormed(fmt: seq<char>) {
    if |fmt| < 2 then true
    else if fmt[0] != '%' then WellFormed(fmt[1..])
    else if fmt[1] == 's' || fmt[1] == '%' then WellFormed(fmt[2..])
    else
      && |fmt| > 2
      && (fmt[1] == 'q' || fmt[1] == 'b' || fmt[1] == 'w' || fmt[1] == 'd')
      && BaseOf(fmt[2]).Some?
      && WellFormed(fmt[3..])
  }

  /** A call succeeds exactly on well-formed formats. */
  lemma {:induction false} RenderOkIff(fmt: seq<char>, args: seq<Arg>)
    requires ArgsMatch(fmt, args)
    ensures Render(fmt, args).ok <==> WellFormed(fmt)
    decreases |fmt|
  {
    if |fmt| == 1 {
      assert fmt[0] == '%' ==> fmt == ['%'];
      assert fmt[1..] == [];
    } else if |fmt| >= 2 {
      if fmt[0] != '%' {
        RenderOkIff(fmt[1..], args);
      } else if Convert(fmt, args).Good? {
        var c := Convert(fmt, args);
        RenderOkIff(fmt[c.length..], args[c.count..]);
      }
    }
  }

  /** Text with its percent signs doubled. */
  function Escape(t: seq<char>): seq<char> {
    if t == [] then [] else (if t[0] == '%' then ['%', '%'] else [t[0]]) + Escape(t[1..])
  }

  /** Escaped text comes out as it is. */
  lemma {:induction false} EscapedTextComesOut(t: seq<char>)
    ensures ArgsMatch(Escape(t), []) && Render(Escape(t), []) == Result(t, true)
  {
    if t != [] {
      EscapedTextComesOut(t[1..]);
      var fmt, rest := Escape(t), Escape(t[1..]);
      if t[0] == '%' {
        assert fmt[0] == '%' && fmt[1] == '%' && fmt[2..] == rest;
        assert Convert(fmt, []) == Good(['%'], 2, 0);
        assert ['%'] + t[1..] == t;
      } else {
        assert fmt[0] == t[0] && fmt[1..] == rest;
        if |fmt| == 1 {
          assert rest == [];
        }
        assert [t[0]] + t[1..] == t;
      }
    }
  }

  /** A format whose first conversion is good: its text, then the meaning of the rest. */
  lemma {:induction false} FirstConversion(letters: seq<char>, arg: seq<Arg>, text: seq<char>,
                                           rest: seq<char>, args: seq<Arg>)
    requires |letters| > 0 && ArgsMatch(rest, args) && Takes(letters[0], arg + args)
    requires Convert(['%'] + letters + rest, arg + args) == Good(text, 1 + |letters|, |arg|)
    ensures var fmt := ['%'] + letters + rest;
            && ArgsMatch(fmt, arg + args)
            && Render(fmt, arg + args) == Result(text + Render(rest, args).out, Render(rest, args).ok)
  {
    var fmt := ['%'] + letters + rest;
    assert fmt[0] == '%' && fmt[1] == letters[0];
    assert fmt[1 + |letters|..] == rest && (arg + args)[|arg|..] == args;
  }

  /** A string argument comes out as it is. */
  lemma {:induction false} StringShown(str: seq<char>, rest: seq<char>, args: seq<Arg>)
    requires ArgsMatch(rest, args) && '\0' !in str
    ensures var fmt, all := ['%', 's'] + rest, [Str(str)] + args;
            && ArgsMatch(fmt, all)
            && Render(fmt, all) == Result(str + Render(rest, args).out, Render(rest, args).ok)
  {
    assert ['%'] + ['s'] + rest == ['%', 's'] + rest;
    FirstConversion(['s'], [Str(str)], str, rest, args);
  }

  /** The base that the second letter of a conversion names. */
  predicate Names(letter: char, base: u8) {
    match letter
    case 'b' => base == 2
    case 'o' => base == 8
    case 'd' => base == 10
    case 'x' => base == 16
    case _ => false
  }

  /** Text is the number v in a base, as digits or as a literal of C. */
  ghost predicate Shows(text: seq<char>, v: nat, base: u8)
    requires IsBase(base)
  {
    if base == 2 then Value(text, 2) == v && forall k | 0 <= k < |text| :: IsDigit(text[k], 2)
    else Literal(text) == v && LiteralBase(text) == base
  }

  lemma {:induction false} NarrowShown(size: char, v: u32, base: u8)
    requires (size == 'b' || size == 'w' || size == 'd') && IsBase(base)
    ensures Shows(Text(Narrow(size, v), base),
                  if size == 'b' then v % 0x100 else if size == 'w' then v % 0x1_0000 else v, base)
  {
    TextIsLiteral(Narrow(size, v), base);
  }

  lemma {:induction false} WordConverts(size: char, letter: char, base: u8, v: u32, rest: seq<char>, args: seq<Arg>)
    requires (size == 'b' || size == 'w' || size == 'd') && IsBase(base) && Names(letter, base)
    ensures Convert(['%', size, letter] + rest, [Word(v)] + args) == Good(Text(Narrow(size, v), base), 3, 1)
  {
    var fmt := ['%', size, letter] + rest;
    assert fmt[1] == size && fmt[2] == letter;
  }

  lemma {:induction false} WordRenders(size: char, letter: char, base: u8, v: u32, rest: seq<char>, args: seq<Arg>)
    requires (size == 'b' || size == 'w' || size == 'd') && IsBase(base) && Names(letter, base) && ArgsMatch(rest, args)
    ensures var fmt, all := ['%', size, letter] + rest, [Word(v)] + args;
            && ArgsMatch(fmt, all)
            && Render(fmt, all)
               == Result(Text(Narrow(size, v), base) + Render(rest, args).out, Render(rest, args).ok)
  {
    WordConverts(size, letter, base, v, rest, args);
    assert ['%'] + [size, letter] + rest == ['%', size, letter] + rest;
    FirstConversion([size, letter], [Word(v)], Text(Narrow(size, v), base), rest, args);
  }

  /**
   * A word argument comes out as the number that its size letter keeps, the low 8, 16 or 32
   * bits, in the base that the second letter names.
   */
  lemma {:induction false} WordShown(size: char, letter: char, base: u8, v: u32, rest: seq<char>, args: seq<Arg>)
    returns (text: seq<char>)
    requires (size == 'b' || size == 'w' || size == 'd') && IsBase(base) && Names(letter, base) && ArgsMatch(rest, args)
    ensures var fmt, all := ['%', size, letter] + rest, [Word(v)] + args;
            && ArgsMatch(fmt, all)
            && Render(fmt, all) == Result(text + Render(rest, args).out, Render(rest, args).ok)
    ensures Shows(text, if size == 'b' then v % 0x100 else if size == 'w' then v % 0x1_0000 else v, base)
  {
    text := Text(Narrow(size, v), base);
    NarrowShown(size, v, base);
    WordRenders(size, letter, base, v, rest, args);
  }

  lemma {:induction false} ValueConcat(s: seq<char>, t: seq<char>, base: u8)
    requires IsBase(base)
    ensures Value(s + t, base) == Value(s, base) * Power(base, |t|) + Value(t, base)
    decreases |t|
  {
    if t == [] {
      assert s + t == s;
    } else {
      var front, last := t[..|t| - 1], DigitValue(t[|t| - 1]);
      assert (s + t)[..|s + t| - 1] == s + front;
      ValueConcat(s, front, base);
      var v, p := Value(s, base), Power(base, |front|);
      assert Times(v * p + Value(front, base), base) == v * Times(p, base) + Times(Value(front, base), base) by {
        Distribute(v, p, Value(front, base), base);
      }
    }
  }

  lemma Distribute(v: nat, p: nat, f: nat, base: u8)
    requires IsBase(base)
    ensures Times(v * p + f, base) == v * Times(p, base) + Times(f, base)
  {
    assert v * (2 * p) == 2 * (v * p) && v * (8 * p) == 8 * (v * p);
    assert v * (10 * p) == 10 * (v * p) && v * (16 * p) == 16 * (v * p);
  }

  /** The digits of a low half fill the padding from this value on. */
  function FullFrom(base: u8): u32 {
    if base == 2 then 0x8000_0000 else 0x1000_0000
  }

  lemma LowFills(low: u32, base: u8)
    requires base == 2 || base == 16
    ensures |Lowest(low, base)| == MaxDigits(base) <==> low >= FullFrom(base)
    ensures Power(base, MaxDigits(base)) == 0x1_0000_0000
  {
    LowestShort(low, base);
    PowerValues();
    DigitsLengthIff(low, base, MaxDigits(base) - 1);
  }

  lemma DropConcat(s: seq<char>, t: seq<char>, k: nat)
    requires k <= |s|
    ensures (s + t)[k..] == s[k..] + t
  {
  }

  lemma AppendFull(digits: seq<char>, low: seq<char>, base: u8)
    requires IsBase(base) && Power(base, |low|) == 0x1_0000_0000
    ensures Value(digits + low, base) == Value(digits, base) * 0x1_0000_0000 + Value(low, base)
  {
    ValueConcat(digits, low, base);
  }

  /** A text with more digits behind it. */
  lemma MoreDigits(text: seq<char>, low: seq<char>, base: u8, high: nat, value: nat)
    requires IsBase(base) && |Prefix(base)| <= |text|
    requires Parse(text, base) == high && Value(low, base) == value && Power(base, |low|) == 0x1_0000_0000
    ensures Parse(text + low, base) == high * 0x1_0000_0000 + value
  {
    var digits := text[|Prefix(base)|..];
    DropConcat(text, low, |Prefix(base)|);
    AppendFull(digits, low, base);
  }

  lemma QuadFull(q: u64, base: u8)
    requires (base == 2 || base == 16) && Low(q) >= FullFrom(base)
    ensures Parse(QuadText(q, base), base) == High(q) * 0x1_0000_0000 + Low(q)
  {
    LowFills(Low(q), base);
    TextRoundTrip(High(q), base);
    DigitsRoundTrip(Low(q), base);
    MoreDigits(Text(High(q), base), Reverse(Lowest(Low(q), base)), base, High(q), Low(q));
  }

  lemma QuadShort(q: u64, base: u8)
    requires (base == 2 || base == 16) && Low(q) < FullFrom(base)
    ensures Parse(QuadText(q, base), base) == High(q)
  {
    LowFills(Low(q), base);
    LowestShort(Low(q), base);
    TextRoundTrip(High(q), base);
    assert QuadText(q, base) == Text(High(q), base);
  }

  /**
   * %q shows a 64-bit number exactly if it is zero or the low half fills its digits;
   * otherwise only the high half comes out.
   */
  lemma QuadShownIff(q: u64, base: u8)
    requires base == 2 || base == 16
    ensures Parse(QuadText(q, base), base) == q <==> q == 0 || Low(q) >= FullFrom(base)
  {
    assert q == High(q) * 0x1_0000_0000 + Low(q);
    if Low(q) >= FullFrom(base) {
      QuadFull(q, base);
    } else {
      QuadShort(q, base);
    }
  }

  /** What a 64-bit number in base 2 or 16 reads as, as digits or as a literal of C. */
  lemma {:induction false} QuadReads(q: u64, base: u8)
    requires base == 2 || base == 16
    ensures base == 2 ==> (Value(QuadText(q, 2), 2) == q <==> q == 0 || q % 0x1_0000_0000 >= 0x8000_0000)
    ensures base == 16 ==> LiteralBase(QuadText(q, 16)) == 16
    ensures base == 16 ==> (Literal(QuadText(q, 16)) == q <==> q == 0 || q % 0x1_0000_0000 >= 0x1000_0000)
  {
    QuadShownIff(q, base);
    var text := QuadText(q, base);
    if base == 2 {
      assert text[0..] == text;
    } else {
      assert text[0] == '0' && text[1] == 'x';
    }
  }

  lemma {:induction false} QuadConverts(letter: char, q: u64, rest: seq<char>, args: seq<Arg>)
    requires letter == 'b' || letter == 'o' || letter == 'd' || letter == 'x'
    ensures Convert(['%', 'q', letter] + rest, [Quad(q)] + args)
         == Good(QuadText(q, if letter == 'b' then 2 else 16), 3, 1)
  {
    var fmt := ['%', 'q', letter] + rest;
    assert fmt[1] == 'q' && fmt[2] == letter;
  }

  /**
   * A 64-bit argument comes out as itself exactly if it is zero or its low half fills its
   * digits: in binary behind %qb, and in hexadecimal behind %qo, %qd and %qx alike.
   */
  lemma {:induction false} QuadShown(letter: char, q: u64, rest: seq<char>, args: seq<Arg>) returns (text: seq<char>)
    requires letter == 'b' || letter == 'o' || letter == 'd' || letter == 'x'
    requires ArgsMatch(rest, args)
    ensures var fmt, all := ['%', 'q', letter] + rest, [Quad(q)] + args;
            && ArgsMatch(fmt, all)
            && Render(fmt, all) == Result(text + Render(rest, args).out, Render(rest, args).ok)
    ensures letter == 'b' ==> (Value(text, 2) == q <==> q == 0 || q % 0x1_0000_0000 >= 0x8000_0000)
    ensures letter != 'b' ==> LiteralBase(text) == 16
    ensures letter != 'b' ==> (Literal(text) == q <==> q == 0 || q % 0x1_0000_0000 >= 0x1000_0000)
  {
    var base: u8 := if letter == 'b' then 2 else 16;
    text := QuadText(q, base);
    QuadReads(q, base);
    QuadConverts(letter, q, rest, args);
    assert ['%'] + ['q', letter] + rest == ['%', 'q', letter] + rest;
    FirstConversion(['q', letter], [Quad(q)], text, rest, args);
  }
}
