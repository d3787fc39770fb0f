/** C strings in memory, and the kernel's conversion of numbers to text. */
module Numerals {
  import opened Words

  const NUM_BUF_LEN: int := 65

  /** The C string at an address: the characters up to the first NUL. */
  ghost function CString(mem: seq<char>, at: nat): seq<char>
    requires at <= |mem|
    decreases |mem| - at
  {
    if at == |mem| || mem[at] == '\0' then [] else [mem[at]] + CString(mem, at + 1)
  }

  /** Text without NULs, followed by one, is a C string. */
  lemma {:induction false} CStringIs(mem: seq<char>, at: nat, s: seq<char>)
    requires at + |s| < |mem| && mem[at..at + |s|] == s && mem[at + |s|] == '\0' && '\0' !in s
    ensures CString(mem, at) == s
    decreases |s|
  {
    if s != [] {
      assert mem[at] == s[0];
      assert mem[at + 1..at + 1 + |s[1..]|] == s[1..];
      CStringIs(mem, at + 1, s[1..]);
    }
  }

  /** The C string of memory that starts with `out`, whose first NUL is behind s. */
  lemma CStringOf(mem: seq<char>, at: nat, out: seq<char>, s: seq<char>)
    requires at + |out| <= |mem| && mem[at..at + |out|] == out
    requires |s| < |out| && out[..|s|] == s && out[|s|] == '\0' && '\0' !in s
    ensures CString(mem, at) == s
  {
    assert forall k | 0 <= k <= |s| :: out[k] == mem[at + k];
    assert mem[at..at + |s|] == s;
    CStringIs(mem, at, s);
  }

  /** Text without NULs in front of a C string belongs to it. */
  lemma {:induction false} CStringConcat(mem: seq<char>, at: nat, s: seq<char>)
    requires at + |s| <= |mem| && mem[at..at + |s|] == s && '\0' !in s
    ensures CString(mem, at) == s + CString(mem, at + |s|)
    decreases |s|
  {
    if s != [] {
      assert mem[at] == s[0];
      assert mem[at + 1..at + 1 + |s[1..]|] == s[1..];
      CStringConcat(mem, at + 1, s[1..]);
    }
  }

  /** A C string stands in memory as its characters. */
  lemma {:induction false} CStringAt(mem: seq<char>, at: nat)
    requires at <= |mem|
    ensures at + |CString(mem, at)| <= |mem| && '\0' !in CString(mem, at)
    ensures mem[at..at + |CString(mem, at)|] == CString(mem, at)
    ensures at + |CString(mem, at)| < |mem| ==> mem[at + |CString(mem, at)|] == '\0'
    ensures forall k | at <= k < at + |CString(mem, at)| :: mem[k] != '\0'
    decreases |mem| - at
  {
    if at < |mem| && mem[at] != '\0' {
      CStringAt(mem, at + 1);
      assert mem[at..at + |CString(mem, at)|] == [mem[at]] + mem[at + 1..at + |CString(mem, at)|];
    }
  }

  /** strlen. */
  method StrLen(mem: array<char>, at: nat) returns (c: nat)
    requires at <= mem.Length && at + |CString(mem[..], at)| < mem.Length
    ensures c == |CString(mem[..], at)|
  {
    CStringAt(mem[..], at);
    ghost var s := CString(mem[..], at);
    c := 0;
    while mem[at + c] != '\0'
      invariant 0 <= c <= |s|
      decreases |s| - c
    {
      c := c + 1;
    }
  }

  // ------------------------------------------------------------------- digits

  predicate IsBase(base: u8) {
    base == 2 || base == 8 || base == 10 || base == 16
  }

  const DIGITS: seq<char> := ['0', '1', '2', '3', '4', '5', '6', '7', '8', '9', 'a', 'b', 'c', 'd', 'e', 'f']

  /** Division by one of the four bases. */
  function Quotient(i: nat, base: u8): nat
    requires IsBase(base)
  {
    if base == 2 then i / 2 else if base == 8 then i / 8 else if base == 10 then i / 10 else i / 16
  }

  function Remainder(i: nat, base: u8): (r: nat)
    requires IsBase(base)
    ensures r < 16
  {
    if base == 2 then i % 2 else if base == 8 then i % 8 else if base == 10 then i % 10 else i % 16
  }

  /** The digits of a positive number, the lowest first. */
  function Digits(i: nat, base: u8): seq<char>
    requires IsBase(base)
  {
    if i == 0 then [] else [DIGITS[Remainder(i, base)]] + Digits(Quotient(i, base), base)
  }

  /** The digits itoa finds, the lowest first: zero has one. */
  function Lowest(i: u32, base: u8): seq<char>
    requires IsBase(base)
  {
    if i == 0 then ['0'] else Digits(i, base)
  }

  function Reverse(s: seq<char>): (r: seq<char>)
    ensures |r| == |s|
    ensures forall k | 0 <= k < |s| :: r[k] == s[|s| - 1 - k]
  {
    if s == [] then [] else Reverse(s[1..]) + [s[0]]
  }

  function Prefix(base: u8): seq<char> {
    if base == 8 then ['0'] else if base == 16 then ['0', 'x'] else []
  }

  /** A number as text, as the %d-style conversions show it. */
  function Text(i: u32, base: u8): seq<char>
    requires IsBase(base)
  {
    Prefix(base) + Reverse(Lowest(i, base))
  }

  /** The value of one digit. */
  function DigitValue(c: char): nat {
    if '0' <= c <= '9' then (c as int) - ('0' as int) else if 'a' <= c <= 'f' then (c as int) - ('a' as int) + 10 else 0
  }

  /** Multiplication by one of the four bases. */
  function Times(v: nat, base: u8): nat
    requires IsBase(base)
  {
    if base == 2 then 2 * v else if base == 8 then 8 * v else if base == 10 then 10 * v else 16 * v
  }

  /** The number that digits, the highest first, stand for. */
  function Value(s: seq<char>, base: u8): nat
    requires IsBase(base)
  {
    if s == [] then 0 else Times(Value(s[..|s| - 1], base), base) + DigitValue(s[|s| - 1])
  }

  /** Reading a text back: past its prefix, by its digits. */
  function Parse(s: seq<char>, base: u8): nat
    requires IsBase(base)
  {
    if |Prefix(base)| <= |s| then Value(s[|Prefix(base)|..], base) else 0
  }

  lemma DigitIs(k: nat)
    requires k < 16
    ensures DigitValue(DIGITS[k]) == k && DIGITS[k] != '\0' && (DIGITS[k] == '0' ==> k == 0)
  {
  }

  lemma DivMod(i: nat, base: u8)
    requires IsBase(base)
    ensures Times(Quotient(i, base), base) + Remainder(i, base) == i
    ensures Quotient(i, base) <= i / 2
  {
  }

  /** The operators of the loop, at a base that is only known to be one of the four. */
  lemma QuotientIs(i: nat, base: u8)
    requires IsBase(base)
    ensures i / base == Quotient(i, base) && i % base == Remainder(i, base)
  {
    if base == 2 {
    } else if base == 8 {
    } else if base == 10 {
    } else {
      assert base == 16;
    }
  }

  lemma {:induction false} DigitsRoundTrip(i: nat, base: u8)
    requires IsBase(base)
    ensures Value(Reverse(Digits(i, base)), base) == i
  {
    if i > 0 {
      var q, r := Quotient(i, base), Remainder(i, base);
      DivMod(i, base);
      DigitIs(r);
      DigitsRoundTrip(q, base);
      ReverseCons(DIGITS[r], Digits(q, base), base);
    }
  }

  /** No digit is a NUL, and the highest digit is not zero. */
  lemma {:induction false} DigitsNoZero(i: nat, base: u8)
    requires IsBase(base)
    ensures '\0' !in Digits(i, base)
    ensures i > 0 ==> |Digits(i, base)| > 0 && Digits(i, base)[|Digits(i, base)| - 1] != '0'
  {
    if i > 0 {
      var q, r := Quotient(i, base), Remainder(i, base);
      DivMod(i, base);
      DigitIs(r);
      DigitsNoZero(q, base);
      if q == 0 {
        assert Digits(i, base) == [DIGITS[r]];
      }
    }
  }

  lemma ReverseCons(low: char, high: seq<char>, base: u8)
    requires IsBase(base)
    ensures Reverse([low] + high) == Reverse(high) + [low]
    ensures Value(Reverse([low] + high), base) == Times(Value(Reverse(high), base), base) + DigitValue(low)
  {
    var r := Reverse([low] + high);
    assert ([low] + high)[1..] == high;
    assert r[..|r| - 1] == Reverse(high);
  }

  lemma {:induction false} ZeroText(base: u8)
    requires IsBase(base)
    ensures Reverse(['0']) == ['0'] && Value(['0'], base) == 0
  {
    assert ['0'][1..] == [] && ['0'][..0] == [];
  }

  /** itoa's text reads back as the number, and has no needless leading zero. */
  lemma {:induction false} TextRoundTrip(i: u32, base: u8)
    requires IsBase(base)
    ensures Parse(Text(i, base), base) == i
    ensures i > 0 ==> |Text(i, base)| > |Prefix(base)| && Text(i, base)[|Prefix(base)|] != '0'
    ensures i == 0 ==> Text(i, base) == Prefix(base) + ['0']
  {
    ZeroText(base);
    DigitsRoundTrip(i, base);
    DigitsNoZero(i, base);
    assert Text(i, base)[|Prefix(base)|..] == Reverse(Lowest(i, base));
  }

  /** Different numbers have different texts. */
  lemma TextInjective(i: u32, j: u32, base: u8)
    requires IsBase(base) && Text(i, base) == Text(j, base)
    ensures i == j
  {
    TextRoundTrip(i, base);
    TextRoundTrip(j, base);
  }

  /** The character is a digit of the base. */
  predicate IsDigit(c: char, base: u8) {
    if base == 2 then '0' <= c <= '1'
    else if base == 8 then '0' <= c <= '7'
    else '0' <= c <= '9' || (base == 16 && 'a' <= c <= 'f')
  }

  /** How C and this text tell the base of a number from its first characters; binary has no sign of its own. */
  function LiteralBase(s: seq<char>): u8 {
    if |s| >= 2 && s[0] == '0' && s[1] == 'x' then 16 else if |s| >= 2 && s[0] == '0' then 8 else 10
  }

  /** The value of an integer literal of C. */
  function Literal(s: seq<char>): nat {
    if LiteralBase(s) == 16 then Value(s[2..], 16)
    else if LiteralBase(s) == 8 then Value(s[1..], 8)
    else Value(s, 10)
  }

  lemma DigitOfBase(k: nat, base: u8)
    requires IsBase(base) && k < base as int
    ensures IsDigit(DIGITS[k], base)
  {
  }

  lemma {:induction false} DigitsAreDigits(i: nat, base: u8, k: nat)
    requires IsBase(base) && k < |Digits(i, base)|
    ensures IsDigit(Digits(i, base)[k], base)
  {
    QuotientIs(i, base);
    if k == 0 {
      DigitOfBase(Remainder(i, base), base);
    } else {
      DivMod(i, base);
      DigitsAreDigits(Quotient(i, base), base, k - 1);
    }
  }

  lemma {:induction false} LowestDigit(i: u32, base: u8, k: nat)
    requires IsBase(base) && k < |Lowest(i, base)|
    ensures IsDigit(Lowest(i, base)[k], base)
  {
    if i > 0 {
      DigitsAreDigits(i, base, k);
    }
  }

  lemma {:induction false} LowestReads(i: u32, base: u8)
    requires IsBase(base)
    ensures |Lowest(i, base)| > 1 ==> Lowest(i, base)[|Lowest(i, base)| - 1] != '0'
    ensures Lowest(i, base) != [] && Value(Reverse(Lowest(i, base)), base) == i
  {
    if i == 0 {
      ZeroText(base);
    } else {
      DigitsRoundTrip(i, base);
      DigitsNoZero(i, base);
    }
  }

  /** The digits of a text, behind its prefix. */
  lemma {:induction false} TextParts(i: u32, base: u8) returns (d: seq<char>)
    requires IsBase(base)
    ensures d != [] && Text(i, base) == Prefix(base) + d && Value(d, base) == i
    ensures |d| > 1 ==> d[0] != '0'
    ensures forall k | 0 <= k < |d| :: IsDigit(d[k], base)
  {
    LowestReads(i, base);
    var low := Lowest(i, base);
    d := Reverse(low);
    forall k | 0 <= k < |d|
      ensures IsDigit(d[k], base)
    {
      LowestDigit(i, base, |low| - 1 - k);
    }
  }

  lemma PrefixedLiteral(d: seq<char>, base: u8)
    requires d != [] && (base == 8 || base == 16) && IsDigit(d[0], base)
    ensures LiteralBase(Prefix(base) + d) == base && Literal(Prefix(base) + d) == Value(d, base)
  {
    var text := Prefix(base) + d;
    assert if base == 16 then text[2..] == d else text[1] == d[0] && text[1..] == d;
  }

  /**
   * In the bases 8, 10 and 16 the text of a number is the literal of C for it, in that base;
   * in base 2 it is its binary digits.
   */
  lemma {:induction false} TextIsLiteral(i: u32, base: u8)
    requires IsBase(base)
    ensures base != 2 ==> Literal(Text(i, base)) == i && LiteralBase(Text(i, base)) == base
    ensures base == 2 ==> Value(Text(i, 2), 2) == i && forall k | 0 <= k < |Text(i, 2)| :: IsDigit(Text(i, 2)[k], 2)
  {
    var d := TextParts(i, base);
    if base == 8 || base == 16 {
      PrefixedLiteral(d, base);
    } else {
      assert Text(i, base) == d;
    }
  }

  function Power(base: u8, k: nat): nat
    requires IsBase(base)
  {
    if k == 0 then 1 else Times(Power(base, k - 1), base)
  }

  /** A number has at most k digits exactly if it lies below the k-th power. */
  lemma {:induction false} DigitsLengthIff(i: nat, base: u8, k: nat)
    requires IsBase(base)
    ensures |Digits(i, base)| <= k <==> i < Power(base, k)
  {
    if i > 0 && k > 0 {
      DivMod(i, base);
      DigitsLengthIff(Quotient(i, base), base, k - 1);
    } else if i == 0 {
      PowerPositive(base, k);
    }
  }

  lemma {:induction false} PowerPositive(base: u8, k: nat)
    requires IsBase(base)
    ensures Power(base, k) > 0
  {
    if k > 0 {
      PowerPositive(base, k - 1);
    }
  }

  lemma {:induction false} PowerOf16(k: nat)
    ensures Power(2, 4 * k) == Power(16, k)
  {
    if k > 0 {
      PowerOf16(k - 1);
      assert Power(2, 4 * k - 2) == 4 * Power(2, 4 * k - 4);
      assert Power(2, 4 * k) == 4 * Power(2, 4 * k - 2);
    }
  }

  /** The powers that bound a 32-bit number. */
  lemma PowerValues()
    ensures Power(16, 7) == 0x1000_0000 && Power(16, 8) == 0x1_0000_0000
    ensures Power(2, 31) == 0x8000_0000 && Power(2, 32) == 0x1_0000_0000
    ensures Power(8, 11) == 0x2_0000_0000 && Power(10, 10) == 10_000_000_000
  {
    assert Power(16, 2) == 0x100 && Power(16, 4) == 0x1_0000 && Power(16, 6) == 0x100_0000;
    PowerOf16(8);
    assert Power(2, 32) == 2 * Power(2, 31);
    assert Power(8, 2) == 64 && Power(8, 4) == 4096 && Power(8, 6) == 0x4_0000 && Power(8, 8) == 0x100_0000;
    assert Power(8, 10) == 0x4000_0000;
    assert Power(10, 2) == 100 && Power(10, 4) == 10_000 && Power(10, 6) == 1_000_000 && Power(10, 8) == 100_000_000;
  }

  /** How many digits a 32-bit number can have. */
  function MaxDigits(base: u8): nat {
    if base == 2 then 32 else if base == 8 then 11 else if base == 10 then 10 else 8
  }

  lemma LowestShort(i: u32, base: u8)
    requires IsBase(base)
    ensures 1 <= |Lowest(i, base)| <= MaxDigits(base)
  {
    PowerValues();
    DigitsLengthIff(i, base, MaxDigits(base));
  }

  // --------------------------------------------------------------------- itoa

  /** Padding behind the digits: NULs, not zeros. */
  function Padded(digits: seq<char>, padding: nat): (r: seq<char>)
    ensures |r| == if |digits| < padding then padding else |digits|
  {
    digits + seq(if |digits| < padding then padding - |digits| else 0, _ => '\0')
  }

  /** What itoa leaves in the buffer, the terminator included. */
  function Output(i: u32, base: u8, padding: nat): seq<char>
    requires IsBase(base)
  {
    Reverse(Padded(Lowest(i, base), padding) + Reverse(Prefix(base))) + ['\0']
  }

  lemma ReverseConcat(s: seq<char>, t: seq<char>)
    ensures Reverse(s + t) == Reverse(t) + Reverse(s)
  {
  }

  /** The prefix stands first, then NULs for missing digits, then the digits. */
  lemma OutputIs(i: u32, base: u8, padding: nat)
    requires IsBase(base)
    ensures var digits := Lowest(i, base);
            Output(i, base, padding)
            == Prefix(base)
               + (seq(if |digits| < padding then padding - |digits| else 0, _ => '\0') + Reverse(digits))
               + ['\0']
  {
    var digits := Lowest(i, base);
    var nuls := seq(if |digits| < padding then padding - |digits| else 0, _ => '\0');
    PrefixReversed(base);
    ReverseConcat(Padded(digits, padding), Reverse(Prefix(base)));
    ReverseConcat(digits, nuls);
    assert Reverse(Reverse(Prefix(base))) == Prefix(base);
    assert Reverse(nuls) == nuls;
  }

  /**
   * itoa, into the buffer from `at` on. The temporary array has room for the padding with
   * the prefix behind it.
   */
  method Itoa(i: u32, base: u8, buf: array<char>, at: nat, padding: u8)
    requires IsBase(base) && padding as int + |Prefix(base)| <= NUM_BUF_LEN
    requires at + |Output(i, base, padding)| <= buf.Length
    modifies buf
    ensures buf[at..at + |Output(i, base, padding)|] == Output(i, base, padding)
    ensures buf[..at] == old(buf[..at])
    ensures buf[at + |Output(i, base, padding)|..] == old(buf[at + |Output(i, base, padding)|..])
  {
    var tmp := new char[65](_ => '\0');
    var c := LowestFirst(i, base, tmp, padding);
    CopyReversed(tmp, c, buf, at);
  }

  /** The temporary array: digits, padding and prefix, all backwards, up to index c. */
  method LowestFirst(i: u32, base: u8, tmp: array<char>, padding: u8) returns (c: int)
    requires IsBase(base) && padding as int + |Prefix(base)| <= NUM_BUF_LEN && tmp.Length == NUM_BUF_LEN
    modifies tmp
    ensures 0 <= c < NUM_BUF_LEN
    ensures tmp[..c + 1] == Padded(Lowest(i, base), padding) + Reverse(Prefix(base))
  {
    LowestShort(i, base);
    if i == 0 {
      c := 0;
      tmp[c] := '0';
      c := c + 1;
    } else {
      c := DigitLoop(i, base, tmp);
    }
    assert tmp[..c] == Lowest(i, base);
    c := PadLoop(Lowest(i, base), tmp, c, padding);
    PrefixReversed(base);
    c := PutPrefix(base, tmp, c);
  }

  /** The padding loop. */
  method PadLoop(ghost digits: seq<char>, tmp: array<char>, used: nat, padding: u8) returns (c: nat)
    requires used == |digits| <= 32 && padding <= 65 && tmp.Length == NUM_BUF_LEN && tmp[..used] == digits
    modifies tmp
    ensures c == |Padded(digits, padding)| && tmp[..c] == Padded(digits, padding)
  {
    c := used;
    while c < padding as int
      invariant used <= c && (c <= padding as int || c == used)
      invariant tmp[..c] == digits + seq(c - used, _ => '\0')
    {
      tmp[c] := '\0';
      c := c + 1;
      assert tmp[..c] == tmp[..c - 1] + ['\0'];
    }
  }

  /** The switch that appends the prefix. */
  method PutPrefix(base: u8, tmp: array<char>, used: nat) returns (c: int)
    requires IsBase(base) && 1 <= used && used + |Prefix(base)| <= NUM_BUF_LEN && tmp.Length == NUM_BUF_LEN
    modifies tmp
    ensures c + 1 == used + |Prefix(base)|
    ensures tmp[..c + 1] == old(tmp[..used]) + Reverse(Prefix(base))
  {
    PrefixReversed(base);
    c := used;
    if base == 2 || base == 10 {
      c := c - 1;
    } else if base == 8 {
      tmp[c] := '0';
    } else {
      tmp[c] := 'x';
      c := c + 1;
      tmp[c] := '0';
    }
  }

  lemma PrefixReversed(base: u8)
    ensures Reverse(Prefix(base)) == if base == 8 then ['0'] else if base == 16 then ['x', '0'] else []
  {
    assert Reverse(['0']) == ['0'];
    assert ['0', 'x'][1..] == ['x'] && Reverse(['x']) == ['x'];
  }

  /** The digit and the quotient of a round of the digit loop. */
  method Divide(i: u32, base: u8, ghost left: seq<char>) returns (q: u32, digit: char, ghost rest: seq<char>)
    requires IsBase(base) && i > 0 && left == Digits(i, base)
    ensures q < i && rest == Digits(q, base) && left == [digit] + rest
  {
    DivMod(i, base);
    QuotientIs(i, base);
    digit := DIGITS[i % base];
    q := i / base;
    rest := Digits(q, base);
  }

  /** One more character in the temporary array; rest are those that are still to come. */
  method PutDigit(tmp: array<char>, c: nat, digit: char, ghost all: seq<char>, ghost left: seq<char>,
                  ghost rest: seq<char>)
    requires c < tmp.Length && tmp[..c] + left == all && left == [digit] + rest
    modifies tmp
    ensures tmp[..c + 1] + rest == all
  {
    ghost var done := tmp[..c];
    tmp[c] := digit;
    assert tmp[..c + 1] == done + [digit];
    assert tmp[..c + 1] + rest == done + ([digit] + rest);
  }

  /** The digit loop. */
  method DigitLoop(number: u32, base: u8, tmp: array<char>) returns (c: nat)
    requires IsBase(base) && number > 0 && tmp.Length == NUM_BUF_LEN && |Digits(number, base)| <= 32
    modifies tmp
    ensures c == |Digits(number, base)| && tmp[..c] == Digits(number, base)
  {
    ghost var all := Digits(number, base);
    ghost var left := all;
    var i := number;
    c := 0;
    while i > 0
      invariant left == Digits(i, base) && c + |left| == |all| && tmp[..c] + left == all
      decreases i
    {
      var digit;
      ghost var rest;
      i, digit, rest := Divide(i, base, left);
      PutDigit(tmp, c, digit, all, left, rest);
      left, c := rest, c + 1;
    }
  }

  /** The copy loop: tmp[c] down to tmp[0], then a NUL. */
  method CopyReversed(tmp: array<char>, last: int, buf: array<char>, at: nat)
    requires tmp != buf && -1 <= last < tmp.Length && at + last + 2 <= buf.Length
    modifies buf
    ensures buf[at..at + last + 2] == Reverse(tmp[..last + 1]) + ['\0']
    ensures buf[..at] == old(buf[..at]) && buf[at + last + 2..] == old(buf[at + last + 2..])
  {
    var r, c := 0, last;
    while c >= 0
      invariant -1 <= c <= last && r == last - c
      invariant forall k | 0 <= k < buf.Length ::
                  buf[k] == if at <= k < at + r then tmp[last - (k - at)] else old(buf[k])
    {
      buf[at + r] := tmp[c];
      r := r + 1;
      c := c - 1;
    }
    buf[at + r] := '\0';
  }

  /**
   * With padding the text survives exactly if the digits fill it: a NUL in front of
   * missing digits cuts the string.
   */
  lemma PaddingIff(i: u32, base: u8, padding: nat, mem: seq<char>, at: nat)
    requires IsBase(base)
    requires at + |Output(i, base, padding)| <= |mem|
    requires mem[at..at + |Output(i, base, padding)|] == Output(i, base, padding)
    ensures CString(mem, at) == if padding <= |Lowest(i, base)| then Text(i, base) else Prefix(base)
    ensures CString(mem, at) == Text(i, base) <==> padding <= |Lowest(i, base)|
  {
    OutputIs(i, base, padding);
    TextHasNoNul(i, base);
    FirstNul(Prefix(base), Reverse(Lowest(i, base)), padding, mem, at);
  }

  /** A prefix, NULs where digits are missing, digits and a NUL in memory: the string ends at the first NUL. */
  lemma FirstNul(prefix: seq<char>, digits: seq<char>, padding: nat, mem: seq<char>, at: nat)
    requires digits != [] && '\0' !in prefix && '\0' !in digits
    requires var nuls := seq(if |digits| < padding then padding - |digits| else 0, _ => '\0');
             var out := prefix + (nuls + digits) + ['\0'];
             at + |out| <= |mem| && mem[at..at + |out|] == out
    ensures CString(mem, at) == if padding <= |digits| then prefix + digits else prefix
    ensures CString(mem, at) == prefix + digits <==> padding <= |digits|
  {
    var nuls := seq(if |digits| < padding then padding - |digits| else 0, _ => '\0');
    var out := prefix + (nuls + digits) + ['\0'];
    var s := if padding <= |digits| then prefix + digits else prefix;
    assert out[..|s|] == s && out[|s|] == '\0';
    CStringOf(mem, at, out, s);
  }

  lemma ReverseHas(s: seq<char>, c: char)
    requires c !in s
    ensures c !in Reverse(s)
  {
  }

  lemma TextHasNoNul(i: u32, base: u8)
    requires IsBase(base)
    ensures '\0' !in Text(i, base) && '\0' !in Prefix(base)
  {
    DigitsNoZero(i, base);
    ReverseHas(Lowest(i, base), '\0');
  }
}
