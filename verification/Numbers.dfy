/** Numbers as text: itoa with its buffer, reverse, atoi, and the padding of a conversion.

    A char* is an array together with the text it holds up to its terminator; a string that is
    only read is a Dafny string.
 */
module Numbers {
  import opened Wrappers

  const NUL := '\0'

  // ---- digits ----

  /** The bases the formatter uses. */
  datatype Base = Octal | Decimal | Hexadecimal

  function Radix(base: Base): nat {
    match base case Octal => 8 case Decimal => 10 case Hexadecimal => 16
  }

  /** Quotient(num, base), with the three divisors spelled out for the solver's sake. */
  function Quotient(num: nat, base: Base): nat {
    match base case Octal => num / 8 case Decimal => num / 10 case Hexadecimal => num / 16
  }

  function Remainder(num: nat, base: Base): nat {
    match base case Octal => num % 8 case Decimal => num % 10 case Hexadecimal => num % 16
  }

  /** alphanumeric[d] */
  function DigitChar(d: nat): char
    requires d < 36
  {
    if d < 10 then ('0' as int + d) as char else ('A' as int + d - 10) as char
  }

  function DigitValue(c: char): nat {
    if '0' <= c <= '9' then c as int - '0' as int
    else if 'A' <= c <= 'Z' then c as int - 'A' as int + 10
    else 0
  }

  /** digit_to_int: decimal digits, and 0 for every other character. */
  function DigitToInt(c: char): nat {
    if '1' <= c <= '9' then c as int - '0' as int else 0
  }

  /** How often num can be divided by base before it is no longer positive. */
  function NDigits(num: int, base: Base): nat
    decreases if num > 0 then num else 0
  {
    if num <= 0 then 0 else 1 + NDigits(Quotient(num, base), base)
  }

  /** A number as it is written in a base. */
  function Digits(num: nat, base: Base): string
  {
    (if Quotient(num, base) > 0 then Digits(Quotient(num, base), base) else "") + [DigitChar(Remainder(num, base))]
  }

  /** The number a text stands for in a base. */
  function Value(t: string, base: Base): nat {
    if t == "" then 0 else Radix(base) * Value(t[..|t| - 1], base) + DigitValue(t[|t| - 1])
  }

  /** There are as many digits as the loop that sizes the buffer counts; for zero there is one
      and that loop counts none. */
  lemma {:induction false} DigitsCount(num: nat, base: Base)
    ensures |Digits(num, base)| == if num > 0 then NDigits(num, base) else 1
  {
    if Quotient(num, base) > 0 {
      DigitsCount(Quotient(num, base), base);
    }
  }

  /** The digits evaluate back to the number. */
  lemma {:induction false} DigitsValue(num: nat, base: Base)
    ensures Value(Digits(num, base), base) == num
  {
    var d := Digits(num, base);
    assert d[..|d| - 1] == if Quotient(num, base) > 0 then Digits(Quotient(num, base), base) else "";
    if Quotient(num, base) > 0 {
      DigitsValue(Quotient(num, base), base);
    }
  }

  /** They are digits of the base, the first not a superfluous zero. */
  lemma {:induction false} DigitsProper(num: nat, base: Base)
    ensures var d := Digits(num, base);
            forall i :: 0 <= i < |d| ==> IsDigit(d[i], base)
    ensures num > 0 ==> Digits(num, base)[0] != '0'
  {
    if Quotient(num, base) > 0 {
      DigitsProper(Quotient(num, base), base);
    }
  }

  predicate IsDigit(c: char, base: Base) {
    match base
    case Octal => '0' <= c <= '7'
    case Decimal => '0' <= c <= '9'
    case Hexadecimal => '0' <= c <= '9' || 'A' <= c <= 'F'
  }

  // ---- strings in memory ----

  /** `a` holds the C string `t`. */
  predicate Holds(a: array<char>, t: string)
    reads a
  {
    |t| < a.Length && a[..|t|] == t && a[|t|] == NUL && NUL !in t
  }

  function Reversed(t: string): string {
    seq(|t|, i requires 0 <= i < |t| => t[|t| - 1 - i])
  }

  lemma ReversedSnoc(t: string, c: char)
    ensures Reversed(t + [c]) == [c] + Reversed(t)
  {
  }

  method Strlen(str: array<char>, ghost t: string) returns (n: nat)
    requires Holds(str, t)
    ensures n == |t|
  {
    n := 0;
    assert forall k :: 0 <= k < |t| ==> str[k] == t[k] && t[k] != NUL;
    while str[n] != NUL
      invariant n <= |t|
      decreases |t| - n
    {
      n := n + 1;
    }
  }

  method Reverse(str: array<char>, ghost t: string)
    requires Holds(str, t)
    modifies str
    ensures Holds(str, Reversed(t)) && str[|t|..] == old(str[|t|..])
  {
    var n := Strlen(str, t);
    var i: int, j: int := 0, n - 1;
    while i < j
      invariant 0 <= i <= n && i + j == n - 1
      invariant forall k :: 0 <= k < i || j < k < n ==> str[k] == t[n - 1 - k]
      invariant forall k :: i <= k <= j ==> str[k] == t[k]
      invariant str[n..] == old(str[n..])
    {
      var c := str[i];
      str[i] := str[j];
      str[j] := c;
      i, j := i + 1, j - 1;
    }
    assert str[n..][0] == NUL;
    assert str[..n] == Reversed(t);
  }

  // ---- itoa ----

  method GetNDigits(num: int, base: Base) returns (n: nat)
    ensures n == NDigits(num, base)
  {
    n := 0;
    var left := num;
    while left > 0
      invariant n + NDigits(left, base) == NDigits(num, base)
      decreases left
    {
      left := Quotient(left, base);
      n := n + 1;
    }
  }

  /** `least` is the least value of the number's type, which negation leaves as it is. */
  function Negated(num: int, least: int): int {
    if num == least then num else -num
  }

  /** The number whose digits are written. A number still negative when its digits are taken,
      which is so for the least one and in other bases than ten, has a negative remainder:
      the digit is then read from in front of the table unless the remainder is zero. */
  function Shown(num: int, least: int, base: Base): Option<nat>
  {
    var n := if num < 0 && base.Decimal? then Negated(num, least) else num;
    if n >= 0 then Some(n) else if Remainder(-n, base) == 0 then Some(0) else None
  }

  datatype Style = Style(space: bool, plus: bool, prefix: bool)

  function Sign(num: int, base: Base, style: Style): string {
    if num < 0 && base.Decimal? then "-" else if style.space then " " else if style.plus then "+" else ""
  }

  function Prefix(base: Base, style: Style): string {
    if !style.prefix then "" else if base.Octal? then "0" else if base.Hexadecimal? then "0x" else ""
  }

  function Text(num: int, least: int, base: Base, style: Style): string
    requires Shown(num, least, base).Some?
  {
    Sign(num, base, style) + Prefix(base, style) + Digits(Shown(num, least, base).value, base)
  }

  /** What itoa asks kmalloc for. */
  function Requested(num: int, base: Base, style: Style): nat
  {
    NDigits(num, base) + 1 + (if style.space || style.plus || (num < 0 && base.Decimal?) then 1 else 0)
    + (if style.prefix && base.Octal? then 1 else 0) + (if style.prefix && base.Hexadecimal? then 2 else 0)
  }

  /** The requested buffer is exactly filled by every positive number, terminator included, and
      too small for every other one. */
  lemma BufferExact(num: int, least: int, base: Base, style: Style)
    requires Shown(num, least, base).Some?
    ensures num > 0 ==> |Text(num, least, base, style)| + 1 == Requested(num, base, style)
    ensures num <= 0 ==> |Text(num, least, base, style)| + 1 > Requested(num, base, style)
  {
    DigitsCount(Shown(num, least, base).value, base);
  }

  lemma TextClean(num: int, least: int, base: Base, style: Style)
    requires Shown(num, least, base).Some?
    ensures NUL !in Text(num, least, base, style)
  {
    DigitsProper(Shown(num, least, base).value, base);
  }

  datatype Outcome = Written | Overruns | ReadsOutside

  /** One more character in front of the text that is being built backwards. */
  method Put(buf: array<char>, len: nat, c: char, ghost t: string) returns (len': nat, fits: bool, ghost t': string)
    requires len == |t| <= buf.Length && Reversed(buf[..len]) == t
    modifies buf
    ensures t' == [c] + t && len' == |t'|
    ensures fits <==> |t'| <= buf.Length
    ensures fits ==> Reversed(buf[..len']) == t'
  {
    t' := [c] + t;
    len' := len + 1;
    if len == buf.Length {
      return len', false, t';
    }
    ghost var done := buf[..len];
    buf[len] := c;
    assert buf[..len + 1] == done + [c];
    ReversedSnoc(done, c);
    fits := true;
  }

  /** The digits from the number that is left; none when it has been used up. */
  function Left(num: nat, base: Base): string {
    if num > 0 then Digits(num, base) else ""
  }

  lemma LeftStep(num: nat, base: Base, t: string)
    requires num > 0
    ensures Left(num, base) + t == Left(Quotient(num, base), base) + ([DigitChar(Remainder(num, base))] + t)
  {
  }

  /** The digits, least significant first. */
  method PutDigits(buf: array<char>, num: nat, base: Base) returns (len: nat, fits: bool, ghost t: string)
    modifies buf
    ensures t == Digits(num, base)
    ensures fits <==> |t| <= buf.Length
    ensures fits ==> len == |t| && Reversed(buf[..len]) == t
  {
    ghost var all := Digits(num, base);
    len, fits, t := Put(buf, 0, DigitChar(Remainder(num, base)), "");
    var n := Quotient(num, base);
    while fits && n > 0
      invariant all == Left(n, base) + t
      invariant fits <==> |t| <= buf.Length
      invariant fits ==> len == |t| && Reversed(buf[..len]) == t
      decreases fits, n
    {
      LeftStep(n, base, t);
      len, fits, t := Put(buf, len, DigitChar(Remainder(n, base)), t);
      n := Quotient(n, base);
    }
    t := all;
  }

  method PutPrefix(buf: array<char>, len: nat, base: Base, style: Style, ghost t: string)
    returns (len': nat, fits: bool, ghost t': string)
    requires len == |t| <= buf.Length && Reversed(buf[..len]) == t
    modifies buf
    ensures t' == Prefix(base, style) + t
    ensures fits <==> |t'| <= buf.Length
    ensures fits ==> len' == |t'| && Reversed(buf[..len']) == t'
  {
    len', fits, t' := len, true, t;
    if style.prefix {
      if base.Octal? {
        len', fits, t' := Put(buf, len', '0', t');
      } else if base.Hexadecimal? {
        len', fits, t' := Put(buf, len', 'x', t');
        if fits {
          len', fits, t' := Put(buf, len', '0', t');
        } else {
          t' := "0" + t';
        }
      }
    }
  }

  method PutSign(buf: array<char>, len: nat, neg: bool, ghost num: int, ghost base: Base, style: Style, ghost t: string)
    returns (len': nat, fits: bool, ghost t': string)
    requires len == |t| <= buf.Length && Reversed(buf[..len]) == t
    requires neg <==> num < 0 && base.Decimal?
    modifies buf
    ensures t' == Sign(num, base, style) + t
    ensures fits <==> |t'| <= buf.Length
    ensures fits ==> len' == |t'| && Reversed(buf[..len']) == t'
  {
    len', fits, t' := len, true, t;
    if neg {
      len', fits, t' := Put(buf, len', '-', t');
    } else if style.space {
      len', fits, t' := Put(buf, len', ' ', t');
    } else if style.plus {
      len', fits, t' := Put(buf, len', '+', t');
    }
  }

  /** The terminator, and the text turned round. */
  method Finish(buf: array<char>, len: nat, ghost t: string)
    requires len == |t| < buf.Length && Reversed(buf[..len]) == t && NUL !in t
    modifies buf
    ensures Holds(buf, t)
  {
    ghost var r := buf[..len];
    buf[len] := NUL;
    assert buf[..len] == r && t == Reversed(r);
    assert forall k :: 0 <= k < len ==> r[k] == t[len - 1 - k];
    assert Reversed(t) == r;
    Reverse(buf, r);
  }

  /** Digits, prefix and sign, each in front of what came before. */
  method PutAll(buf: array<char>, n: nat, neg: bool, ghost num: int, base: Base, style: Style)
    returns (len: nat, fits: bool, ghost t: string)
    requires neg <==> num < 0 && base.Decimal?
    modifies buf
    ensures t == Sign(num, base, style) + Prefix(base, style) + Digits(n, base)
    ensures fits ==> len == |t| <= buf.Length && Reversed(buf[..len]) == t
    ensures !fits ==> |t| > buf.Length
  {
    ghost var sign, prefix, digits := Sign(num, base, style), Prefix(base, style), Digits(n, base);
    ghost var all := sign + prefix + digits;
    assert all == sign + (prefix + digits) && |all| == |sign| + |prefix| + |digits|;
    len, fits, t := PutDigits(buf, n, base);
    if fits {
      len, fits, t := PutPrefix(buf, len, base, style, t);
      if fits {
        len, fits, t := PutSign(buf, len, neg, num, base, style, t);
      }
    }
    t := all;
  }

  /** itoa into the block kmalloc returned, of whatever size that really is. */
  method Itoa(buf: array<char>, num: int, least: int, base: Base, style: Style) returns (r: Outcome)
    modifies buf
    ensures r.ReadsOutside? <==> Shown(num, least, base).None?
    ensures r.Written? <==> Shown(num, least, base).Some? && |Text(num, least, base, style)| < buf.Length
    ensures r.Written? ==> Holds(buf, Text(num, least, base, style))
  {
    var neg := num < 0 && base.Decimal?;
    var n := if neg then Negated(num, least) else num;
    if n < 0 && Remainder(-n, base) != 0 {
      return ReadsOutside;
    }
    TextClean(num, least, base, style);
    var len, fits, t := PutAll(buf, if n < 0 then 0 else n, neg, num, base, style);
    if !fits || len == buf.Length {
      return Overruns;
    }
    Finish(buf, len, t);
    return Written;
  }

  // ---- atoi ----

  /** Left-to-right evaluation, every character other than a decimal digit counting as a zero. */
  function DecValue(t: string): nat {
    if t == "" then 0 else 10 * DecValue(t[..|t| - 1]) + DigitToInt(t[|t| - 1])
  }

  const INT_MAX: int := 0x7FFF_FFFF

  /** The characters behind a minus sign, if there is one. */
  function Unsigned(t: string): string {
    if t != "" && t[0] == '-' then t[1..] else t
  }

  /** The number a text stands for. */
  function Evaluated(t: string): int {
    if t != "" && t[0] == '-' then 0 - DecValue(t[1..]) as int else DecValue(t) as int
  }

  /** What atoi returns; None when a step leaves the range of an int. */
  function Parsed(t: string): Option<int> {
    if DecValue(Unsigned(t)) <= INT_MAX then Some(Evaluated(t)) else None
  }

  /** The least int does not count: atoi builds its magnitude first. */
  predicate InInt(n: int) {
    -INT_MAX <= n <= INT_MAX
  }

  lemma ParsedExact(t: string, n: int)
    ensures Parsed(t) == Some(n) <==> Evaluated(t) == n && InInt(n)
  {
  }

  method Atoi(num: string) returns (r: Option<int>)
    ensures r == Parsed(num)
  {
    var n := 0;
    var i := 0;
    var neg := false;
    if |num| > 0 && num[0] == '-' {
      neg := true;
      i := i + 1;
    }
    ghost var t := num[i..];
    while i < |num|
      invariant |num| - |t| <= i <= |num|
      invariant 0 <= n == DecValue(t[..i - (|num| - |t|)])
      invariant n <= INT_MAX
    {
      ghost var k := i - (|num| - |t|);
      assert t[..k + 1][..k] == t[..k] && t[k] == num[i];
      DecValueGrows(t, k + 1);
      if n * 10 > INT_MAX {
        return None;
      }
      n := n * 10;
      if n + DigitToInt(num[i]) > INT_MAX {
        return None;
      }
      n := n + DigitToInt(num[i]);
      i := i + 1;
    }
    assert t[..|t|] == t;
    if neg {
      n := -n;
    }
    return Some(n);
  }

  lemma {:induction false} DecValueConcat(a: string, b: string)
    requires DecValue(a) == 0
    ensures DecValue(a + b) == DecValue(b)
  {
    if b == "" {
      assert a + b == a;
    } else {
      assert (a + b)[..|a + b| - 1] == a + b[..|b| - 1];
      DecValueConcat(a, b[..|b| - 1]);
    }
  }

  /** No value on the way is larger than the last one, so nothing wraps that fits in the end. */
  lemma {:induction false} DecValueGrows(t: string, i: nat)
    requires i <= |t|
    ensures DecValue(t[..i]) <= DecValue(t)
    decreases |t|
  {
    if i < |t| {
      assert t[..|t| - 1][..i] == t[..i];
      DecValueGrows(t[..|t| - 1], i);
    } else {
      assert t[..i] == t;
    }
  }

  lemma {:induction false} DecValueOfDigits(t: string)
    requires forall i :: 0 <= i < |t| ==> '0' <= t[i] <= '9'
    ensures DecValue(t) == Value(t, Decimal)
  {
    if t != "" {
      DecValueOfDigits(t[..|t| - 1]);
    }
  }

  /** A text that stands for num, being a minus sign and a value or just a value. */
  predicate Shows(t: string, num: int) {
    t != "" && if num < 0 then t[0] == '-' && DecValue(t[1..]) == -num else t[0] != '-' && DecValue(t) == num
  }

  lemma SignReadsAsZero(num: int, style: Style)
    requires num >= 0
    ensures var sign := Sign(num, Decimal, style); DecValue(sign) == 0 && (sign == "" || sign[0] != '-')
  {
    var sign := Sign(num, Decimal, style);
    if sign != "" {
      assert sign[..0] == "";
    }
  }

  lemma SignedDigits(num: int, style: Style, digits: string)
    requires digits != "" && digits[0] != '-' && DecValue(digits) == if num < 0 then -num else num
    ensures Shows(Sign(num, Decimal, style) + digits, num)
  {
    var sign := Sign(num, Decimal, style);
    if num < 0 {
      assert (sign + digits)[1..] == digits;
    } else {
      SignReadsAsZero(num, style);
      DecValueConcat(sign, digits);
      assert (sign + digits)[0] == if sign == "" then digits[0] else sign[0];
    }
  }

  lemma TextShows(num: int, least: int, style: Style)
    requires num > least || num >= 0
    ensures Shown(num, least, Decimal).Some? && Shows(Text(num, least, Decimal, style), num)
  {
    var shown := Shown(num, least, Decimal).value;
    var digits := Digits(shown, Decimal);
    DigitsProper(shown, Decimal);
    DigitsValue(shown, Decimal);
    DecValueOfDigits(digits);
    SignedDigits(num, style, digits);
    assert Text(num, least, Decimal, style) == Sign(num, Decimal, style) + digits;
  }

  lemma LeastMisread(num: int, style: Style)
    requires num < 0 && Shown(num, num, Decimal).Some?
    ensures Evaluated(Text(num, num, Decimal, style)) == 0
  {
    var digits := Digits(0, Decimal);
    assert digits == "0" && digits[..0] == "";
    assert Text(num, num, Decimal, style) == "-" + digits;
    assert ("-" + digits)[1..] == digits;
  }

  /** atoi reads back what itoa wrote in base ten, whatever the flags (a leading space or plus is
      read as a zero), exactly for the numbers whose magnitude an int holds and that are not the
      least of a signed type. */
  lemma RoundTrip(num: int, least: int, style: Style)
    requires num >= least
    ensures Shown(num, least, Decimal).Some? && Parsed(Text(num, least, Decimal, style)) == Some(num)
            <==> InInt(num) && (num > least || num >= 0)
    ensures num > least && !InInt(num) ==>
              Shown(num, least, Decimal).Some? && Parsed(Text(num, least, Decimal, style)) == None
  {
    if num > least || num >= 0 {
      TextShows(num, least, style);
      ParsedExact(Text(num, least, Decimal, style), num);
    } else if Shown(num, least, Decimal).Some? {
      LeastMisread(num, style);
    }
  }

  /** The smallest positive long that is written and overflows when read. */
  lemma LongOverflows(style: Style)
    ensures Shown(0x8000_0000, -0x8000_0000_0000_0000, Decimal).Some?
    ensures Parsed(Text(0x8000_0000, -0x8000_0000_0000_0000, Decimal, style)) == None
  {
    RoundTrip(0x8000_0000, -0x8000_0000_0000_0000, style);
  }

  /** The least number of a signed type is not written at all: its last digit is not zero, and
      is looked up in front of the table. */
  lemma LeastNotWritten(bits: nat)
    requires bits == 8 || bits == 16 || bits == 32 || bits == 64
    ensures var least := match bits
                         case 8 => -0x80
                         case 16 => -0x8000
                         case 32 => -0x8000_0000
                         case _ => -0x8000_0000_0000_0000;
            Shown(least, least, Decimal) == None
  {
  }

  // ---- width and precision ----

  function Repeat(c: char, n: nat): string {
    seq(n, _ => c)
  }

  /** __kvsprintf_justify */
  function Justified(t: string, width: nat, left: bool, zero: bool): string {
    if |t| >= width then t
    else var padding := Repeat(if zero then '0' else ' ', width - |t|); if left then t + padding else padding + t
  }

  /** __kvsprintf_intprecision, but for what follows the text in memory. */
  function Lengthened(t: string, precision: nat): string {
    if precision < |t| then t else Repeat('0', precision - |t|) + t
  }

  function CopyLength(t: string, max: nat): nat {
    if 0 < max < |t| then max else |t|
  }

  /** __copy_out; a `max` of 0 stands for no limit. The terminator is not copied. */
  method CopyOut(out: array<char>, at: nat, str: array<char>, ghost t: string, max: nat) returns (n: nat)
    requires Holds(str, t) && out != str
    requires at + CopyLength(t, max) <= out.Length
    modifies out
    ensures n == CopyLength(t, max)
    ensures out[..at] == old(out[..at]) && out[at..at + n] == t[..n] && out[at + n..] == old(out[at + n..])
  {
    n := 0;
    assert forall k :: 0 <= k < |t| ==> str[k] == t[k] && t[k] != NUL;
    while str[n] != NUL
      invariant n <= CopyLength(t, max)
      invariant n == CopyLength(t, max) ==> n == |t|
      invariant forall k :: 0 <= k < n ==> out[at + k] == t[k]
      invariant forall k :: 0 <= k < at || at + n <= k < out.Length ==> out[k] == old(out[k])
      decreases |t| - n
    {
      out[at + n] := str[n];
      n := n + 1;
      if max > 0 && n >= max {
        break;
      }
    }
  }

  method FillWith(out: array<char>, at: nat, n: nat, c: char)
    requires at + n <= out.Length
    modifies out
    ensures out[..at] == old(out[..at]) && out[at..at + n] == Repeat(c, n) && out[at + n..] == old(out[at + n..])
  {
    var i := 0;
    while i < n
      invariant 0 <= i <= n
      invariant forall k :: at <= k < at + i ==> out[k] == c
      invariant forall k :: 0 <= k < at || at + i <= k < out.Length ==> out[k] == old(out[k])
    {
      out[at + i] := c;
      i := i + 1;
    }
  }

  method PadBehind(final: array<char>, str: array<char>, ghost t: string, width: nat, c: char)
    requires Holds(str, t) && final != str && |t| < width < final.Length
    modifies final
    ensures final[..width] == t + Repeat(c, width - |t|)
  {
    var len := CopyOut(final, 0, str, t, 0);
    assert final[..len] == t;
    FillWith(final, len, width - len, c);
    assert final[..width] == final[..len] + final[len..width];
  }

  method PadInFront(final: array<char>, str: array<char>, ghost t: string, width: nat, c: char)
    requires Holds(str, t) && final != str && |t| < width < final.Length
    modifies final
    ensures final[..width] == Repeat(c, width - |t|) + t
  {
    var len := Strlen(str, t);
    var needed := width - len;
    var copied := CopyOut(final, needed, str, t, 0);
    ghost var tail := final[needed..];
    assert t[..copied] == t && tail[..len] == final[needed..needed + copied];
    FillWith(final, 0, needed, c);
    assert final[..width] == final[..needed] + final[needed..][..len];
  }

  method Justify(str: array<char>, ghost t: string, width: nat, left: bool, zero: bool) returns (final: array<char>)
    requires Holds(str, t)
    ensures Holds(final, Justified(t, width, left, zero))
    ensures final == str <==> |t| >= width
  {
    var len := Strlen(str, t);
    if len >= width {
      return str;
    }
    var padding := if zero then '0' else ' ';
    final := new char[width + 1];
    if left {
      PadBehind(final, str, t, width, padding);
    } else {
      PadInFront(final, str, t, width, padding);
    }
    ghost var all := final[..width];
    final[width] := NUL;
    assert final[..width] == all;
  }

  /** A block from kmalloc together with the memory behind it, which from offset `at` on reads
      `residue` up to the next zero byte. */
  method Kmalloc(at: nat, residue: string) returns (block: array<char>)
    ensures fresh(block) && block.Length == at + |residue| + 1
    ensures block[at..] == residue + [NUL]
  {
    block := new char[at + |residue| + 1](i requires 0 <= i < at + |residue| + 1 =>
      if i < at || i == at + |residue| then NUL else residue[i - at]);
  }

  /** Filling up with zeros. The new block ends where the text does and gets no terminator, so
      what memory holds behind it is taken for part of the text. */
  method IntPrecision(str: array<char>, ghost t: string, precision: nat, residue: string) returns (end: array<char>)
    requires Holds(str, t) && NUL !in residue
    ensures Holds(end, if precision < |t| then t else Lengthened(t, precision) + residue)
    ensures end == str <==> precision < |t|
  {
    var len := Strlen(str, t);
    if precision < len {
      return str;
    }
    end := Kmalloc(precision, residue);
    FillWith(end, 0, precision - len, '0');
    ghost var zeros := end[..precision - len];
    var n := CopyOut(end, precision - len, str, t, 0);
    assert t[..n] == t;
    assert end[..precision] == end[..precision - len] + end[precision - len..precision - len + n];
    assert end[precision..] == residue + [NUL];
    assert end[..precision + |residue|] == end[..precision] + end[precision..][..|residue|];
  }

  lemma {:induction false} ZeroPadding(c: char, n: nat)
    requires c == '0' || c == ' '
    ensures DecValue(Repeat(c, n)) == 0
  {
    if n > 0 {
      assert Repeat(c, n)[..n - 1] == Repeat(c, n - 1);
      ZeroPadding(c, n - 1);
    }
  }

  /** Anything in front of a number's text is read as leading zeros, a minus sign behind it
      included. */
  lemma PaddedInFront(t: string, num: int, c: char, n: nat)
    requires Shows(t, num) && (c == '0' || c == ' ') && n > 0
    ensures Evaluated(Repeat(c, n) + t) == if num < 0 then -num else num
  {
    ZeroPadding(c, n);
    DecValueConcat(Repeat(c, n), t);
    if num < 0 {
      assert t == [t[0]] + t[1..] && [t[0]][..0] == "";
      DecValueConcat([t[0]], t[1..]);
    }
    assert (Repeat(c, n) + t)[0] == c;
  }

  lemma {:induction false} DecValuePadded(t: string, c: char, n: nat)
    requires c == '0' || c == ' '
    ensures DecValue(t + Repeat(c, n)) >= DecValue(t)
    ensures DecValue(t + Repeat(c, n)) == DecValue(t) <==> n == 0 || DecValue(t) == 0
  {
    if n == 0 {
      assert t + Repeat(c, n) == t;
    } else {
      assert (t + Repeat(c, n))[..|t| + n - 1] == t + Repeat(c, n - 1);
      DecValuePadded(t, c, n - 1);
    }
  }

  /** Every character behind it multiplies a number by ten. */
  lemma PaddedBehind(t: string, num: int, c: char, n: nat)
    requires Shows(t, num) && (c == '0' || c == ' ') && n > 0
    ensures Evaluated(t + Repeat(c, n)) == num <==> num == 0
  {
    if num < 0 {
      assert (t + Repeat(c, n))[1..] == t[1..] + Repeat(c, n);
      DecValuePadded(t[1..], c, n);
    } else {
      DecValuePadded(t, c, n);
    }
  }

  /** Right-justified, with either padding, a number an int holds reads back unless a minus sign
      ends up behind the padding; left-justified, only zero does once anything is appended. */
  lemma JustifyExact(t: string, num: int, width: nat, left: bool, zero: bool)
    requires Shows(t, num)
    ensures Parsed(Justified(t, width, left, zero)) == Some(num)
            <==> InInt(num) && (|t| >= width || (if left then num == 0 else num >= 0))
  {
    ParsedExact(Justified(t, width, left, zero), num);
    if |t| < width {
      var c, n := if zero then '0' else ' ', width - |t|;
      if left {
        PaddedBehind(t, num, c, n);
      } else {
        PaddedInFront(t, num, c, n);
      }
    }
  }

  /** So do the zeros of a precision, which go in front of the sign. */
  lemma PrecisionExact(t: string, num: int, precision: nat)
    requires Shows(t, num)
    ensures Parsed(Lengthened(t, precision)) == Some(num) <==> InInt(num) && (num >= 0 || precision <= |t|)
  {
    ParsedExact(Lengthened(t, precision), num);
    if precision > |t| {
      PaddedInFront(t, num, '0', precision - |t|);
    } else if precision == |t| {
      assert Repeat('0', 0) + t == t;
    }
  }

  // ---- reading back in any base ----

  lemma {:induction false} LeadingZeros(a: string, b: string, base: Base)
    requires Value(a, base) == 0
    ensures Value(a + b, base) == Value(b, base)
  {
    if b == "" {
      assert a + b == a;
    } else {
      assert (a + b)[..|a + b| - 1] == a + b[..|b| - 1];
      LeadingZeros(a, b[..|b| - 1], base);
    }
  }

  lemma PrefixReadsAsZero(n: int, base: Base, style: Style)
    requires n >= 0
    ensures Value(Sign(n, base, style) + Prefix(base, style), base) == 0
  {
    var sign, prefix := Sign(n, base, style), Prefix(base, style);
    assert Value(sign, base) == 0 by {
      if sign != "" {
        assert sign[..0] == "";
      }
    }
    assert Value(prefix, base) == 0 by {
      if prefix == "0x" {
        assert prefix[..1] == "0" && prefix[..1][..0] == "";
      } else if prefix == "0" {
        assert prefix[..0] == "";
      }
    }
    LeadingZeros(sign, prefix, base);
  }

  /** Every number that is not negative evaluates to itself in its base, whatever the flags. */
  lemma TextValue(num: int, least: int, base: Base, style: Style)
    requires num >= 0
    ensures Shown(num, least, base) == Some(num) && Value(Text(num, least, base, style), base) == num
  {
    PrefixReadsAsZero(num, base, style);
    LeadingZeros(Sign(num, base, style) + Prefix(base, style), Digits(num, base), base);
    DigitsValue(num, base);
  }

  lemma {:induction false} PaddingValue(c: char, n: nat, base: Base)
    requires c == '0' || c == ' '
    ensures Value(Repeat(c, n), base) == 0
  {
    if n > 0 {
      assert Repeat(c, n)[..n - 1] == Repeat(c, n - 1);
      PaddingValue(c, n - 1, base);
    }
  }

  lemma {:induction false} ValuePadded(t: string, c: char, n: nat, base: Base)
    requires c == '0' || c == ' '
    ensures Value(t + Repeat(c, n), base) >= Value(t, base)
    ensures Value(t + Repeat(c, n), base) == Value(t, base) <==> n == 0 || Value(t, base) == 0
  {
    if n == 0 {
      assert t + Repeat(c, n) == t;
    } else {
      assert (t + Repeat(c, n))[..|t| + n - 1] == t + Repeat(c, n - 1);
      ValuePadded(t, c, n - 1, base);
    }
  }

  /** Padding in front never changes a value, padding behind only keeps zero. */
  lemma JustifyValue(t: string, width: nat, left: bool, zero: bool, base: Base)
    ensures Value(Justified(t, width, left, zero), base) == Value(t, base)
            <==> width <= |t| || !left || Value(t, base) == 0
  {
    if |t| < width {
      var c, n := if zero then '0' else ' ', width - |t|;
      PaddingValue(c, n, base);
      LeadingZeros(Repeat(c, n), t, base);
      ValuePadded(t, c, n, base);
    }
  }

  lemma LengthenValue(t: string, precision: nat, base: Base)
    ensures Value(Lengthened(t, precision), base) == Value(t, base)
  {
    if |t| <= precision {
      PaddingValue('0', precision - |t|, base);
      LeadingZeros(Repeat('0', precision - |t|), t, base);
    }
  }

  /** Zeros in front of a number that is not negative leave it standing for the same number. */
  lemma LengthenShows(t: string, num: int, precision: nat)
    requires Shows(t, num) && (num >= 0 || precision <= |t|)
    ensures Shows(Lengthened(t, precision), num)
  {
    var u := Lengthened(t, precision);
    if |t| < precision {
      ZeroPadding('0', precision - |t|);
      DecValueConcat(Repeat('0', precision - |t|), t);
      assert u[0] == '0';
    } else if |t| == precision {
      assert Repeat('0', 0) + t == t;
    }
  }

  /** A text without a leading minus sign never reads as a negative number. */
  lemma NotNegative(t: string)
    requires t == "" || t[0] != '-'
    ensures Evaluated(t) >= 0
  {
  }

  /** A precision, then a width: a number an int holds reads back unless zeros or padding get in
      front of a minus sign, or padding gets behind anything but zero. */
  lemma PrintedExact(t: string, num: int, precision: nat, width: nat, left: bool, zero: bool)
    requires Shows(t, num)
    ensures var u := Lengthened(t, precision);
            Parsed(Justified(u, width, left, zero)) == Some(num)
            <==> InInt(num) && (num >= 0 || precision <= |t|)
                 && (width <= |u| || (if left then num == 0 else num >= 0))
  {
    var u := Lengthened(t, precision);
    if num >= 0 || precision <= |t| {
      LengthenShows(t, num, precision);
      JustifyExact(u, num, width, left, zero);
    } else {
      var w := Justified(u, width, left, zero);
      assert u[0] == '0' && w[0] != '-';
      NotNegative(w);
      ParsedExact(w, num);
    }
  }

  // ---- characters and shapes, one by one ----

  /** alphanumeric, as far as the three bases use it. */
  lemma DigitTable(d: nat)
    requires d < 16
    ensures DigitChar(d) == "0123456789ABCDEF"[d] && DigitValue("0123456789ABCDEF"[d]) == d
  {
  }

  /** digit_to_int */
  lemma DecimalTable(d: nat, c: char)
    requires d < 10
    ensures DigitToInt("0123456789"[d]) == d
    ensures c !in "0123456789" ==> DigitToInt(c) == 0
  {
    if '0' <= c <= '9' {
      assert "0123456789"[c as int - '0' as int] == c;
    }
  }

  /** What stands in front of the digits of a number: its sign, or the character its flags ask for,
      and the prefix of its base. */
  lemma TextParts(num: int, least: int, base: Base, style: Style)
    requires Shown(num, least, base).Some?
    ensures Text(num, least, base, style)
            == (if num < 0 && base == Decimal then "-"
                else if style.space then " "
                else if style.plus then "+"
                else "")
               + (if !style.prefix || base == Decimal then "" else if base == Octal then "0" else "0x")
               + Digits(Shown(num, least, base).value, base)
    ensures num >= 0 ==> Shown(num, least, base).value == num
    ensures num < 0 && base == Decimal && num != least ==> Shown(num, least, base).value == -num
  {
  }

  /** In base 8 and 16 a negative number, which only the length t lets through, is written only if the
      base divides it, and then as zero. */
  lemma NegativeText(num: int, least: int, base: Base)
    requires num < 0 && base != Decimal
    ensures Shown(num, least, base) == if -num % Radix(base) == 0 then Some(0) else None
  {
  }

  /** What itoa asks kmalloc for when the number is not positive: nothing for the digits. */
  lemma RequestedNoDigits(num: int, base: Base, style: Style)
    requires num <= 0
    ensures Requested(num, base, style)
            == 1 + (if style.space || style.plus || (num < 0 && base == Decimal) then 1 else 0)
                 + (if !style.prefix || base == Decimal then 0 else if base == Octal then 1 else 2)
  {
  }

  /** A justified text fills the width: the text at the one end, zeros or spaces at the other. */
  lemma JustifiedShape(t: string, width: nat, left: bool, zero: bool)
    ensures var r := Justified(t, width, left, zero);
            && |r| == (if |t| < width then width else |t|)
            && (if left then r[..|t|] else r[|r| - |t|..]) == t
            && forall i :: (if left then |t| <= i < |r| else 0 <= i < |r| - |t|) ==> r[i] == if zero then '0' else ' '
  {
  }

  /** So does a lengthened one, with zeros in front. */
  lemma LengthenedShape(t: string, precision: nat)
    ensures var r := Lengthened(t, precision);
            && |r| == (if |t| < precision then precision else |t|)
            && r[|r| - |t|..] == t
            && forall i :: 0 <= i < |r| - |t| ==> r[i] == '0'
  {
  }
}
