/** The directives of a format: reading one, and what it makes of its argument. */
module Conversions {
  import opened Numbers
  import opened Wrappers

  // ---- directives ----

  /** An argument as va_arg hands it over: a number, or a string that must end. */
  datatype Arg = Int(n: int) | Str(s: string)

  datatype Flags = Flags(left: bool, plus: bool, space: bool, alt: bool, zero: bool)

  datatype Length = HH | H | L | LL | J | Z | T | LongDouble | NoLength

  datatype Spec = Spec(flags: Flags, width: Option<nat>, precision: Option<nat>, length: Length, specifier: char)

  /** A number read from the format or taken from the arguments, and where reading goes on. */
  datatype Field = Field(value: Option<nat>, pos: nat, arg: nat) | NoField

  function FlagsAt(fmt: string, pos: nat, f: Flags): (r: (Flags, nat))
    requires pos <= |fmt|
    ensures pos <= r.1 <= |fmt|
    decreases |fmt| - pos
  {
    if pos == |fmt| then (f, pos)
    else
      match fmt[pos]
      case '-' => FlagsAt(fmt, pos + 1, f.(left := true))
      case '+' => FlagsAt(fmt, pos + 1, f.(plus := true))
      case ' ' => FlagsAt(fmt, pos + 1, f.(space := true))
      case '#' => FlagsAt(fmt, pos + 1, f.(alt := true))
      case '0' => FlagsAt(fmt, pos + 1, f.(zero := true))
      case _ => (f, pos)
  }

  function Append(w: Option<nat>, c: char): Option<nat> {
    Some(10 * (if w.Some? then w.value else 0) + DigitToInt(c))
  }

  /** The number an argument gives for a star. */
  function Star(args: seq<Arg>, arg: nat, pos: nat): Field {
    if arg < |args| && args[arg].Int? && args[arg].n >= 0 then Field(Some(args[arg].n), pos, arg + 1) else NoField
  }

  function WidthAt(fmt: string, pos: nat, args: seq<Arg>, arg: nat, w: Option<nat>): (r: Field)
    requires pos <= |fmt|
    ensures r.Field? ==> pos <= r.pos <= |fmt|
    decreases |fmt| - pos
  {
    if pos < |fmt| && '0' <= fmt[pos] <= '9' then WidthAt(fmt, pos + 1, args, arg, Append(w, fmt[pos]))
    else if pos < |fmt| && fmt[pos] == '*' then Star(args, arg, pos + 1)
    else Field(w, pos, arg)
  }

  /** The digits after the point. A star takes its argument but is not stepped over. */
  function PrecisionAt(fmt: string, pos: nat, args: seq<Arg>, arg: nat, p: Option<nat>): (r: Field)
    requires pos <= |fmt|
    ensures r.Field? ==> pos <= r.pos <= |fmt|
    decreases |fmt| - pos
  {
    if pos < |fmt| && '0' <= fmt[pos] <= '9' then PrecisionAt(fmt, pos + 1, args, arg, Append(p, fmt[pos]))
    else if pos < |fmt| && fmt[pos] == '*' then Star(args, arg, pos)
    else Field(p, pos, arg)
  }

  function LengthAt(fmt: string, pos: nat): (r: (Length, nat))
    requires pos <= |fmt|
    ensures pos <= r.1 <= |fmt|
  {
    if pos == |fmt| then (NoLength, pos)
    else
      match fmt[pos]
      case 'h' => if pos + 1 < |fmt| && fmt[pos + 1] == 'h' then (HH, pos + 2) else (H, pos + 1)
      case 'l' => if pos + 1 < |fmt| && fmt[pos + 1] == 'l' then (LL, pos + 2) else (L, pos + 1)
      case 'j' => (J, pos + 1)
      case 'z' => (Z, pos + 1)
      case 't' => (T, pos + 1)
      case 'L' => (LongDouble, pos + 1)
      case _ => (NoLength, pos)
  }

  /** A directive and the positions after it; a specifier is needed for there to be one. */
  datatype Directive = Directive(spec: Spec, pos: nat, arg: nat) | NoDirective

  const NO_FLAGS := Flags(false, false, false, false, false)

  function DirectiveAt(fmt: string, pos: nat, args: seq<Arg>, arg: nat): (r: Directive)
    requires pos <= |fmt|
    ensures r.Directive? ==> pos < r.pos <= |fmt|
  {
    var (flags, p) := FlagsAt(fmt, pos, NO_FLAGS);
    var w := WidthAt(fmt, p, args, arg, None);
    if w.NoField? then NoDirective
    else
      var q := if w.pos < |fmt| && fmt[w.pos] == '.' then PrecisionAt(fmt, w.pos + 1, args, w.arg, None)
               else Field(None, w.pos, w.arg);
      if q.NoField? then NoDirective
      else
        var (length, s) := LengthAt(fmt, q.pos);
        if s == |fmt| then NoDirective
        else Directive(Spec(flags, w.value, q.value, length, fmt[s]), s + 1, q.arg)
  }

  method ReadFlags(fmt: string, start: nat) returns (f: Flags, pos: nat)
    requires start <= |fmt|
    ensures (f, pos) == FlagsAt(fmt, start, NO_FLAGS)
  {
    f, pos := NO_FLAGS, start;
    while pos < |fmt|
      invariant pos <= |fmt| && FlagsAt(fmt, pos, f) == FlagsAt(fmt, start, NO_FLAGS)
      decreases |fmt| - pos
    {
      match fmt[pos] {
        case '-' => f := f.(left := true);
        case '+' => f := f.(plus := true);
        case ' ' => f := f.(space := true);
        case '#' => f := f.(alt := true);
        case '0' => f := f.(zero := true);
        case _ => return;
      }
      pos := pos + 1;
    }
  }

  method ReadWidth(fmt: string, start: nat, args: seq<Arg>, arg: nat) returns (r: Field)
    requires start <= |fmt|
    ensures r == WidthAt(fmt, start, args, arg, None)
  {
    var width, pos := None, start;
    while pos < |fmt|
      invariant pos <= |fmt| && WidthAt(fmt, pos, args, arg, width) == WidthAt(fmt, start, args, arg, None)
    {
      if '0' <= fmt[pos] <= '9' {
        width := Append(width, fmt[pos]);
        pos := pos + 1;
      } else if fmt[pos] == '*' {
        return Star(args, arg, pos + 1);
      } else {
        break;
      }
    }
    return Field(width, pos, arg);
  }

  method ReadPrecision(fmt: string, start: nat, args: seq<Arg>, arg: nat) returns (r: Field)
    requires start <= |fmt|
    ensures r == PrecisionAt(fmt, start, args, arg, None)
  {
    var precision, pos := None, start;
    while pos < |fmt|
      invariant pos <= |fmt| && PrecisionAt(fmt, pos, args, arg, precision) == PrecisionAt(fmt, start, args, arg, None)
    {
      if '0' <= fmt[pos] <= '9' {
        precision := Append(precision, fmt[pos]);
      } else if fmt[pos] == '*' {
        return Star(args, arg, pos);
      } else {
        break;
      }
      pos := pos + 1;
    }
    return Field(precision, pos, arg);
  }

  method ReadDirective(fmt: string, start: nat, args: seq<Arg>, arg: nat) returns (d: Directive)
    requires start <= |fmt|
    ensures d == DirectiveAt(fmt, start, args, arg)
  {
    var flags, p := ReadFlags(fmt, start);
    var w := ReadWidth(fmt, p, args, arg);
    if w.NoField? {
      return NoDirective;
    }
    var q := Field(None, w.pos, w.arg);
    if w.pos < |fmt| && fmt[w.pos] == '.' {
      q := ReadPrecision(fmt, w.pos + 1, args, w.arg);
      if q.NoField? {
        return NoDirective;
      }
    }
    var (length, s) := LengthAt(fmt, q.pos);
    if s == |fmt| {
      return NoDirective;
    }
    return Directive(Spec(flags, w.value, q.value, length, fmt[s]), s + 1, q.arg);
  }

  // ---- conversions ----

  /** A value as a signed or unsigned type of the given number of values sees it. */
  function Signed(n: int, values: nat): int
    requires values > 0
  {
    if n % values < (values + 1) / 2 then n % values else n % values - values
  }

  const WORD: nat := 0x1_0000_0000_0000_0000

  /** The value itoa is given for `%d` and `%i`, and the least value of its type. */
  function SignedValue(n: int, length: Length): (int, int) {
    match length
    case HH => (Signed(n, 0x100), -0x80)
    case H => (Signed(n, 0x1_0000), -0x8000)
    case Z => (n % WORD, 0)
    case NoLength => (Signed(n, 0x1_0000_0000), -0x8000_0000)
    case LongDouble => (Signed(n, 0x1_0000_0000), -0x8000_0000)
    case _ => (Signed(n, WORD), -0x8000_0000_0000_0000)
  }

  /** For the unsigned conversions; with the length t the value stays signed. */
  function UnsignedValue(n: int, length: Length): (int, int) {
    match length
    case HH => (n % 0x100, 0)
    case H => (n % 0x1_0000, 0)
    case T => (Signed(n, WORD), -0x8000_0000_0000_0000)
    case NoLength => (n % 0x1_0000_0000, 0)
    case LongDouble => (n % 0x1_0000_0000, 0)
    case _ => (n % WORD, 0)
  }

  predicate IsInteger(c: char) {
    c == 'd' || c == 'i' || c == 'u' || c == 'o' || c == 'x' || c == 'X'
  }

  function BaseOf(c: char): Base {
    if c == 'o' then Octal else if c == 'x' || c == 'X' then Hexadecimal else Decimal
  }

  function Wide(t: string, spec: Spec): string {
    if spec.width.Some? then Justified(t, spec.width.value, spec.flags.left, spec.flags.zero) else t
  }

  /** The digits lengthened to a precision lose their terminator: what memory holds up to the
      next one, the residue, is taken for part of the text. */
  function Precise(t: string, spec: Spec, residue: string): string {
    if spec.precision.None? then t
    else if spec.precision.value < |t| then t
    else Lengthened(t, spec.precision.value) + residue
  }

  /** A string is copied without its terminator, with or without a precision; a precision of
      zero is none. */
  function Copied(s: string, spec: Spec, residue: string): string {
    s[..CopyLength(s, if spec.precision.Some? then spec.precision.value else 0)] + residue
  }

  function StyleOf(f: Flags): Style {
    Style(f.space, f.plus, f.alt)
  }

  /** What itoa is given for an integer conversion: the value and the least of its type. */
  function NumberOf(spec: Spec, n: int): (int, int) {
    if spec.specifier == 'd' || spec.specifier == 'i' then SignedValue(n, spec.length) else UnsignedValue(n, spec.length)
  }

  /** What it makes of that, if the number can be written. */
  function IntegerText(spec: Spec, n: int): Option<string> {
    var (v, least) := NumberOf(spec, n);
    var base := BaseOf(spec.specifier);
    if Shown(v, least, base).None? then None else Some(Text(v, least, base, StyleOf(spec.flags)))
  }

  /** What a directive prints with the argument it takes, if that is of the right kind and the
      number can be written. */
  function Converted(spec: Spec, a: Arg, residue: string): Option<string> {
    if IsInteger(spec.specifier) && a.Int? then
      var t := IntegerText(spec, a.n);
      if t.None? then None else Some(Wide(Precise(t.value, spec, residue), spec))
    else if spec.specifier == 'p' && a.Int? then
      Some(Wide(Text(a.n % WORD, 0, Hexadecimal, PointerStyle(spec)), spec))
    else if spec.specifier == 'c' && a.Int? then
      Some(if spec.length.L? then "" else [(a.n % 0x100) as char])
    else if spec.specifier == 's' && spec.length.L? then Some("")
    else if spec.specifier == 's' && a.Str? then Some(Wide(Copied(a.s, spec, residue), spec))
    else None
  }

  function PointerStyle(spec: Spec): Style {
    Style(false, false, spec.flags.alt)
  }

  predicate TakesArgument(c: char) {
    IsInteger(c) || c == 'p' || c == 'c' || c == 's'
  }

  // ---- conversions that read what memory held before ----

  /** The precision takes the text into a block of its own, without a terminator. */
  predicate Unterminated(t: string, spec: Spec) {
    spec.precision.Some? && |t| <= spec.precision.value
  }

  /** Strings always do, numbers when their precision is not below the length of their text. */
  predicate ReadsMemory(spec: Spec, a: Arg) {
    || (spec.specifier == 's' && !spec.length.L? && a.Str?)
    || (IsInteger(spec.specifier) && a.Int? &&
        IntegerText(spec, a.n).Some? && Unterminated(IntegerText(spec, a.n).value, spec))
  }

  /** The residue is printed in full by the conversions that read memory, and by no other. */
  lemma ReadsMemoryExact(spec: Spec, a: Arg, residue: string)
    ensures ReadsMemory(spec, a) ==> Converted(spec, a, residue).Some? && |Converted(spec, a, residue).value| >= |residue|
    ensures !ReadsMemory(spec, a) ==> Converted(spec, a, residue) == Converted(spec, a, "")
    ensures Converted(spec, a, residue).Some? <==> Converted(spec, a, "").Some?
  {
  }

  // ---- what conversions print ----

  lemma SignedAtLeast(n: int, values: nat)
    requires values == 0x100 || values == 0x1_0000 || values == 0x1_0000_0000 || values == WORD
    ensures -(values / 2) <= Signed(n, values) < (values + 1) / 2
  {
  }

  /** SignedValue stays within its type, whose least value is zero or not written. */
  lemma SignedRange(n: int, length: Length)
    ensures var (v, least) := SignedValue(n, length);
            v >= least && (Shown(v, least, Decimal).Some? <==> v > least || least == 0)
  {
    var (v, least) := SignedValue(n, length);
    SignedAtLeast(n, 0x100);
    SignedAtLeast(n, 0x1_0000);
    SignedAtLeast(n, 0x1_0000_0000);
    SignedAtLeast(n, WORD);
    LeastNotWritten(8);
    LeastNotWritten(16);
    LeastNotWritten(32);
    LeastNotWritten(64);
  }

  /** The text `t` of a value, as precision and width leave it, reads back. */
  predicate ReadsBack(spec: Spec, v: int, t: string, u: string) {
    && InInt(v)
    && (v >= 0 || spec.precision.None? || spec.precision.value <= |t|)
    && (spec.width.None? || spec.width.value <= |u| || (if spec.flags.left then v == 0 else v >= 0))
  }

  lemma WideReadsBack(spec: Spec, v: int, t: string, residue: string)
    requires Shows(t, v) && (residue == "" || !Unterminated(t, spec))
    ensures var u := Precise(t, spec, residue);
            Parsed(Wide(u, spec)) == Some(v) <==> ReadsBack(spec, v, t, u)
  {
    var u := Precise(t, spec, residue);
    var p := if spec.precision.Some? then spec.precision.value else 0;
    var w := if spec.width.Some? then spec.width.value else 0;
    if p == |t| {
      assert Repeat('0', 0) + t == t;
    }
    assert u == Lengthened(t, p) by {
      assert Lengthened(t, p) + "" == Lengthened(t, p);
    }
    PrintedExact(t, v, p, w, spec.flags.left, spec.flags.zero);
  }

  lemma SignedText(spec: Spec, v: int, least: int, residue: string)
    requires v > least || v >= 0
    ensures var t := Text(v, least, Decimal, StyleOf(spec.flags));
            residue == "" || !Unterminated(t, spec) ==>
              (Parsed(Wide(Precise(t, spec, residue), spec)) == Some(v) <==> ReadsBack(spec, v, t, Precise(t, spec, residue)))
  {
    var t := Text(v, least, Decimal, StyleOf(spec.flags));
    TextShows(v, least, StyleOf(spec.flags));
    if residue == "" || !Unterminated(t, spec) {
      WideReadsBack(spec, v, t, residue);
    }
  }

  lemma SignedConverted(spec: Spec, n: int, v: int, least: int, residue: string)
    requires (spec.specifier == 'd' || spec.specifier == 'i') && NumberOf(spec, n) == (v, least)
    ensures Converted(spec, Int(n), residue)
            == if Shown(v, least, Decimal).None? then None
               else Some(Wide(Precise(Text(v, least, Decimal, StyleOf(spec.flags)), spec, residue), spec))
  {
  }

  /** A signed conversion fails exactly for the least value of its type. Where it does not run on
      into memory, atoi reads the text as the value exactly when an int holds the value and
      neither zeros nor padding get in front of a minus sign or padding behind more than zero. */
  lemma SignedConversion(spec: Spec, n: int, residue: string)
    requires spec.specifier == 'd' || spec.specifier == 'i'
    ensures var (v, least) := SignedValue(n, spec.length);
            var r := Converted(spec, Int(n), residue);
            && v >= least
            && (r.Some? <==> v > least || least == 0)
            && (r.Some? ==>
                  var t := Text(v, least, Decimal, StyleOf(spec.flags));
                  residue == "" || !Unterminated(t, spec) ==>
                    (Parsed(r.value) == Some(v) <==> ReadsBack(spec, v, t, Precise(t, spec, residue))))
  {
    var (v, least) := SignedValue(n, spec.length);
    SignedRange(n, spec.length);
    if v > least || least == 0 {
      SignedText(spec, v, least, residue);
    }
    SignedConverted(spec, n, v, least, residue);
  }

  lemma WideValue(spec: Spec, t: string, residue: string, base: Base)
    requires residue == "" || !Unterminated(t, spec)
    ensures var u := Precise(t, spec, residue);
            Value(Wide(u, spec), base) == Value(t, base) <==>
            spec.width.None? || spec.width.value <= |u| || !spec.flags.left || Value(t, base) == 0
  {
    var u := Precise(t, spec, residue);
    if spec.precision.Some? && |t| <= spec.precision.value {
      LengthenValue(t, spec.precision.value, base);
      assert u == Lengthened(t, spec.precision.value);
    }
    if spec.width.Some? {
      JustifyValue(u, spec.width.value, spec.flags.left, spec.flags.zero, base);
    }
  }

  /** An unsigned conversion fails exactly for numbers itoa cannot write. Where it does not run on
      into memory, the text evaluates in its base to the value exactly when that is not negative
      (it can be, with the length t) and padding does not get behind more than zero; signs,
      prefixes and zeros in front do no harm. */
  lemma UnsignedConversion(spec: Spec, n: int, residue: string)
    requires IsInteger(spec.specifier) && spec.specifier != 'd' && spec.specifier != 'i'
    ensures var (v, least) := UnsignedValue(n, spec.length);
            var base, r := BaseOf(spec.specifier), Converted(spec, Int(n), residue);
            && (r.Some? <==> Shown(v, least, base).Some?)
            && (r.Some? ==>
                  var t := Text(v, least, base, StyleOf(spec.flags));
                  residue == "" || !Unterminated(t, spec) ==>
                    (Value(r.value, base) == v <==>
                     v >= 0 && (spec.width.None? || spec.width.value <= |Precise(t, spec, residue)|
                                || !spec.flags.left || v == 0)))
  {
    var (v, least) := UnsignedValue(n, spec.length);
    var base := BaseOf(spec.specifier);
    if Shown(v, least, base).Some? {
      var t := Text(v, least, base, StyleOf(spec.flags));
      if v >= 0 && (residue == "" || !Unterminated(t, spec)) {
        TextValue(v, least, base, StyleOf(spec.flags));
        WideValue(spec, t, residue, base);
      }
    }
  }

  // ---- letters, lengths and types, one by one ----

  /** The value a conversion sees differs from the argument by a multiple of the number of values of
      its type, and lies in the range of the type. */
  lemma SignedIs(n: int, values: nat) returns (k: int)
    requires values == 0x100 || values == 0x1_0000 || values == 0x1_0000_0000 || values == WORD
    ensures -(values / 2) <= Signed(n, values) < values / 2 && n == Signed(n, values) + k * values
  {
    if values == 0x100 {
      k := if n % 0x100 < 0x80 then n / 0x100 else n / 0x100 + 1;
    } else if values == 0x1_0000 {
      k := if n % 0x1_0000 < 0x8000 then n / 0x1_0000 else n / 0x1_0000 + 1;
    } else if values == 0x1_0000_0000 {
      k := if n % 0x1_0000_0000 < 0x8000_0000 then n / 0x1_0000_0000 else n / 0x1_0000_0000 + 1;
    } else {
      k := if n % WORD < WORD / 2 then n / WORD else n / WORD + 1;
    }
  }

  /** The types of `%d` and `%i`: 8, 16, 32 or 64 bits, signed but for the length z. */
  lemma SignedTypes(n: int)
    ensures SignedValue(n, HH) == (Signed(n, 0x100), -0x80)
    ensures SignedValue(n, H) == (Signed(n, 0x1_0000), -0x8000)
    ensures SignedValue(n, NoLength) == SignedValue(n, LongDouble) == (Signed(n, 0x1_0000_0000), -0x8000_0000)
    ensures SignedValue(n, L) == SignedValue(n, LL) == SignedValue(n, J) == SignedValue(n, T)
            == (Signed(n, 0x1_0000_0000_0000_0000), -0x8000_0000_0000_0000)
    ensures SignedValue(n, Z) == (n % 0x1_0000_0000_0000_0000, 0)
    ensures -0x80 <= n < 0x80 ==> SignedValue(n, HH).0 == n
    ensures -0x8000 <= n < 0x8000 ==> SignedValue(n, H).0 == n
    ensures -0x8000_0000 <= n < 0x8000_0000 ==> SignedValue(n, NoLength).0 == n
    ensures -0x8000_0000_0000_0000 <= n < 0x8000_0000_0000_0000 ==> SignedValue(n, L).0 == n
  {
  }

  /** The types of the unsigned conversions, signed for the length t. */
  lemma UnsignedTypes(n: int)
    ensures UnsignedValue(n, HH) == (n % 0x100, 0)
    ensures UnsignedValue(n, H) == (n % 0x1_0000, 0)
    ensures UnsignedValue(n, NoLength) == UnsignedValue(n, LongDouble) == (n % 0x1_0000_0000, 0)
    ensures UnsignedValue(n, L) == UnsignedValue(n, LL) == UnsignedValue(n, J) == UnsignedValue(n, Z)
            == (n % 0x1_0000_0000_0000_0000, 0)
    ensures UnsignedValue(n, T) == (Signed(n, 0x1_0000_0000_0000_0000), -0x8000_0000_0000_0000)
  {
  }

  lemma Letters()
    ensures forall c :: c in "diuoxX" <==> IsInteger(c)
    ensures forall c :: c in "diuoxXpcs" <==> TakesArgument(c)
    ensures BaseOf('d') == BaseOf('i') == BaseOf('u') == Decimal
    ensures BaseOf('o') == Octal && BaseOf('x') == BaseOf('X') == Hexadecimal
  {
  }

  /** The characters of an integer conversion, outside in. */
  lemma IntegerCharacters(spec: Spec, n: int)
    requires IsInteger(spec.specifier) && IntegerText(spec, n).Some?
    ensures var t := IntegerText(spec, n).value;
            && Converted(spec, Int(n), "").Some?
            && var u := if spec.precision.Some? then Lengthened(t, spec.precision.value) else t;
               Converted(spec, Int(n), "").value
               == if spec.width.Some? then Justified(u, spec.width.value, spec.flags.left, spec.flags.zero) else u
    ensures var (v, least) := if spec.specifier in "di" then SignedValue(n, spec.length) else UnsignedValue(n, spec.length);
            var base := if spec.specifier in "xX" then Hexadecimal else if spec.specifier == 'o' then Octal else Decimal;
            Shown(v, least, base).Some? &&
            IntegerText(spec, n).value
            == (if v < 0 && base == Decimal then "-"
                else if spec.flags.space then " "
                else if spec.flags.plus then "+"
                else "")
               + (if !spec.flags.alt || base == Decimal then "" else if base == Octal then "0" else "0x")
               + Digits(Shown(v, least, base).value, base)
  {
    var t := IntegerText(spec, n).value;
    var (v, least) := NumberOf(spec, n);
    TextParts(v, least, BaseOf(spec.specifier), StyleOf(spec.flags));
    if spec.precision.Some? {
      var u := Lengthened(t, spec.precision.value);
      assert u + "" == u;
    }
  }

  /** A character is the argument's low byte. */
  lemma CharacterConversion(spec: Spec, n: int)
    requires spec.specifier == 'c'
    ensures Converted(spec, Int(n), "").Some?
    ensures var t := Converted(spec, Int(n), "").value;
            if spec.length == L then t == "" else |t| == 1 && t[0] as int == n % 0x100
  {
  }

  lemma NothingInFront(s: string, t: string)
    ensures "" + s + t == s + t
  {
  }

  /** A pointer is written in hexadecimal. */
  lemma PointerConversion(spec: Spec, n: int)
    requires spec.specifier == 'p' && spec.width == None
    ensures Converted(spec, Int(n), "") == Some((if spec.flags.alt then "0x" else "") + Digits(n % WORD, Hexadecimal))
    ensures WORD == 0x1_0000_0000_0000_0000
  {
    var v, prefix := n % WORD, if spec.flags.alt then "0x" else "";
    TextParts(v, 0, Hexadecimal, PointerStyle(spec));
    NothingInFront(prefix, Digits(v, Hexadecimal));
  }

  /** A string is cut at its precision, unless that is zero. */
  lemma StringConversion(spec: Spec, s: string)
    requires spec.specifier == 's' && spec.length != L && spec.width == None
    ensures Converted(spec, Str(s), "")
            == Some(if spec.precision.Some? && 0 < spec.precision.value < |s| then s[..spec.precision.value] else s)
  {
    var max := if spec.precision.Some? then spec.precision.value else 0;
    assert s[..CopyLength(s, max)] + "" == s[..CopyLength(s, max)] && s[..|s|] == s;
  }

  // ---- converting on buffers ----

  /** A C string in memory. */
  method FromString(s: string) returns (a: array<char>)
    requires NUL !in s
    ensures fresh(a) && Holds(a, s)
  {
    a := new char[|s| + 1](i requires 0 <= i < |s| + 1 => if i < |s| then s[i] else NUL);
    assert a[..|s|] == s;
  }

  method Pad(str: array<char>, ghost t: string, spec: Spec) returns (final: array<char>)
    requires Holds(str, t)
    ensures Holds(final, Wide(t, spec))
  {
    final := str;
    if spec.width.Some? {
      final := Justify(str, t, spec.width.value, spec.flags.left, spec.flags.zero);
    }
  }

  /** itoa in a block large enough for the text. */
  method WriteNumber(v: int, least: int, base: Base, style: Style) returns (buf: array<char>, ok: bool)
    ensures ok <==> Shown(v, least, base).Some?
    ensures ok ==> Holds(buf, Text(v, least, base, style))
  {
    var size := if Shown(v, least, base).Some? then |Text(v, least, base, style)| + 1 else 1;
    buf := new char[size];
    var r := Itoa(buf, v, least, base, style);
    ok := r.Written?;
  }

  method ConvertInteger(spec: Spec, n: int, residue: string) returns (final: array<char>, ok: bool)
    requires IsInteger(spec.specifier) && NUL !in residue
    ensures ok <==> Converted(spec, Int(n), residue).Some?
    ensures ok ==> Holds(final, Converted(spec, Int(n), residue).value)
  {
    var (v, least) := NumberOf(spec, n);
    final, ok := WriteNumber(v, least, BaseOf(spec.specifier), StyleOf(spec.flags));
    if ok {
      ghost var t := IntegerText(spec, n).value;
      if spec.precision.Some? {
        final := IntPrecision(final, t, spec.precision.value, residue);
      }
      final := Pad(final, Precise(t, spec, residue), spec);
    }
  }

  method ConvertString(spec: Spec, s: string, residue: string) returns (final: array<char>)
    requires NUL !in s && NUL !in residue
    ensures Holds(final, Wide(Copied(s, spec, residue), spec))
  {
    var ptr := FromString(s);
    var max := if spec.precision.Some? then spec.precision.value else 0;
    final := Kmalloc(CopyLength(s, max), residue);
    var n := CopyOut(final, 0, ptr, s, max);
    assert final[n..] == residue + [NUL] && final[..n] == s[..n];
    assert final[..n + |residue|] == final[..n] + final[n..][..|residue|];
    final := Pad(final, Copied(s, spec, residue), spec);
  }

  /** A conversion through buffers: writing the number or copying the string, lengthening,
      padding, and handing on the text that is found at the end. */
  method Convert(spec: Spec, a: Arg, residue: string) returns (r: Option<string>)
    requires NUL !in residue && (a.Str? ==> NUL !in a.s)
    ensures r == Converted(spec, a, residue)
  {
    var final, ok := new char[1], false;
    if IsInteger(spec.specifier) && a.Int? {
      final, ok := ConvertInteger(spec, a.n, residue);
    } else if spec.specifier == 'p' && a.Int? {
      final, ok := WriteNumber(a.n % WORD, 0, Hexadecimal, PointerStyle(spec));
      final := Pad(final, Text(a.n % WORD, 0, Hexadecimal, PointerStyle(spec)), spec);
    } else if spec.specifier == 'c' && a.Int? {
      return Some(if spec.length.L? then "" else [(a.n % 0x100) as char]);
    } else if spec.specifier == 's' && spec.length.L? {
      return Some("");
    } else if spec.specifier == 's' && a.Str? {
      final := ConvertString(spec, a.s, residue);
      ok := true;
    }
    if !ok {
      return None;
    }
    var len := Strlen(final, Converted(spec, a, residue).value);
    return Some(final[..len]);
  }
}
