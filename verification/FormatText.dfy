/** Formats as they are written: the text of a directive is read as what it says, and a format
    prints its ordinary characters and what its directives make of the arguments.
 */
module FormatText {
  import opened Conversions
  import opened Formatting
  import opened Numbers
  import opened Wrappers

  // ---- the text of a directive ----

  /** What stands behind the percent sign: flags in any order, the digits of the width, a point with
      the digits of the precision, a length and the specifier. */
  datatype Wording =
    Wording(flags: string, width: string, precision: Option<string>, length: Length, specifier: char)

  predicate IsFlag(c: char) {
    c == '-' || c == '+' || c == ' ' || c == '#' || c == '0'
  }

  predicate IsDecimal(c: char) {
    '0' <= c <= '9'
  }

  predicate IsLength(c: char) {
    c == 'h' || c == 'l' || c == 'j' || c == 'z' || c == 't' || c == 'L'
  }

  predicate AllDecimal(t: string) {
    forall k :: 0 <= k < |t| ==> IsDecimal(t[k])
  }

  predicate AllFlags(t: string) {
    forall k :: 0 <= k < |t| ==> IsFlag(t[k])
  }

  /** The specifier is no character that means something before it. */
  predicate IsSpecifier(c: char) {
    !IsFlag(c) && !IsDecimal(c) && !IsLength(c) && c != '.' && c != '*' && c != '%'
  }

  /** A width does not start with a zero, which is a flag. */
  predicate Proper(d: Wording) {
    && AllFlags(d.flags) && AllDecimal(d.width) && (d.width != "" ==> d.width[0] != '0')
    && (d.precision.Some? ==> AllDecimal(d.precision.value)) && IsSpecifier(d.specifier)
  }

  function LengthText(l: Length): string {
    match l
    case HH => "hh"
    case H => "h"
    case L => "l"
    case LL => "ll"
    case J => "j"
    case Z => "z"
    case T => "t"
    case LongDouble => "L"
    case NoLength => ""
  }

  function PointText(d: Wording): string {
    if d.precision.Some? then "." + d.precision.value else ""
  }

  function Tail(d: Wording): string {
    LengthText(d.length) + [d.specifier]
  }

  function DirectiveText(d: Wording): string {
    d.flags + (d.width + (PointText(d) + Tail(d)))
  }

  /** What the wording says. A point without digits is no precision. */
  function Spelled(d: Wording): Spec {
    Spec(FlagsOf(d.flags), Meant(d.width),
         if d.precision.Some? then Meant(d.precision.value) else None, d.length, d.specifier)
  }

  function FlagsOf(t: string): Flags {
    Flags('-' in t, '+' in t, ' ' in t, '#' in t, '0' in t)
  }

  function Meant(t: string): Option<nat> {
    if t == "" then None else Some(DecValue(t))
  }

  // ---- reading it ----

  /** `t` stands in the format at `pos`. */
  predicate At(fmt: string, pos: nat, t: string) {
    pos + |t| <= |fmt| && forall i :: 0 <= i < |t| ==> fmt[pos + i] == t[i]
  }

  lemma AtSplit(fmt: string, pos: nat, s: string, t: string)
    requires At(fmt, pos, s + t)
    ensures At(fmt, pos, s) && At(fmt, pos + |s|, t)
  {
    forall i | 0 <= i < |s| ensures fmt[pos + i] == s[i] {
      assert (s + t)[i] == s[i];
    }
    forall i | 0 <= i < |t| ensures fmt[pos + |s| + i] == t[i] {
      assert (s + t)[|s| + i] == t[i];
    }
  }

  lemma AtChar(fmt: string, pos: nat, t: string, i: nat)
    requires At(fmt, pos, t) && i < |t|
    ensures fmt[pos + i] == t[i]
  {
  }

  function Raised(g: Flags, c: char): Flags
    requires IsFlag(c)
  {
    match c
    case '-' => g.(left := true)
    case '+' => g.(plus := true)
    case ' ' => g.(space := true)
    case '#' => g.(alt := true)
    case _ => g.(zero := true)
  }

  lemma FlagsEnd(fmt: string, pos: nat, g: Flags)
    requires pos < |fmt| && !IsFlag(fmt[pos])
    ensures FlagsAt(fmt, pos, g) == (g, pos)
  {
  }

  lemma NextFlag(t: string, i: nat)
    requires i < |t| && IsFlag(t[i])
    ensures FlagsOf(t[..i + 1]) == Raised(FlagsOf(t[..i]), t[i])
  {
    assert t[..i + 1] == t[..i] + [t[i]];
  }

  lemma {:induction false} FlagsRead(fmt: string, pos: nat, t: string, i: nat)
    requires i <= |t| && At(fmt, pos, t) && AllFlags(t)
    requires pos + |t| < |fmt| && !IsFlag(fmt[pos + |t|])
    ensures FlagsAt(fmt, pos + i, FlagsOf(t[..i])) == (FlagsOf(t), pos + |t|)
    decreases |t| - i
  {
    if i < |t| {
      AtChar(fmt, pos, t, i);
      NextFlag(t, i);
      FlagsRead(fmt, pos, t, i + 1);
    } else {
      assert t[..i] == t;
      FlagsEnd(fmt, pos + i, FlagsOf(t));
    }
  }

  lemma NextDigit(t: string, i: nat)
    requires i < |t|
    ensures Append(Meant(t[..i]), t[i]) == Meant(t[..i + 1])
  {
    var u := t[..i + 1];
    assert u[|u| - 1] == t[i] && u[..|u| - 1] == t[..i];
  }

  lemma {:induction false} WidthRead(fmt: string, pos: nat, t: string, i: nat, args: seq<Arg>, arg: nat)
    requires i <= |t| && At(fmt, pos, t) && AllDecimal(t)
    requires pos + |t| < |fmt| && !IsDecimal(fmt[pos + |t|]) && fmt[pos + |t|] != '*'
    ensures WidthAt(fmt, pos + i, args, arg, Meant(t[..i])) == Field(Meant(t), pos + |t|, arg)
    decreases |t| - i
  {
    if i < |t| {
      NextDigit(t, i);
      WidthRead(fmt, pos, t, i + 1, args, arg);
    } else {
      assert t[..i] == t;
    }
  }

  lemma {:induction false} PrecisionRead(fmt: string, pos: nat, t: string, i: nat, args: seq<Arg>, arg: nat)
    requires i <= |t| && At(fmt, pos, t) && AllDecimal(t)
    requires pos + |t| < |fmt| && !IsDecimal(fmt[pos + |t|]) && fmt[pos + |t|] != '*'
    ensures PrecisionAt(fmt, pos + i, args, arg, Meant(t[..i])) == Field(Meant(t), pos + |t|, arg)
    decreases |t| - i
  {
    if i < |t| {
      NextDigit(t, i);
      PrecisionRead(fmt, pos, t, i + 1, args, arg);
    } else {
      assert t[..i] == t;
    }
  }

  lemma LengthRead(fmt: string, pos: nat, l: Length, c: char)
    requires At(fmt, pos, LengthText(l) + [c]) && !IsLength(c)
    ensures LengthAt(fmt, pos) == (l, pos + |LengthText(l)|)
  {
    var t := LengthText(l) + [c];
    AtChar(fmt, pos, t, 0);
    if |t| > 1 {
      AtChar(fmt, pos, t, 1);
    }
  }

  lemma FourAt(fmt: string, pos: nat, a: string, b: string, c: string, d: string)
    requires At(fmt, pos, a + (b + (c + d)))
    ensures At(fmt, pos, a) && At(fmt, pos + |a|, b)
    ensures At(fmt, pos + |a| + |b|, c) && At(fmt, pos + |a| + |b| + |c|, d)
  {
    AtSplit(fmt, pos, a, b + (c + d));
    AtSplit(fmt, pos + |a|, b, c + d);
    AtSplit(fmt, pos + |a| + |b|, c, d);
  }

  /** Flags and width are read as those of the wording. */
  predicate HeadRead(fmt: string, pos: nat, d: Wording, p: nat, q: nat, args: seq<Arg>, arg: nat) {
    && pos <= p <= q < |fmt|
    && FlagsAt(fmt, pos, NO_FLAGS) == (FlagsOf(d.flags), p)
    && WidthAt(fmt, p, args, arg, None) == Field(Meant(d.width), q, arg)
  }

  /** Precision, length and specifier are read as those of the wording. */
  predicate RestRead(fmt: string, q: nat, d: Wording, s: nat, args: seq<Arg>, arg: nat) {
    var t := s + |LengthText(d.length)|;
    && q < |fmt| && t < |fmt|
    && (if fmt[q] == '.' then PrecisionAt(fmt, q + 1, args, arg, None) else Field(None, q, arg))
       == Field(Spelled(d).precision, s, arg)
    && LengthAt(fmt, s) == (d.length, t) && fmt[t] == d.specifier
  }

  lemma StagesRead(fmt: string, pos: nat, d: Wording, p: nat, q: nat, s: nat, args: seq<Arg>, arg: nat)
    requires HeadRead(fmt, pos, d, p, q, args, arg) && RestRead(fmt, q, d, s, args, arg)
    ensures DirectiveAt(fmt, pos, args, arg) == Directive(Spelled(d), s + |LengthText(d.length)| + 1, arg)
  {
  }

  lemma RestStage(fmt: string, q: nat, d: Wording, s: nat, args: seq<Arg>, arg: nat)
    requires Proper(d) && At(fmt, q, PointText(d)) && s == q + |PointText(d)| && At(fmt, s, Tail(d))
    ensures RestRead(fmt, q, d, s, args, arg)
    ensures !IsFlag(fmt[q]) && !IsDecimal(fmt[q]) && fmt[q] != '*'
  {
    LengthRead(fmt, s, d.length, d.specifier);
    AtChar(fmt, s, Tail(d), |LengthText(d.length)|);
    AtChar(fmt, s, Tail(d), 0);
    if d.precision.Some? {
      var t := d.precision.value;
      AtChar(fmt, q, PointText(d), 0);
      AtSplit(fmt, q, ".", t);
      PrecisionRead(fmt, q + 1, t, 0, args, arg);
      assert t[..0] == "";
    }
  }

  lemma HeadStage(fmt: string, pos: nat, d: Wording, p: nat, q: nat, args: seq<Arg>, arg: nat)
    requires Proper(d)
    requires At(fmt, pos, d.flags) && p == pos + |d.flags| && At(fmt, p, d.width) && q == p + |d.width|
    requires q < |fmt| && !IsFlag(fmt[q]) && !IsDecimal(fmt[q]) && fmt[q] != '*'
    ensures HeadRead(fmt, pos, d, p, q, args, arg)
  {
    if d.width != "" {
      AtChar(fmt, p, d.width, 0);
    }
    assert d.width[..0] == "" && d.flags[..0] == "" && FlagsOf("") == NO_FLAGS;
    WidthRead(fmt, p, d.width, 0, args, arg);
    FlagsRead(fmt, pos, d.flags, 0);
  }

  /** Whatever stands around it, the text of a directive is read as what it says. */
  lemma DirectiveReadBack(fmt: string, pos: nat, d: Wording, args: seq<Arg>, arg: nat)
    requires Proper(d) && At(fmt, pos, DirectiveText(d))
    ensures DirectiveAt(fmt, pos, args, arg) == Directive(Spelled(d), pos + |DirectiveText(d)|, arg)
  {
    var p := pos + |d.flags|;
    var q := p + |d.width|;
    var s := q + |PointText(d)|;
    FourAt(fmt, pos, d.flags, d.width, PointText(d), Tail(d));
    RestStage(fmt, q, d, s, args, arg);
    HeadStage(fmt, pos, d, p, q, args, arg);
    StagesRead(fmt, pos, d, p, q, s, args, arg);
  }

  // ---- writing any spec ----

  function Mark(on: bool, c: char): string {
    if on then [c] else ""
  }

  function FlagText(f: Flags): string {
    Mark(f.left, '-') + Mark(f.plus, '+') + Mark(f.space, ' ') + Mark(f.alt, '#') + Mark(f.zero, '0')
  }

  function DigitsOf(n: Option<nat>): string {
    if n.Some? then Digits(n.value, Decimal) else ""
  }

  function WordingOf(spec: Spec): Wording {
    Wording(FlagText(spec.flags), DigitsOf(spec.width),
            if spec.precision.Some? then Some(DigitsOf(spec.precision)) else None, spec.length, spec.specifier)
  }

  /** A decimal number reads as itself. */
  lemma DigitsRead(n: Option<nat>)
    ensures var t := DigitsOf(n); AllDecimal(t) && Meant(t) == n && (t != "" && n != Some(0) ==> t[0] != '0')
  {
    if n.Some? {
      DigitsProper(n.value, Decimal);
      DigitsValue(n.value, Decimal);
      DecValueOfDigits(Digits(n.value, Decimal));
    }
  }

  function Either(f: Flags, g: Flags): Flags {
    Flags(f.left || g.left, f.plus || g.plus, f.space || g.space, f.alt || g.alt, f.zero || g.zero)
  }

  lemma FlagsJoined(s: string, t: string)
    requires AllFlags(s) && AllFlags(t)
    ensures AllFlags(s + t) && FlagsOf(s + t) == Either(FlagsOf(s), FlagsOf(t))
  {
  }

  lemma MarkFlags(on: bool, c: char)
    requires IsFlag(c)
    ensures AllFlags(Mark(on, c)) && FlagsOf(Mark(on, c)) == if on then Raised(NO_FLAGS, c) else NO_FLAGS
  {
  }

  lemma FlagsWritten(f: Flags)
    ensures AllFlags(FlagText(f)) && FlagsOf(FlagText(f)) == f
  {
    MarkFlags(f.left, '-');
    MarkFlags(f.plus, '+');
    MarkFlags(f.space, ' ');
    MarkFlags(f.alt, '#');
    MarkFlags(f.zero, '0');
    FlagsJoined(Mark(f.left, '-'), Mark(f.plus, '+'));
    var s := Mark(f.left, '-') + Mark(f.plus, '+');
    FlagsJoined(s, Mark(f.space, ' '));
    FlagsJoined(s + Mark(f.space, ' '), Mark(f.alt, '#'));
    FlagsJoined(s + Mark(f.space, ' ') + Mark(f.alt, '#'), Mark(f.zero, '0'));
  }

  /** Any spec can be written out, but for a width of zero: a text that says it is read as it. */
  lemma SpecReadBack(fmt: string, pos: nat, spec: Spec, args: seq<Arg>, arg: nat)
    requires spec.width != Some(0) && IsSpecifier(spec.specifier)
    requires At(fmt, pos, DirectiveText(WordingOf(spec)))
    ensures DirectiveAt(fmt, pos, args, arg) == Directive(spec, pos + |DirectiveText(WordingOf(spec))|, arg)
  {
    FlagsWritten(spec.flags);
    DigitsRead(spec.width);
    DigitsRead(spec.precision);
    DirectiveReadBack(fmt, pos, WordingOf(spec), args, arg);
  }

  // ---- stars ----

  /** A star takes its width from the arguments. */
  lemma StarWidth(fmt: string, pos: nat, args: seq<Arg>, arg: nat, w: Option<nat>, n: nat)
    requires pos < |fmt| && fmt[pos] == '*' && arg < |args| && args[arg] == Int(n)
    ensures WidthAt(fmt, pos, args, arg, w) == Field(Some(n), pos + 1, arg + 1)
  {
  }

  /** A star takes a precision too, but then is itself the specifier, which means nothing. */
  lemma StarPrecision(fmt: string, pos: nat, args: seq<Arg>, arg: nat, n: nat, residue: string)
    requires At(fmt, pos, "%.*") && arg < |args| && args[arg] == Int(n)
    ensures TurnAt(fmt, pos, args, arg, residue) == Turn(Counted(""), pos + 3, arg + 1)
  {
    AtChar(fmt, pos, "%.*", 0);
    AtChar(fmt, pos, "%.*", 1);
    AtChar(fmt, pos, "%.*", 2);
    FlagsEnd(fmt, pos + 1, NO_FLAGS);
    assert WidthAt(fmt, pos + 1, args, arg, None) == Field(None, pos + 1, arg);
    assert PrecisionAt(fmt, pos + 2, args, arg, None) == Field(Some(n), pos + 2, arg + 1);
    assert LengthAt(fmt, pos + 2) == (NoLength, pos + 2);
  }

  // ---- formats ----

  datatype Item = Ordinary(c: char) | PercentSign | Conversion(d: Wording)

  function ItemText(item: Item): string {
    match item
    case Ordinary(c) => [c]
    case PercentSign => "%%"
    case Conversion(d) => "%" + DirectiveText(d)
  }

  predicate ItemWritable(item: Item) {
    (item.Ordinary? ==> item.c != '%') && (item.Conversion? ==> Proper(item.d))
  }

  predicate AllWritable(items: seq<Item>) {
    forall i :: 0 <= i < |items| ==> ItemWritable(items[i])
  }

  function FormatOf(items: seq<Item>): string {
    if items == [] then "" else ItemText(items[0]) + FormatOf(items[1..])
  }

  predicate Consumes(c: char) {
    c == 'd' || c == 'i' || c == 'u' || c == 'o' || c == 'x' || c == 'X' || c == 'p' || c == 'c' || c == 's' || c == 'n'
  }

  /** What an item prints of the arguments, None for a fault. An unknown specifier prints nothing
      and takes nothing; `n` prints nothing and takes an argument. */
  function Output(item: Item, args: seq<Arg>, arg: nat, residue: string): Option<Piece> {
    match item
    case Ordinary(c) => Some(Counted([c]))
    case PercentSign => Some(Percent)
    case Conversion(d) =>
      if !Consumes(d.specifier) then Some(Counted(""))
      else if arg >= |args| then None
      else if d.specifier == 'n' then Some(Counted(""))
      else if Converted(Spelled(d), args[arg], residue).None? then None
      else Some(Counted(Converted(Spelled(d), args[arg], residue).value))
  }

  function Taken(item: Item): nat {
    if item.Conversion? && Consumes(item.d.specifier) then 1 else 0
  }

  lemma PercentDirective(fmt: string, pos: nat)
    requires pos < |fmt| && fmt[pos] == '%'
    ensures DirectiveAt(fmt, pos, [], 0) == Directive(Spec(NO_FLAGS, None, None, NoLength, '%'), pos + 1, 0)
  {
    FlagsEnd(fmt, pos, NO_FLAGS);
    assert WidthAt(fmt, pos, [], 0, None) == Field(None, pos, 0) && LengthAt(fmt, pos) == (NoLength, pos);
  }

  lemma NotPercent(fmt: string, pos: nat, d: Wording)
    requires Proper(d) && At(fmt, pos, DirectiveText(d))
    ensures pos < |fmt| && fmt[pos] != '%'
  {
    assert |DirectiveText(d)| > 0;
    if fmt[pos] == '%' {
      PercentDirective(fmt, pos);
    }
    DirectiveReadBack(fmt, pos, d, [], 0);
  }

  /** The turn at a percent sign, once its directive has been read. */
  lemma DirectiveTurn(fmt: string, pos: nat, d: Wording, end: nat, args: seq<Arg>, arg: nat, residue: string)
    requires pos + 1 < |fmt| && fmt[pos] == '%' && fmt[pos + 1] != '%'
    requires DirectiveAt(fmt, pos + 1, args, arg) == Directive(Spelled(d), end, arg)
    requires end == pos + 1 + |DirectiveText(d)|
    ensures TurnAt(fmt, pos, args, arg, residue) == ItemTurn(Conversion(d), pos, args, arg, residue)
  {
  }

  lemma ConversionTurn(fmt: string, pos: nat, d: Wording, args: seq<Arg>, arg: nat, residue: string)
    requires Proper(d) && At(fmt, pos, "%" + DirectiveText(d))
    ensures TurnAt(fmt, pos, args, arg, residue) == ItemTurn(Conversion(d), pos, args, arg, residue)
  {
    AtSplit(fmt, pos, "%", DirectiveText(d));
    AtChar(fmt, pos, "%", 0);
    DirectiveReadBack(fmt, pos + 1, d, args, arg);
    NotPercent(fmt, pos + 1, d);
    DirectiveTurn(fmt, pos, d, pos + 1 + |DirectiveText(d)|, args, arg, residue);
  }

  /** The turn an item makes. */
  function ItemTurn(item: Item, pos: nat, args: seq<Arg>, arg: nat, residue: string): Turn {
    var out := Output(item, args, arg, residue);
    if out.None? then Turn(Fault, pos, arg) else Turn(out.value, pos + |ItemText(item)|, arg + Taken(item))
  }

  lemma TurnOfItem(fmt: string, pos: nat, item: Item, args: seq<Arg>, arg: nat, residue: string)
    requires ItemWritable(item) && At(fmt, pos, ItemText(item))
    ensures pos < |fmt| && TurnAt(fmt, pos, args, arg, residue) == ItemTurn(item, pos, args, arg, residue)
  {
    match item
    case Ordinary(c) => AtChar(fmt, pos, [c], 0);
    case PercentSign =>
      AtChar(fmt, pos, "%%", 0);
      AtChar(fmt, pos, "%%", 1);
    case Conversion(d) => ConversionTurn(fmt, pos, d, args, arg, residue);
  }

  /** What the items print from a position of the format on. */
  function Meaning(items: seq<Item>, pos: nat, args: seq<Arg>, arg: nat, mem: nat -> string): seq<Piece> {
    if items == [] then []
    else
      var t := ItemTurn(items[0], pos, args, arg, mem(pos));
      if t.piece.Fault? then [Fault] else [t.piece] + Meaning(items[1..], t.pos, args, t.arg, mem)
  }

  /** The format from `pos` on consists of the texts of the items. */
  predicate Consists(fmt: string, pos: nat, items: seq<Item>)
    decreases |items|
  {
    if items == [] then pos == |fmt|
    else
      && ItemWritable(items[0]) && At(fmt, pos, ItemText(items[0]))
      && Consists(fmt, pos + |ItemText(items[0])|, items[1..])
  }

  lemma SuffixSplit(fmt: string, pos: nat, t: string, rest: string)
    requires pos <= |fmt| && fmt[pos..] == t + rest
    ensures At(fmt, pos, t) && pos + |t| <= |fmt| && fmt[pos + |t|..] == rest
  {
    AtSplit(fmt, pos, t, rest);
  }

  lemma {:induction false} FormatConsists(fmt: string, pos: nat, items: seq<Item>)
    requires AllWritable(items) && pos <= |fmt| && fmt[pos..] == FormatOf(items)
    ensures Consists(fmt, pos, items)
    decreases |items|
  {
    if items != [] {
      SuffixSplit(fmt, pos, ItemText(items[0]), FormatOf(items[1..]));
      FormatConsists(fmt, pos + |ItemText(items[0])|, items[1..]);
    }
  }

  lemma FirstItem(fmt: string, pos: nat, items: seq<Item>)
    requires items != [] && Consists(fmt, pos, items)
    ensures ItemWritable(items[0]) && At(fmt, pos, ItemText(items[0])) && pos + |ItemText(items[0])| <= |fmt|
    ensures Consists(fmt, pos + |ItemText(items[0])|, items[1..])
  {
  }

  lemma ItemEnd(item: Item, pos: nat, args: seq<Arg>, arg: nat, residue: string)
    ensures var t := ItemTurn(item, pos, args, arg, residue); !t.piece.Fault? ==> t.pos == pos + |ItemText(item)|
  {
  }

  lemma FirstTurn(fmt: string, pos: nat, items: seq<Item>, args: seq<Arg>, arg: nat, residue: string, t: Turn)
    requires items != [] && Consists(fmt, pos, items) && t == ItemTurn(items[0], pos, args, arg, residue)
    ensures pos < |fmt| && TurnAt(fmt, pos, args, arg, residue) == t
  {
    FirstItem(fmt, pos, items);
    TurnOfItem(fmt, pos, items[0], args, arg, residue);
  }

  lemma OtherItems(fmt: string, pos: nat, items: seq<Item>, args: seq<Arg>, arg: nat, residue: string, t: Turn)
    returns (next: nat)
    requires items != [] && Consists(fmt, pos, items) && t == ItemTurn(items[0], pos, args, arg, residue)
    ensures next <= |fmt| && Consists(fmt, next, items[1..]) && (!t.piece.Fault? ==> t.pos == next)
  {
    next := pos + |ItemText(items[0])|;
    FirstItem(fmt, pos, items);
    ItemEnd(items[0], pos, args, arg, residue);
  }

  /** The items make the turns of the loop. */
  predicate MakeTurns(fmt: string, pos: nat, items: seq<Item>, args: seq<Arg>, arg: nat, mem: nat -> string)
    decreases |items|
  {
    if items == [] then pos == |fmt|
    else
      var t := ItemTurn(items[0], pos, args, arg, mem(pos));
      && pos < |fmt| && TurnAt(fmt, pos, args, arg, mem(pos)) == t
      && (t.piece.Fault? || MakeTurns(fmt, t.pos, items[1..], args, t.arg, mem))
  }

  lemma {:induction false} ItemsTurn(
    fmt: string, pos: nat, items: seq<Item>, args: seq<Arg>, arg: nat, mem: nat -> string)
    requires Consists(fmt, pos, items) && pos <= |fmt|
    ensures MakeTurns(fmt, pos, items, args, arg, mem)
    decreases |items|
  {
    if items != [] {
      var t := ItemTurn(items[0], pos, args, arg, mem(pos));
      FirstTurn(fmt, pos, items, args, arg, mem(pos), t);
      var next := OtherItems(fmt, pos, items, args, arg, mem(pos), t);
      ItemsTurn(fmt, next, items[1..], args, t.arg, mem);
    }
  }

  lemma {:induction false} ItemsRead(
    fmt: string, pos: nat, items: seq<Item>, args: seq<Arg>, arg: nat, mem: nat -> string)
    requires MakeTurns(fmt, pos, items, args, arg, mem) && pos <= |fmt|
    ensures Pieces(fmt, pos, args, arg, mem) == Meaning(items, pos, args, arg, mem)
    decreases |items|
  {
    if items != [] {
      var t := TurnAt(fmt, pos, args, arg, mem(pos));
      if !t.piece.Fault? {
        ItemsRead(fmt, t.pos, items[1..], args, t.arg, mem);
      }
    }
  }

  /** A format written from items prints what the items do, in their order. */
  lemma FormatMeaning(items: seq<Item>, args: seq<Arg>, mem: nat -> string)
    requires AllWritable(items)
    ensures Pieces(FormatOf(items), 0, args, 0, mem) == Meaning(items, 0, args, 0, mem)
  {
    FormatConsists(FormatOf(items), 0, items);
    ItemsTurn(FormatOf(items), 0, items, args, 0, mem);
    ItemsRead(FormatOf(items), 0, items, args, 0, mem);
  }

  /** So does kvprintf, where the items make no fault and there is no `%%`. */
  lemma FormatPrints(items: seq<Item>, args: seq<Arg>, mem: nat -> string)
    requires AllWritable(items)
    ensures var ps := Meaning(items, 0, args, 0, mem);
            var r := TwoPasses(FormatOf(items), args, mem, mem);
            if Plain(ps) then r == Printed(|All(ps)|, All(ps)) else !r.Printed?
  {
    FormatMeaning(items, args, mem);
    PassesAgree(FormatOf(items), args, mem, mem);
  }

  // ---- ordinary characters ----

  lemma OrdinaryPiece(fmt: string, pos: nat, args: seq<Arg>, arg: nat, mem: nat -> string)
    requires pos < |fmt| && fmt[pos] != '%'
    ensures Pieces(fmt, pos, args, arg, mem) == [Counted([fmt[pos]])] + Pieces(fmt, pos + 1, args, arg, mem)
  {
  }

  /** The pieces print `t` and then what the rest prints. */
  predicate Adds(ps: seq<Piece>, rest: seq<Piece>, t: string) {
    All(ps) == t + All(rest) && Total(ps) == |t| + Total(rest) && (Plain(ps) <==> Plain(rest))
  }

  lemma AddsNothing(ps: seq<Piece>)
    ensures Adds(ps, ps, "")
  {
    assert "" + All(ps) == All(ps);
  }

  lemma AddsNext(fmt: string, pos: nat, end: nat, ps: seq<Piece>, next: seq<Piece>, rest: seq<Piece>)
    requires pos < end <= |fmt|
    requires ps == [Counted([fmt[pos]])] + next && Adds(next, rest, fmt[pos + 1..end])
    ensures Adds(ps, rest, fmt[pos..end])
  {
    PlainCons(Counted([fmt[pos]]), next);
    assert ps[1..] == next;
    ConcatAssociates([fmt[pos]], fmt[pos + 1..end], All(rest));
    assert fmt[pos..end] == [fmt[pos]] + fmt[pos + 1..end];
  }

  lemma {:induction false} OrdinaryText(
    fmt: string, pos: nat, end: nat, args: seq<Arg>, arg: nat, mem: nat -> string)
    requires pos <= end <= |fmt| && forall i :: pos <= i < end ==> fmt[i] != '%'
    ensures Adds(Pieces(fmt, pos, args, arg, mem), Pieces(fmt, end, args, arg, mem), fmt[pos..end])
    decreases end - pos
  {
    if pos == end {
      AddsNothing(Pieces(fmt, end, args, arg, mem));
    } else {
      OrdinaryText(fmt, pos + 1, end, args, arg, mem);
      OrdinaryPiece(fmt, pos, args, arg, mem);
      AddsNext(fmt, pos, end, Pieces(fmt, pos, args, arg, mem), Pieces(fmt, pos + 1, args, arg, mem),
               Pieces(fmt, end, args, arg, mem));
    }
  }

  /** Text without a percent sign is printed as it stands, whatever follows it. */
  lemma OrdinaryPrefix(a: string, b: string, args: seq<Arg>, mem: nat -> string)
    requires '%' !in a
    ensures All(Pieces(a + b, 0, args, 0, mem)) == a + All(Pieces(a + b, |a|, args, 0, mem))
    ensures Total(Pieces(a + b, 0, args, 0, mem)) == |a| + Total(Pieces(a + b, |a|, args, 0, mem))
  {
    assert (a + b)[0..|a|] == a;
    OrdinaryText(a + b, 0, |a|, args, 0, mem);
  }

  /** kvprintf prints a format without a percent sign as it stands and returns its length. */
  lemma OrdinaryPrints(a: string, args: seq<Arg>, mem1: nat -> string, mem2: nat -> string)
    requires '%' !in a
    ensures TwoPasses(a, args, mem1, mem2) == Printed(|a|, a)
  {
    assert a + "" == a && a[0..|a|] == a;
    OrdinaryText(a, 0, |a|, args, 0, mem1);
    OrdinaryText(a, 0, |a|, args, 0, mem2);
    TwoPassesExact(a, args, mem1, mem2);
  }

  /** `%%` alone: sprintf writes a percent sign and counts nothing, and the counting pass, which has
      no buffer, writes to null. */
  lemma PercentPrints(args: seq<Arg>, mem1: nat -> string, mem2: nat -> string, room: nat)
    requires room > 1
    ensures Run(Pieces("%%", 0, args, 0, mem1), Start(Some(room)), 0, Some(room)) == Printed(0, "%")
    ensures TwoPasses("%%", args, mem1, mem2) == NullWrite
  {
    assert Pieces("%%", 0, args, 0, mem1) == [Percent];
    RunCons(Percent, [], Start(Some(room)), 0, Some(room));
    RunCons(Percent, [], Start(None), 0, None);
    assert [Percent] == [Percent] + [];
    assert "" + "%" == "%";
  }
}
