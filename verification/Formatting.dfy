/** kvsnprintf: a format taken apart into pieces, the pieces put into a buffer, and the two
    passes of kvprintf, the first to count and the second to write.
 */
module Formatting {
  import opened Conversions
  import opened Numbers
  import opened Wrappers

  // ---- pieces ----

  /** What one turn of the loop prints: counted text, the uncounted percent sign of `%%`, or a
      fault (the format or the arguments end early, or are of the wrong kind). */
  datatype Piece = Counted(text: string) | Percent | Fault

  datatype Turn = Turn(piece: Piece, pos: nat, arg: nat)

  function TurnAt(fmt: string, pos: nat, args: seq<Arg>, arg: nat, residue: string): (r: Turn)
    requires pos < |fmt|
    ensures !r.piece.Fault? ==> pos < r.pos <= |fmt|
  {
    if fmt[pos] != '%' then Turn(Counted([fmt[pos]]), pos + 1, arg)
    else if pos + 1 < |fmt| && fmt[pos + 1] == '%' then Turn(Percent, pos + 2, arg)
    else
      var d := DirectiveAt(fmt, pos + 1, args, arg);
      if d.NoDirective? then Turn(Fault, pos, arg)
      else if d.spec.specifier == 'n' then
        if d.arg < |args| then Turn(Counted(""), d.pos, d.arg + 1) else Turn(Fault, pos, arg)
      else if !TakesArgument(d.spec.specifier) then Turn(Counted(""), d.pos, d.arg)
      else if d.arg >= |args| then Turn(Fault, pos, arg)
      else
        match Converted(d.spec, args[d.arg], residue)
        case None => Turn(Fault, pos, arg)
        case Some(t) => Turn(Counted(t), d.pos, d.arg + 1)
  }

  /** The pieces from a position on; `mem` gives the residue each turn would find. */
  function Pieces(fmt: string, pos: nat, args: seq<Arg>, arg: nat, mem: nat -> string): seq<Piece>
    requires pos <= |fmt|
    decreases |fmt| - pos
  {
    if pos == |fmt| then []
    else
      var t := TurnAt(fmt, pos, args, arg, mem(pos));
      if t.piece.Fault? then [Fault] else [t.piece] + Pieces(fmt, t.pos, args, t.arg, mem)
  }

  // ---- putting pieces into a buffer ----

  /** Where a run stands: what was written, what was counted, whether the rest is discarded. */
  datatype Progress = Progress(written: string, n: nat, discard: bool)

  datatype Result = Printed(n: nat, text: string) | NullWrite | TooLong | BadFormat

  function Checked(s: Progress, bufsz: nat): Progress {
    s.(discard := s.discard || (bufsz > 0 && s.n >= bufsz - 1))
  }

  function Emit(s: Progress, p: Piece, bufsz: nat): Progress
    requires !p.Fault?
  {
    if p.Percent? then Checked(s.(written := s.written + "%"), bufsz)
    else Checked(Progress(if s.discard then s.written else s.written + p.text, s.n + |p.text|, s.discard), bufsz)
  }

  /** The loop over the pieces and the final terminator. `room` is the size of the buffer, or
      None for no buffer, to which `%%` writes all the same. */
  function Run(ps: seq<Piece>, s: Progress, bufsz: nat, room: Option<nat>): Result {
    if ps == [] then
      if room.None? then Printed(s.n, "")
      else if |s.written| < room.value then Printed(s.n, s.written)
      else TooLong
    else if ps[0].Fault? then BadFormat
    else if room.None? && ps[0].Percent? then NullWrite
    else
      var t := Emit(s, ps[0], bufsz);
      if room.Some? && |t.written| > room.value then TooLong
      else Run(ps[1..], t, bufsz, room)
  }

  function Start(room: Option<nat>): Progress {
    Progress("", 0, room.None?)
  }

  function TextOf(p: Piece): string {
    match p case Counted(t) => t case Percent => "%" case Fault => ""
  }

  function CountOf(p: Piece): nat {
    match p case Counted(t) => |t| case _ => 0
  }

  /** The whole text of some pieces, and how much of it is counted. */
  function All(ps: seq<Piece>): string {
    if ps == [] then "" else TextOf(ps[0]) + All(ps[1..])
  }

  function Total(ps: seq<Piece>): nat {
    if ps == [] then 0 else CountOf(ps[0]) + Total(ps[1..])
  }

  predicate Plain(ps: seq<Piece>) {
    forall i :: 0 <= i < |ps| ==> ps[i].Counted?
  }

  /** The counting pass gets through exactly when every piece is counted text. */
  lemma {:induction false} CountingPass(ps: seq<Piece>, s: Progress, bufsz: nat)
    requires s.discard
    ensures Run(ps, s, bufsz, None) == Printed(s.n + Total(ps), "") <==> Plain(ps)
    ensures Run(ps, s, bufsz, None).Printed? <==> Plain(ps)
    decreases |ps|
  {
    if ps != [] && ps[0].Counted? {
      CountingPass(ps[1..], Emit(s, ps[0], bufsz), bufsz);
      assert Plain(ps) <==> Plain(ps[1..]) by {
        assert Plain(ps) ==> forall i :: 0 <= i < |ps[1..]| ==> ps[1..][i] == ps[i + 1];
        assert Plain(ps[1..]) ==> forall i :: 0 < i < |ps| ==> ps[i] == ps[1..][i - 1];
      }
    }
  }

  lemma {:induction false} PlainLength(ps: seq<Piece>)
    requires Plain(ps)
    ensures |All(ps)| == Total(ps) && Percents(ps) == 0
  {
    if ps != [] {
      PlainLength(ps[1..]);
    }
  }

  // ---- a buffer of limited size ----

  /** Whether every piece prints. */
  predicate Sound(ps: seq<Piece>) {
    forall i :: 0 <= i < |ps| ==> !ps[i].Fault?
  }

  function Percents(ps: seq<Piece>): nat {
    if ps == [] then 0 else (if ps[0].Percent? then 1 else 0) + Percents(ps[1..])
  }

  /** What a piece adds to the buffer: a percent sign does even when the rest is discarded. */
  function Part(p: Piece, discard: bool): string {
    if discard && !p.Percent? then "" else TextOf(p)
  }

  /** What all pieces add: the counted text up to and with the first piece after which the limit
      is reached, and every percent sign. */
  function Kept(ps: seq<Piece>, n: nat, discard: bool, limit: nat): string {
    if ps == [] then ""
    else
      var m := n + CountOf(ps[0]);
      Part(ps[0], discard) + Kept(ps[1..], m, discard || m >= limit, limit)
  }

  lemma ConcatAssociates(a: string, b: string, c: string)
    ensures (a + b) + c == a + (b + c)
  {
  }

  lemma EmitParts(s: Progress, p: Piece, room: nat)
    requires !p.Fault? && room > 0
    ensures Emit(s, p, room)
            == Progress(s.written + Part(p, s.discard), s.n + CountOf(p), s.discard || s.n + CountOf(p) >= room - 1)
  {
    assert s.written + "" == s.written;
  }

  lemma {:induction false} Bounded(ps: seq<Piece>, s: Progress, room: nat)
    requires Sound(ps) && room > 0 && |s.written| <= room
    ensures var kept := Kept(ps, s.n, s.discard, room - 1);
            Run(ps, s, room, Some(room))
            == if |s.written| + |kept| < room then Printed(s.n + Total(ps), s.written + kept) else TooLong
    decreases |ps|
  {
    if ps == [] {
      assert s.written + "" == s.written;
    } else {
      var part, m := Part(ps[0], s.discard), s.n + CountOf(ps[0]);
      var t := Progress(s.written + part, m, s.discard || m >= room - 1);
      EmitParts(s, ps[0], room);
      if |t.written| <= room {
        Bounded(ps[1..], t, room);
        ConcatAssociates(s.written, part, Kept(ps[1..], m, t.discard, room - 1));
      }
    }
  }

  /** How much counted text is kept. */
  function KeptCount(ps: seq<Piece>, n: nat, limit: nat): nat {
    if ps == [] then 0
    else CountOf(ps[0]) + if n + CountOf(ps[0]) >= limit then 0 else KeptCount(ps[1..], n + CountOf(ps[0]), limit)
  }

  lemma {:induction false} KeptLength(ps: seq<Piece>, n: nat, discard: bool, limit: nat)
    requires Sound(ps)
    ensures |Kept(ps, n, discard, limit)| == (if discard then 0 else KeptCount(ps, n, limit)) + Percents(ps)
    decreases |ps|
  {
    if ps != [] {
      var m := n + CountOf(ps[0]);
      KeptLength(ps[1..], m, discard || m >= limit, limit);
    }
  }

  /** The limit is reached exactly after some of the pieces. */
  ghost predicate EndsAt(ps: seq<Piece>, n: nat, limit: nat) {
    exists k :: 0 < k <= |ps| && n + Total(ps[..k]) == limit
  }

  lemma TotalPrefix(ps: seq<Piece>, k: nat)
    requires 0 < k <= |ps|
    ensures Total(ps[..k]) == CountOf(ps[0]) + Total(ps[1..][..k - 1])
    ensures Total(ps[..1]) == CountOf(ps[0])
  {
    assert ps[..k][1..] == ps[1..][..k - 1];
    assert ps[..1] == [ps[0]];
  }

  lemma EndsAtNext(ps: seq<Piece>, n: nat, limit: nat)
    requires ps != [] && n + CountOf(ps[0]) != limit
    ensures EndsAt(ps, n, limit) <==> EndsAt(ps[1..], n + CountOf(ps[0]), limit)
  {
    TotalPrefix(ps, 1);
    if k :| 0 < k <= |ps| && n + Total(ps[..k]) == limit {
      TotalPrefix(ps, k);
      assert k - 1 > 0;
    }
    if k :| 0 < k <= |ps[1..]| && n + CountOf(ps[0]) + Total(ps[1..][..k]) == limit {
      TotalPrefix(ps, k + 1);
      assert n + Total(ps[..k + 1]) == limit;
    }
  }

  lemma NeverEndsBelow(ps: seq<Piece>, n: nat, limit: nat)
    requires n > limit
    ensures !EndsAt(ps, n, limit)
  {
  }

  /** The kept text is within the limit exactly when all is, or when the limit falls between
      two pieces. */
  lemma {:induction false} KeptFits(ps: seq<Piece>, n: nat, limit: nat)
    requires n <= limit
    ensures n + KeptCount(ps, n, limit) <= limit <==> n + Total(ps) <= limit || EndsAt(ps, n, limit)
    ensures KeptCount(ps, n, limit) == Total(ps) || n + KeptCount(ps, n, limit) >= limit
    ensures KeptCount(ps, n, limit) <= Total(ps)
    decreases |ps|
  {
    if ps != [] {
      var m := n + CountOf(ps[0]);
      TotalPrefix(ps, 1);
      if m == limit {
        assert n + Total(ps[..1]) == limit;
      } else {
        EndsAtNext(ps, n, limit);
        if m < limit {
          KeptFits(ps[1..], m, limit);
        } else {
          NeverEndsBelow(ps[1..], m, limit);
        }
      }
    }
  }

  /** What fits is kept whole. */
  lemma {:induction false} KeptWhole(ps: seq<Piece>, n: nat, discard: bool, limit: nat)
    requires Sound(ps)
    requires if discard then Total(ps) == 0 else n + Total(ps) <= limit
    ensures Kept(ps, n, discard, limit) == All(ps)
    decreases |ps|
  {
    if ps != [] {
      var m := n + CountOf(ps[0]);
      KeptWhole(ps[1..], m, discard || m >= limit, limit);
    }
  }

  /** A fault in the format or its arguments never leads to an answer. */
  lemma {:induction false} FaultsShow(ps: seq<Piece>, s: Progress, bufsz: nat, room: Option<nat>)
    requires !Sound(ps)
    ensures !Run(ps, s, bufsz, room).Printed?
    decreases |ps|
  {
    if !ps[0].Fault? {
      assert !Sound(ps[1..]) by {
        var i :| 0 <= i < |ps| && ps[i].Fault?;
        assert ps[1..][i - 1] == ps[i];
      }
      FaultsShow(ps[1..], Emit(s, ps[0], bufsz), bufsz, room);
    }
  }

  /** Without percent signs the kept text is the beginning of the whole. */
  lemma {:induction false} KeptPrefix(ps: seq<Piece>, n: nat, limit: nat)
    requires Sound(ps)
    ensures Percents(ps) == 0 ==> Kept(ps, n, false, limit) <= All(ps)
    decreases |ps|
  {
    if ps != [] && Percents(ps) == 0 {
      var m := n + CountOf(ps[0]);
      if m >= limit {
        KeptLength(ps[1..], m, true, limit);
        assert Kept(ps[1..], m, true, limit) == "";
        assert TextOf(ps[0]) + "" == TextOf(ps[0]);
      } else {
        KeptPrefix(ps[1..], m, limit);
      }
    }
  }

  lemma KeptExact(ps: seq<Piece>, room: nat)
    requires Sound(ps) && room > 0
    ensures var kept := Kept(ps, 0, false, room - 1);
            && (|kept| < room <==>
                Total(ps) + Percents(ps) < room || (Percents(ps) == 0 && EndsAt(ps, 0, room - 1)))
            && (|kept| < room && Percents(ps) == 0 ==> (kept == All(ps) <==> Total(ps) < room))
  {
    KeptLength(ps, 0, false, room - 1);
    KeptFits(ps, 0, room - 1);
    UnboundedCount(ps);
    if Total(ps) < room {
      KeptWhole(ps, 0, false, room - 1);
    }
  }

  /** snprintf with a buffer of `room` characters: the count is that of the counted text. The
      buffer is not exceeded exactly when everything fits, percent signs included, or when there
      are none of these and a piece ends exactly where the room does; a piece that does not fit is
      written in full, and percent signs are written, uncounted, even after the limit. */
  lemma BoundedExact(ps: seq<Piece>, room: nat)
    requires room > 0
    ensures var r := Run(ps, Start(Some(room)), room, Some(room));
            && (r.Printed? <==>
                Sound(ps) && (Total(ps) + Percents(ps) < room || (Percents(ps) == 0 && EndsAt(ps, 0, room - 1))))
            && (r.Printed? ==> r.n == Total(ps) && r.text == Kept(ps, 0, false, room - 1))
            && (Sound(ps) && !r.Printed? ==> r == TooLong)
            && (r.Printed? && Percents(ps) == 0 ==>
                  (r.text == All(ps) <==> Total(ps) < room) && |r.text| < room && r.text <= All(ps))
  {
    if Sound(ps) {
      KeptPrefix(ps, 0, room - 1);
      Bounded(ps, Start(Some(room)), room);
      assert "" + Kept(ps, 0, false, room - 1) == Kept(ps, 0, false, room - 1);
      KeptExact(ps, room);
    } else {
      FaultsShow(ps, Start(Some(room)), room, Some(room));
    }
  }

  lemma {:induction false} UnboundedCount(ps: seq<Piece>)
    requires Sound(ps)
    ensures |All(ps)| == Total(ps) + Percents(ps)
  {
    if ps != [] {
      UnboundedCount(ps[1..]);
    }
  }

  // ---- two passes ----

  /** A counting pass and then a pass into a buffer of the size counted. */
  function Passes(first: seq<Piece>, second: seq<Piece>): Result {
    var r := Run(first, Start(None), 0, None);
    if r.Printed? then SecondPass(second, r.n) else r
  }

  function SecondPass(ps: seq<Piece>, n: nat): Result {
    var r := Run(ps, Start(Some(n + 1)), n + 1, Some(n + 1));
    if r.Printed? then Printed(n, r.text) else r
  }

  lemma PassesExact(first: seq<Piece>, second: seq<Piece>)
    requires Plain(first) ==> Plain(second)
    ensures var r := Passes(first, second);
            && (r.Printed? && r.text == All(second) <==> Plain(first) && Total(second) <= Total(first))
            && (r.Printed? ==> r.n == Total(first))
  {
    CountingPass(first, Start(None), 0);
    if Plain(first) {
      PlainLength(second);
      var r := Run(second, Start(Some(Total(first) + 1)), Total(first) + 1, Some(Total(first) + 1));
      BoundedExact(second, Total(first) + 1);
      assert SecondPass(second, Total(first)) == if r.Printed? then Printed(Total(first), r.text) else r;
    }
  }

  /** kvprintf: both passes over the same format and arguments. Each finds its own residues in
      memory. */
  function TwoPasses(fmt: string, args: seq<Arg>, mem1: nat -> string, mem2: nat -> string): Result {
    Passes(Pieces(fmt, 0, args, 0, mem1), Pieces(fmt, 0, args, 0, mem2))
  }

  lemma SameKind(fmt: string, pos: nat, args: seq<Arg>, arg: nat, r1: string, r2: string)
    requires pos < |fmt|
    ensures var t, u := TurnAt(fmt, pos, args, arg, r1), TurnAt(fmt, pos, args, arg, r2);
            t.pos == u.pos && t.arg == u.arg && t.piece.Fault? == u.piece.Fault? && t.piece.Counted? == u.piece.Counted?
  {
  }

  /** Whether pieces are plain does not depend on the residues, only their text does. */
  lemma {:induction false} PlainEitherWay(
    fmt: string, pos: nat, args: seq<Arg>, arg: nat, mem1: nat -> string, mem2: nat -> string)
    requires pos <= |fmt|
    ensures Plain(Pieces(fmt, pos, args, arg, mem1)) <==> Plain(Pieces(fmt, pos, args, arg, mem2))
    decreases |fmt| - pos
  {
    if pos < |fmt| {
      var t, u := TurnAt(fmt, pos, args, arg, mem1(pos)), TurnAt(fmt, pos, args, arg, mem2(pos));
      SameKind(fmt, pos, args, arg, mem1(pos), mem2(pos));
      if !t.piece.Fault? {
        PlainEitherWay(fmt, t.pos, args, t.arg, mem1, mem2);
        PlainCons(t.piece, Pieces(fmt, t.pos, args, t.arg, mem1));
        PlainCons(u.piece, Pieces(fmt, u.pos, args, u.arg, mem2));
      }
    }
  }

  lemma PlainCons(p: Piece, ps: seq<Piece>)
    ensures Plain([p] + ps) <==> p.Counted? && Plain(ps)
  {
    if Plain([p] + ps) {
      assert ([p] + ps)[0] == p;
      assert forall i :: 0 <= i < |ps| ==> ps[i] == ([p] + ps)[i + 1];
    }
  }

  /** kvprintf prints all of what its second pass has to print exactly when the format has no
      `%%` and no fault, and that pass finds no more text than the first one counted. */
  lemma TwoPassesExact(fmt: string, args: seq<Arg>, mem1: nat -> string, mem2: nat -> string)
    ensures var first, second := Pieces(fmt, 0, args, 0, mem1), Pieces(fmt, 0, args, 0, mem2);
            var r := TwoPasses(fmt, args, mem1, mem2);
            && (r.Printed? && r.text == All(second) <==> Plain(first) && Total(second) <= Total(first))
            && (r.Printed? ==> r.n == Total(first))
  {
    PlainEitherWay(fmt, 0, args, 0, mem1, mem2);
    PassesExact(Pieces(fmt, 0, args, 0, mem1), Pieces(fmt, 0, args, 0, mem2));
  }

  // ---- which calls print the same whatever memory held ----

  /** The turn converts an argument that makes it print what memory held. */
  predicate Dirty(fmt: string, pos: nat, args: seq<Arg>, arg: nat)
    requires pos < |fmt|
  {
    fmt[pos] == '%' && !(pos + 1 < |fmt| && fmt[pos + 1] == '%')
    && var d := DirectiveAt(fmt, pos + 1, args, arg);
       d.Directive? && d.arg < |args| && ReadsMemory(d.spec, args[d.arg])
  }

  /** No turn does. This depends on the format and the arguments only. */
  predicate Safe(fmt: string, pos: nat, args: seq<Arg>, arg: nat)
    requires pos <= |fmt|
    decreases |fmt| - pos
  {
    pos == |fmt|
    || (var t := TurnAt(fmt, pos, args, arg, "");
        t.piece.Fault? || (!Dirty(fmt, pos, args, arg) && Safe(fmt, t.pos, args, t.arg)))
  }

  lemma DirtyTurn(fmt: string, pos: nat, args: seq<Arg>, arg: nat, residue: string)
    requires pos < |fmt|
    ensures Dirty(fmt, pos, args, arg) ==> CountOf(TurnAt(fmt, pos, args, arg, residue).piece) >= |residue|
    ensures !Dirty(fmt, pos, args, arg) ==> TurnAt(fmt, pos, args, arg, residue) == TurnAt(fmt, pos, args, arg, "")
  {
    var d := DirectiveAt(fmt, pos + 1, args, arg);
    if d.Directive? && d.arg < |args| {
      ReadsMemoryExact(d.spec, args[d.arg], residue);
    }
  }

  lemma {:induction false} SafePieces(
    fmt: string, pos: nat, args: seq<Arg>, arg: nat, mem1: nat -> string, mem2: nat -> string)
    requires pos <= |fmt| && Safe(fmt, pos, args, arg)
    ensures Pieces(fmt, pos, args, arg, mem1) == Pieces(fmt, pos, args, arg, mem2)
    decreases |fmt| - pos
  {
    if pos < |fmt| {
      var t := TurnAt(fmt, pos, args, arg, "");
      SameKind(fmt, pos, args, arg, "", mem1(pos));
      SameKind(fmt, pos, args, arg, "", mem2(pos));
      if !t.piece.Fault? {
        DirtyTurn(fmt, pos, args, arg, mem1(pos));
        DirtyTurn(fmt, pos, args, arg, mem2(pos));
        SafePieces(fmt, t.pos, args, t.arg, mem1, mem2);
      }
    }
  }

  /** An unsafe call prints at least as much as memory holds behind the text. */
  lemma {:induction false} UnsafeTotal(
    fmt: string, pos: nat, args: seq<Arg>, arg: nat, mem: nat -> string, residue: string)
    requires pos <= |fmt| && !Safe(fmt, pos, args, arg)
    requires forall k: nat :: mem(k) == residue
    requires Plain(Pieces(fmt, pos, args, arg, mem))
    ensures Total(Pieces(fmt, pos, args, arg, mem)) >= |residue|
    decreases |fmt| - pos
  {
    var t := TurnAt(fmt, pos, args, arg, residue);
    SameKind(fmt, pos, args, arg, "", residue);
    DirtyTurn(fmt, pos, args, arg, residue);
    assert Pieces(fmt, pos, args, arg, mem)[0] == t.piece;
    var rest := Pieces(fmt, t.pos, args, t.arg, mem);
    assert ([t.piece] + rest)[1..] == rest;
    if !Dirty(fmt, pos, args, arg) {
      PlainCons(t.piece, rest);
      UnsafeTotal(fmt, t.pos, args, t.arg, mem, residue);
    }
  }

  /** A residue ends before the next zero byte. */
  ghost predicate NulFree(mem: nat -> string) {
    forall k: nat :: NUL !in mem(k)
  }

  /** Whatever both passes find in memory, kvprintf prints all its second pass has to print. */
  ghost predicate AlwaysPrints(fmt: string, args: seq<Arg>) {
    forall mem1: nat -> string, mem2: nat -> string :: NulFree(mem1) && NulFree(mem2) ==>
      var r := TwoPasses(fmt, args, mem1, mem2);
      r.Printed? && r.text == All(Pieces(fmt, 0, args, 0, mem2))
  }

  /** Two-pass agreement, decided by the format and the arguments: it holds exactly when there is no
      `%%` and no fault, no string is printed, and no integer has a precision of at least the
      length of its text. */
  lemma AlwaysPrintsExact(fmt: string, args: seq<Arg>)
    ensures AlwaysPrints(fmt, args) <==> Plain(Pieces(fmt, 0, args, 0, _ => "")) && Safe(fmt, 0, args, 0)
  {
    var silent: nat -> string := _ => "";
    if Plain(Pieces(fmt, 0, args, 0, silent)) && Safe(fmt, 0, args, 0) {
      forall mem1: nat -> string, mem2: nat -> string
        ensures var r := TwoPasses(fmt, args, mem1, mem2);
                r.Printed? && r.text == All(Pieces(fmt, 0, args, 0, mem2))
      {
        SafePieces(fmt, 0, args, 0, silent, mem1);
        SafePieces(fmt, 0, args, 0, silent, mem2);
        TwoPassesExact(fmt, args, mem1, mem2);
      }
    } else if AlwaysPrints(fmt, args) {
      var n := Total(Pieces(fmt, 0, args, 0, silent)) + 1;
      var noisy: nat -> string := _ => Repeat('x', n);
      assert NulFree(silent) && NulFree(noisy);
      TwoPassesExact(fmt, args, silent, silent);
      TwoPassesExact(fmt, args, silent, noisy);
      PlainEitherWay(fmt, 0, args, 0, silent, noisy);
      assert TwoPasses(fmt, args, silent, silent).Printed? && TwoPasses(fmt, args, silent, noisy).Printed?;
      UnsafeTotal(fmt, 0, args, 0, noisy, Repeat('x', n));
    }
  }

  /** With equal residues in both passes it holds for every format without `%%` and faults; and
      then the count is the length of what is printed. */
  lemma PassesAgree(fmt: string, args: seq<Arg>, mem1: nat -> string, mem2: nat -> string)
    requires mem1 == mem2 || Safe(fmt, 0, args, 0)
    ensures var ps := Pieces(fmt, 0, args, 0, mem1);
            && (TwoPasses(fmt, args, mem1, mem2).Printed? <==> Plain(ps))
            && (Plain(ps) ==> TwoPasses(fmt, args, mem1, mem2) == Printed(|All(ps)|, All(ps)))
  {
    var ps := Pieces(fmt, 0, args, 0, mem1);
    if mem1 != mem2 {
      SafePieces(fmt, 0, args, 0, mem1, mem2);
    }
    PassesExact(ps, ps);
    CountingPass(ps, Start(None), 0);
    if Plain(ps) {
      PlainLength(ps);
    }
  }

  lemma StringTurn(s: string, residue: string)
    ensures TurnAt("%s", 0, [Str(s)], 0, residue) == Turn(Counted(s + residue), 2, 1)
  {
    assert FlagsAt("%s", 1, NO_FLAGS) == (NO_FLAGS, 1);
    assert WidthAt("%s", 1, [Str(s)], 0, None) == Field(None, 1, 0);
    assert s[..|s|] == s;
  }

  lemma SinglePieces(t: string, u: string)
    ensures Passes([Counted(t)], [Counted(u)]) == if |u| <= |t| then Printed(|t|, u) else TooLong
  {
    var first, second := [Counted(t)], [Counted(u)];
    CountingPass(first, Start(None), 0);
    BoundedExact(second, |t| + 1);
    assert second[..1] == second && All(second) == u;
    assert Passes(first, second) == SecondPass(second, |t|);
  }

  /** A string is where the passes can differ: with more behind its copy in the second pass than
      in the first, the terminator goes past the buffer. */
  lemma StringPasses(s: string, r1: string, r2: string)
    ensures TwoPasses("%s", [Str(s)], _ => r1, _ => r2)
            == if |r2| <= |r1| then Printed(|s| + |r1|, s + r2) else TooLong
  {
    var mem1: nat -> string, mem2: nat -> string := _ => r1, _ => r2;
    StringTurn(s, r1);
    StringTurn(s, r2);
    assert Pieces("%s", 0, [Str(s)], 0, mem1) == [Counted(s + r1)];
    assert Pieces("%s", 0, [Str(s)], 0, mem2) == [Counted(s + r2)];
    SinglePieces(s + r1, s + r2);
  }

  const DECIMAL := Spec(NO_FLAGS, None, None, NoLength, 'd')

  lemma DecimalDirective(args: seq<Arg>)
    ensures DirectiveAt("%d", 1, args, 0) == Directive(DECIMAL, 2, 0)
  {
    assert FlagsAt("%d", 1, NO_FLAGS) == (NO_FLAGS, 1);
    assert WidthAt("%d", 1, args, 0, None) == Field(None, 1, 0);
  }

  lemma DecimalTurn(n: int, residue: string)
    ensures var r := Converted(DECIMAL, Int(n), residue);
            TurnAt("%d", 0, [Int(n)], 0, residue) == if r.Some? then Turn(Counted(r.value), 2, 1) else Turn(Fault, 0, 0)
  {
    DecimalDirective([Int(n)]);
  }

  /** From the format to the buffer and back: every int but the least prints, in both passes
      alike, as a text that atoi reads as that int. */
  lemma DecimalPrints(n: int, mem1: nat -> string, mem2: nat -> string)
    requires -0x8000_0000 <= n < 0x8000_0000
    ensures var r := TwoPasses("%d", [Int(n)], mem1, mem2);
            if n == -0x8000_0000 then r == BadFormat
            else r.Printed? && r.n == |r.text| && Parsed(r.text) == Some(n)
  {
    var spec := DECIMAL;
    assert SignedValue(n, NoLength) == (n, -0x8000_0000);
    SignedConversion(spec, n, mem1(0));
    SignedConversion(spec, n, mem2(0));
    DecimalTurn(n, mem1(0));
    DecimalTurn(n, mem2(0));
    if n > -0x8000_0000 {
      var t := Converted(spec, Int(n), "").value;
      assert Pieces("%d", 0, [Int(n)], 0, mem1) == [Counted(t)];
      assert Pieces("%d", 0, [Int(n)], 0, mem2) == [Counted(t)];
      SinglePieces(t, t);
    }
  }

  // ---- without a limit ----

  lemma EmitUnlimited(s: Progress, p: Piece)
    requires !p.Fault? && !s.discard
    ensures Emit(s, p, 0) == Progress(s.written + TextOf(p), s.n + CountOf(p), false)
  {
  }

  /** sprintf writes everything; the count leaves out the percent signs of `%%`. */
  lemma {:induction false} Unbounded(ps: seq<Piece>, s: Progress, room: nat)
    requires Sound(ps) && !s.discard && |s.written| <= room
    ensures Run(ps, s, 0, Some(room))
            == if |s.written| + |All(ps)| < room then Printed(s.n + Total(ps), s.written + All(ps)) else TooLong
    decreases |ps|
  {
    if ps == [] {
      assert s.written + "" == s.written;
    } else {
      var t := Progress(s.written + TextOf(ps[0]), s.n + CountOf(ps[0]), false);
      EmitUnlimited(s, ps[0]);
      if |t.written| <= room {
        Unbounded(ps[1..], t, room);
        ConcatAssociates(s.written, TextOf(ps[0]), All(ps[1..]));
      }
    }
  }

  // ---- the formatter ----

  /** String arguments end at their first zero byte. */
  predicate CStrings(args: seq<Arg>) {
    forall i :: 0 <= i < |args| && args[i].Str? ==> NUL !in args[i].s
  }

  method TakeTurn(fmt: string, pos: nat, args: seq<Arg>, arg: nat, residue: string) returns (t: Turn)
    requires pos < |fmt| && NUL !in residue && CStrings(args)
    ensures t == TurnAt(fmt, pos, args, arg, residue)
  {
    if fmt[pos] != '%' {
      return Turn(Counted([fmt[pos]]), pos + 1, arg);
    }
    if pos + 1 < |fmt| && fmt[pos + 1] == '%' {
      return Turn(Percent, pos + 2, arg);
    }
    var d := ReadDirective(fmt, pos + 1, args, arg);
    if d.NoDirective? {
      return Turn(Fault, pos, arg);
    }
    if d.spec.specifier != 'n' && !TakesArgument(d.spec.specifier) {
      return Turn(Counted(""), d.pos, d.arg);
    }
    if d.arg >= |args| {
      return Turn(Fault, pos, arg);
    }
    if d.spec.specifier == 'n' {
      return Turn(Counted(""), d.pos, d.arg + 1);
    }
    var text := Convert(d.spec, args[d.arg], residue);
    return if text.None? then Turn(Fault, pos, arg) else Turn(Counted(text.value), d.pos, d.arg + 1);
  }

  method WriteOut(out: array<char>, at: nat, t: string)
    requires at + |t| <= out.Length
    modifies out
    ensures out[..at + |t|] == old(out[..at]) + t
  {
    for i := 0 to |t|
      invariant out[..at + i] == old(out[..at]) + t[..i]
    {
      out[at + i] := t[i];
      assert out[..at + i + 1] == out[..at + i] + [t[i]];
    }
    assert t[..|t|] == t;
  }

  ghost function Room(out: array?<char>): Option<nat> {
    if out == null then None else Some(out.Length)
  }

  lemma RunCons(p: Piece, ps: seq<Piece>, s: Progress, bufsz: nat, room: Option<nat>)
    ensures Run([p] + ps, s, bufsz, room)
            == if p.Fault? then BadFormat
               else if room.None? && p.Percent? then NullWrite
               else if room.Some? && |Emit(s, p, bufsz).written| > room.value then TooLong
               else Run(ps, Emit(s, p, bufsz), bufsz, room)
  {
    assert ([p] + ps)[1..] == ps;
  }

  /** The buffer holds what was written so far. */
  ghost predicate Holding(out: array?<char>, at: nat, s: Progress)
    reads if out == null then {} else {out}
  {
    && at == |s.written|
    && (out == null ==> s.discard && s.written == "")
    && (out != null ==> at <= out.Length && out[..at] == s.written)
  }

  /** Writing one piece, unless it is discarded, and counting it. */
  method WritePiece(out: array?<char>, bufsz: nat, p: Piece, at: nat, n: nat, discard: bool, ghost s: Progress)
    returns (fits: bool, at': nat, n': nat, discard': bool)
    requires Holding(out, at, s) && n == s.n && discard == s.discard
    requires !p.Fault? && (p.Percent? ==> out != null)
    modifies if out == null then {} else {out}
    ensures fits <==> out != null ==> |Emit(s, p, bufsz).written| <= out.Length
    ensures fits ==> Holding(out, at', Emit(s, p, bufsz)) && n' == Emit(s, p, bufsz).n
    ensures fits ==> discard' == Emit(s, p, bufsz).discard
  {
    fits, at', n', discard' := true, at, n, discard;
    if p.Percent? || !discard {
      var text := TextOf(p);
      if at + |text| > out.Length {
        return false, at, n, discard;
      }
      WriteOut(out, at, text);
      at' := at + |text|;
    }
    n' := n + CountOf(p);
    if bufsz > 0 && n' >= bufsz - 1 {
      discard' := true;
    }
  }

  /** The buffer is `out` or, for a count only, none. */
  method Kvsnprintf(out: array?<char>, bufsz: nat, fmt: string, args: seq<Arg>, mem: nat -> string) returns (r: Result)
    requires CStrings(args) && NulFree(mem)
    modifies if out == null then {} else {out}
    ensures r == Run(Pieces(fmt, 0, args, 0, mem), Start(Room(out)), bufsz, Room(out))
    ensures r.Printed? && out != null ==> |r.text| < out.Length && out[..|r.text|] == r.text && out[|r.text|] == NUL
  {
    var n: nat, pos, arg, at: nat, discard := 0, 0, 0, 0, out == null;
    ghost var s, room := Start(Room(out)), Room(out);
    while pos < |fmt|
      invariant pos <= |fmt| && Holding(out, at, s) && n == s.n && discard == s.discard
      invariant Run(Pieces(fmt, pos, args, arg, mem), s, bufsz, room)
             == Run(Pieces(fmt, 0, args, 0, mem), Start(room), bufsz, room)
      decreases |fmt| - pos
    {
      var t := TakeTurn(fmt, pos, args, arg, mem(pos));
      if t.piece.Fault? {
        return BadFormat;
      }
      RunCons(t.piece, Pieces(fmt, t.pos, args, t.arg, mem), s, bufsz, room);
      if t.piece.Percent? && out == null {
        return NullWrite;
      }
      var fits;
      fits, at, n, discard := WritePiece(out, bufsz, t.piece, at, n, discard, s);
      if !fits {
        return TooLong;
      }
      s := Emit(s, t.piece, bufsz);
      pos, arg := t.pos, t.arg;
    }
    if out == null {
      return Printed(n, "");
    }
    if at == out.Length {
      return TooLong;
    }
    out[at] := NUL;
    assert out[..at] == s.written;
    return Printed(n, out[..at]);
  }

  method Kvprintf(fmt: string, args: seq<Arg>, mem1: nat -> string, mem2: nat -> string) returns (r: Result)
    requires CStrings(args) && NulFree(mem1) && NulFree(mem2)
    ensures r == TwoPasses(fmt, args, mem1, mem2)
  {
    ghost var first, second := Pieces(fmt, 0, args, 0, mem1), Pieces(fmt, 0, args, 0, mem2);
    r := Kvsnprintf(null, 0, fmt, args, mem1);
    ghost var counted := r;
    if r.Printed? {
      var n := r.n;
      var t := new char[n + 1];
      r := Kvsnprintf(t, n + 1, fmt, args, mem2);
      PassesCompose(first, second, counted, r);
      if r.Printed? {
        r := Printed(n, r.text);
      }
    }
  }

  lemma PassesCompose(first: seq<Piece>, second: seq<Piece>, r1: Result, r2: Result)
    requires r1 == Run(first, Start(None), 0, None) && r1.Printed?
    requires r2 == Run(second, Start(Some(r1.n + 1)), r1.n + 1, Some(r1.n + 1))
    ensures Passes(first, second) == if r2.Printed? then Printed(r1.n, r2.text) else r2
  {
  }
}
