/** The reference-count protocol of shared and weak pointers as a state machine.

    A state records every counter ever made and what each live handle refers to.
 */
module RefCounts {
  import opened Wrappers

  /** A counter: its two counts, how often the object it guards was destroyed, and whether
      the counter itself was deleted. */
  datatype Counter = Counter(strong: nat, weak: nat, destroyed: nat, deleted: bool)

  datatype State<!C(==), !S(==), !W(==)> = State(
    counters: map<C, Counter>, shared: map<S, Option<C>>, weaks: map<W, Option<C>>)

  // ---- the protocol's invariant ----

  /** The handles that refer to a counter. */
  function Holders<H, C(==)>(m: map<H, Option<C>>, c: C): set<H> {
    set h | h in m && m[h] == Some(c)
  }

  function SharedCount<C, S, W>(s: State<C, S, W>, c: C): nat { |Holders(s.shared, c)| }

  function WeakCount<C, S, W>(s: State<C, S, W>, c: C): nat { |Holders(s.weaks, c)| }

  function One(b: bool): nat { if b then 1 else 0 }

  lemma CountUpdate<H, C>(m: map<H, Option<C>>, h: H, o: Option<C>, c: C)
    ensures |Holders(m[h := o], c)| == |Holders(m, c)| - One(h in m && m[h] == Some(c)) + One(o == Some(c))
  {
    var before := Holders(m, c);
    assert Holders(m[h := o], c) == if o == Some(c) then before + {h} else before - {h};
    assert h in before <==> h in m && m[h] == Some(c);
  }

  lemma CountRemove<H, C>(m: map<H, Option<C>>, h: H, c: C)
    ensures |Holders(m - {h}, c)| == |Holders(m, c)| - One(h in m && m[h] == Some(c))
  {
    var before := Holders(m, c);
    assert Holders(m - {h}, c) == before - {h};
    assert h in before <==> h in m && m[h] == Some(c);
  }

  lemma CountPositive<H, C>(m: map<H, Option<C>>, h: H, c: C)
    requires h in m && m[h] == Some(c)
    ensures |Holders(m, c)| > 0
  {
    assert h in Holders(m, c);
  }

  lemma CountTwo<H, C>(m: map<H, Option<C>>, g: H, h: H, c: C)
    requires g != h && g in m && m[g] == Some(c) && h in m && m[h] == Some(c)
    ensures |Holders(m, c)| >= 2
  {
    CountRemove(m, h, c);
    CountPositive(m - {h}, g, c);
  }

  /** strong_count is the number of shared handles; weak_count is at least the number of weak
      ones; the object is destroyed once exactly when no shared handle is left; and a deleted
      counter has no handle of either kind. */
  ghost predicate GoodCounter<C, S, W>(s: State<C, S, W>, c: C)
    requires c in s.counters
  {
    var k := s.counters[c];
    && k.strong == SharedCount(s, c)
    && k.weak >= WeakCount(s, c)
    && k.destroyed == (if k.strong == 0 then 1 else 0)
    && (k.deleted ==> k.strong == 0 && WeakCount(s, c) == 0)
  }

  ghost predicate Inv<C, S, W>(s: State<C, S, W>) {
    && (forall h :: h in s.shared && s.shared[h].Some? ==> s.shared[h].value in s.counters)
    && (forall w :: w in s.weaks && s.weaks[w].Some? ==> s.weaks[w].value in s.counters)
    && (forall c :: c in s.counters ==> GoodCounter(s, c))
  }

  // ---- increment and decrement ----

  const UINT_MAX: nat := 0xFFFF_FFFF

  function Increment(k: Counter): Counter {
    k.(strong := k.strong + 1)
  }

  /** shared_ptr::decrement */
  function Decrement(k: Counter): Counter {
    var n := if k.strong == 0 then UINT_MAX else k.strong - 1;
    if n == 0 then Counter(0, k.weak, k.destroyed + 1, k.deleted || k.weak == 0)
    else k.(strong := n)
  }

  /** Applying a counter operation to the counter a handle refers to, if any. */
  function Adjust<C, S, W>(s: State<C, S, W>, o: Option<C>, f: Counter -> Counter): State<C, S, W> {
    match o
    case Some(c) => if c in s.counters then s.(counters := s.counters[c := f(s.counters[c])]) else s
    case None => s
  }

  function SetShared<C, S, W>(s: State<C, S, W>, h: S, o: Option<C>): State<C, S, W> {
    s.(shared := s.shared[h := o])
  }

  function Ref<C, S, W>(s: State<C, S, W>, h: S): Option<C> {
    if h in s.shared then s.shared[h] else None
  }

  /** What all operations on one shared handle come down to: let go of what it refers to, then
      refer to `o` and count that. */
  function Retarget<C, S, W>(s: State<C, S, W>, h: S, o: Option<C>): State<C, S, W> {
    Adjust(SetShared(Adjust(s, Ref(s, h), Decrement), h, o), o, Increment)
  }

  // ---- counting handles ----

  /** A retarget keeps the invariant when the new counter is kept alive by another handle (or
      there is none). In particular letting go first and counting afterwards is safe even
      when old and new counter are the same. */
  lemma RetargetKeeps<C, S, W>(s: State<C, S, W>, h: S, o: Option<C>)
    requires Inv(s)
    requires o.Some? ==> exists g :: g in s.shared && g != h && s.shared[g] == o
    ensures Inv(Retarget(s, h, o))
    ensures Ref(Retarget(s, h, o), h) == o
  {
    var t := Retarget(s, h, o);
    forall c | c in t.counters ensures GoodCounter(t, c) {
      RetargetCounter(s, h, o, c);
    }
  }

  /** What a retarget does to one counter. */
  function Adjusted<C(==)>(k: Counter, c: C, old_: Option<C>, new_: Option<C>): Counter {
    var d := if old_ == Some(c) then Decrement(k) else k;
    if new_ == Some(c) then Increment(d) else d
  }

  lemma RetargetValue<C, S, W>(s: State<C, S, W>, h: S, o: Option<C>, c: C)
    requires c in s.counters
    ensures c in Retarget(s, h, o).counters
    ensures Retarget(s, h, o).counters[c] == Adjusted(s.counters[c], c, Ref(s, h), o)
  {
  }

  lemma RetargetCounter<C, S, W>(s: State<C, S, W>, h: S, o: Option<C>, c: C)
    requires c in s.counters && GoodCounter(s, c)
    requires o.Some? ==> exists g :: g in s.shared && g != h && s.shared[g] == o
    ensures c in Retarget(s, h, o).counters
    ensures GoodCounter(Retarget(s, h, o), c)
  {
    RetargetValue(s, h, o, c);
    CountUpdate(s.shared, h, o, c);
    assert Retarget(s, h, o).shared == s.shared[h := o] && Retarget(s, h, o).weaks == s.weaks;
    if Ref(s, h) == Some(c) {
      CountPositive(s.shared, h, c);
    }
    if o == Some(c) {
      var g :| g in s.shared && g != h && s.shared[g] == o;
      CountPositive(s.shared, g, c);
      if Ref(s, h) == Some(c) {
        CountTwo(s.shared, g, h, c);
      }
    }
  }

  // ---- weak handles ----

  function WeakRef<C, S, W>(s: State<C, S, W>, w: W): Option<C> {
    if w in s.weaks then s.weaks[w] else None
  }

  function IncrementWeak(k: Counter): Counter {
    k.(weak := k.weak + 1)
  }

  /** weak_ptr::decrement; it never deletes the counter. */
  function DecrementWeak(k: Counter): Counter {
    k.(weak := if k.weak == 0 then UINT_MAX else k.weak - 1)
  }

  /** Copying into a weak handle, new or old: the new counter is counted, the old one is not let go. */
  function Watch<C, S, W>(s: State<C, S, W>, w: W, o: Option<C>): State<C, S, W> {
    Adjust(s.(weaks := s.weaks[w := o]), o, IncrementWeak)
  }

  // ---- the operations ----

  datatype Op<!C, !S, !W> =
    | MakeShared(h: S, c: C)
    | EmptyShared(h: S)
    | CopyShared(h: S, g: S)
    | MoveShared(h: S, g: S)
    | AssignShared(h: S, g: S)
    | MoveAssignShared(h: S, g: S)
    | ResetShared(h: S)
    | DestroyShared(h: S)
    | SwapShared(h: S, g: S)
    | LockWeak(h: S, w: W)
    | EmptyWeak(w: W)
    | CopyWeak(w: W, v: W)
    | WeakOf(w: W, h: S)
    | MoveWeak(w: W, v: W)
    | AssignWeak(w: W, v: W)
    | AssignWeakShared(w: W, h: S)
    | AssignWeakMovedShared(w: W, h: S)
    | SwapWeak(w: W, v: W)
    | DestroyWeak(w: W)

  /** Constructors make new handles, everything else works on live ones. */
  predicate Enabled<C, S, W>(s: State<C, S, W>, op: Op<C, S, W>) {
    match op
    case MakeShared(h, c) => h !in s.shared && c !in s.counters
    case EmptyShared(h) => h !in s.shared
    case CopyShared(h, g) => h !in s.shared && g in s.shared
    case MoveShared(h, g) => h !in s.shared && g in s.shared
    case AssignShared(h, g) => h in s.shared && g in s.shared
    case MoveAssignShared(h, g) => h in s.shared && g in s.shared
    case ResetShared(h) => h in s.shared
    case DestroyShared(h) => h in s.shared
    case SwapShared(h, g) => h in s.shared && g in s.shared
    case LockWeak(h, w) => h !in s.shared && w in s.weaks
    case EmptyWeak(w) => w !in s.weaks
    case CopyWeak(w, v) => w !in s.weaks && v in s.weaks
    case WeakOf(w, h) => w !in s.weaks && h in s.shared
    case MoveWeak(w, v) => v in s.weaks
    case AssignWeak(w, v) => w in s.weaks && v in s.weaks
    case AssignWeakShared(w, h) => w in s.weaks && h in s.shared
    case AssignWeakMovedShared(w, h) => w in s.weaks && h in s.shared
    case SwapWeak(w, v) => w in s.weaks && v in s.weaks
    case DestroyWeak(w) => w in s.weaks
  }

  function Step<C, S, W>(s: State<C, S, W>, op: Op<C, S, W>): State<C, S, W>
    requires Enabled(s, op)
  {
    match op
    case MakeShared(h, c) => s.(counters := s.counters[c := Counter(1, 0, 0, false)], shared := s.shared[h := Some(c)])
    case EmptyShared(h) => SetShared(s, h, None)
    case CopyShared(h, g) => Retarget(s, h, s.shared[g])
    case MoveShared(h, g) => SetShared(SetShared(s, h, s.shared[g]), g, None)
    case AssignShared(h, g) => if h == g then s else Retarget(s, h, s.shared[g])
    case MoveAssignShared(h, g) =>
      if h == g then s
      else SetShared(SetShared(Adjust(s, s.shared[h], Decrement), h, s.shared[g]), g, None)
    case ResetShared(h) => Retarget(s, h, None)
    case DestroyShared(h) => Adjust(s, s.shared[h], Decrement).(shared := s.shared - {h})
    case SwapShared(h, g) =>
      // `*this` is moved out and takes over what rhs refers to; assigning the moved-out value
      // to rhs then lets go of that.
      if h == g then s
      else SetShared(SetShared(Adjust(s, s.shared[g], Decrement), h, s.shared[g]), g, s.shared[h])
    case LockWeak(h, w) =>
      if s.weaks[w].Some? && s.weaks[w].value in s.counters && s.counters[s.weaks[w].value].strong > 0
      then Retarget(s, h, s.weaks[w])
      else SetShared(s, h, None)
    case EmptyWeak(w) => s.(weaks := s.weaks[w := None])
    case CopyWeak(w, v) => Watch(s, w, s.weaks[v])
    case WeakOf(w, h) => Watch(s, w, s.shared[h])
    case MoveWeak(w, v) => s.(weaks := s.weaks[w := s.weaks[v]][v := None])
    case AssignWeak(w, v) => Watch(s, w, s.weaks[v])
    case AssignWeakShared(w, h) => Watch(s, w, s.shared[h])
    case AssignWeakMovedShared(w, h) => SetShared(s, h, None).(weaks := s.weaks[w := s.shared[h]])
    case SwapWeak(w, v) => s.(weaks := s.weaks[w := s.weaks[v]][v := s.weaks[w]])
    case DestroyWeak(w) => Adjust(s, s.weaks[w], DecrementWeak).(weaks := s.weaks - {w})
  }

  /** The two operations that break the counts do so exactly when the shared handle they take
      from refers to something. */
  predicate Sound<C, S, W>(s: State<C, S, W>, op: Op<C, S, W>)
    requires Enabled(s, op)
  {
    match op
    case SwapShared(h, g) => h == g || s.shared[g] == None
    case AssignWeakMovedShared(w, h) => s.shared[h] == None
    case _ => true
  }

  // ---- each operation ----

  lemma MakeKeeps<C, S, W>(s: State<C, S, W>, h: S, c: C)
    requires Inv(s) && h !in s.shared && c !in s.counters
    ensures Inv(Step(s, MakeShared(h, c)))
  {
    var t := Step(s, MakeShared(h, c));
    NobodyHolds(s, c);
    CountUpdate(s.shared, h, Some(c), c);
    forall d | d in s.counters ensures GoodCounter(t, d) {
      assert GoodCounter(s, d);
      CountUpdate(s.shared, h, Some(c), d);
    }
  }

  lemma NobodyHolds<C, S, W>(s: State<C, S, W>, c: C)
    requires Inv(s) && c !in s.counters
    ensures SharedCount(s, c) == 0 && WeakCount(s, c) == 0
  {
    assert Holders(s.shared, c) == {} && Holders(s.weaks, c) == {};
  }

  /** Handing what `g` refers to over to the empty handle `h`. */
  function Move<C, S, W>(s: State<C, S, W>, h: S, g: S): State<C, S, W> {
    SetShared(SetShared(s, h, Ref(s, g)), g, None)
  }

  /** Changing only shared handles, each counter keeping as many holders, keeps the invariant. */
  lemma SameHolderCounts<C, S, W>(s: State<C, S, W>, t: State<C, S, W>)
    requires Inv(s) && t.counters == s.counters && t.weaks == s.weaks
    requires forall h :: h in t.shared && t.shared[h].Some? ==> t.shared[h].value in s.counters
    requires forall c :: c in s.counters ==> SharedCount(t, c) == SharedCount(s, c)
    ensures Inv(t)
  {
    forall c | c in t.counters ensures GoodCounter(t, c) {
      assert GoodCounter(s, c);
    }
  }

  lemma MoveKeeps<C, S, W>(s: State<C, S, W>, h: S, g: S)
    requires Inv(s) && g in s.shared && h != g && Ref(s, h) == None
    ensures Inv(Move(s, h, g))
  {
    forall c | c in s.counters ensures SharedCount(Move(s, h, g), c) == SharedCount(s, c) {
      CountUpdate(s.shared, h, Ref(s, g), c);
      CountUpdate(s.shared[h := Ref(s, g)], g, None, c);
    }
    SameHolderCounts(s, Move(s, h, g));
  }

  lemma RemoveKeeps<C, S, W>(s: State<C, S, W>, h: S)
    requires Inv(s) && Ref(s, h) == None
    ensures Inv(s.(shared := s.shared - {h}))
  {
    var t := s.(shared := s.shared - {h});
    forall c | c in s.counters ensures SharedCount(t, c) == SharedCount(s, c) {
      CountRemove(s.shared, h, c);
    }
    SameHolderCounts(s, t);
  }

  lemma MoveAssignKeeps<C, S, W>(s: State<C, S, W>, h: S, g: S)
    requires Inv(s) && h in s.shared && g in s.shared
    ensures Inv(Step(s, MoveAssignShared(h, g)))
  {
    if h != g {
      RetargetKeeps(s, h, None);
      MoveKeeps(Retarget(s, h, None), h, g);
      MoveAfterRelease(s, h, g);
    }
  }

  lemma DestroyKeeps<C, S, W>(s: State<C, S, W>, h: S)
    requires Inv(s) && h in s.shared
    ensures Inv(Step(s, DestroyShared(h)))
  {
    RetargetKeeps(s, h, None);
    RemoveKeeps(Retarget(s, h, None), h);
    DestroyIsRemoval(s, h);
  }

  /** Destroying a handle is resetting it and forgetting it. */
  lemma DestroyIsRemoval<C, S, W>(s: State<C, S, W>, h: S)
    requires h in s.shared
    ensures var t := Retarget(s, h, None);
            Step(s, DestroyShared(h)) == t.(shared := t.shared - {h})
  {
    assert s.shared[h := None] - {h} == s.shared - {h};
  }

  lemma SharedStepKeeps<C, S, W>(s: State<C, S, W>, op: Op<C, S, W>)
    requires Inv(s) && Enabled(s, op)
    requires op.EmptyShared? || op.CopyShared? || op.MoveShared? || op.AssignShared? || op.MoveAssignShared?
             || op.ResetShared? || op.DestroyShared?
    ensures Inv(Step(s, op))
  {
    match op
    case EmptyShared(h) =>
      RetargetKeeps(s, h, None);
      assert Retarget(s, h, None) == SetShared(s, h, None);
    case CopyShared(h, g) => RetargetKeeps(s, h, s.shared[g]);
    case MoveShared(h, g) => MoveKeeps(s, h, g);
    case AssignShared(h, g) =>
      if h != g {
        RetargetKeeps(s, h, s.shared[g]);
      }
    case MoveAssignShared(h, g) => MoveAssignKeeps(s, h, g);
    case ResetShared(h) => RetargetKeeps(s, h, None);
    case DestroyShared(h) => DestroyKeeps(s, h);
    case _ =>
  }

  lemma MoveAfterRelease<C, S, W>(s: State<C, S, W>, h: S, g: S)
    requires h in s.shared && g in s.shared && h != g
    ensures Step(s, MoveAssignShared(h, g)) == Move(Retarget(s, h, None), h, g)
  {
    var t := Retarget(s, h, None);
    assert Ref(t, g) == s.shared[g];
    assert t.shared[h := s.shared[g]] == s.shared[h := s.shared[g]];
  }

  /** lock gives a new strong handle exactly while the object is alive, and never brings it back. */
  lemma LockKeeps<C, S, W>(s: State<C, S, W>, h: S, w: W)
    requires Inv(s) && h !in s.shared && w in s.weaks
    ensures Inv(Step(s, LockWeak(h, w)))
    ensures var t := Step(s, LockWeak(h, w));
            t.shared[h] == if s.weaks[w].Some? && s.counters[s.weaks[w].value].destroyed == 0 then s.weaks[w] else None
    ensures s.weaks[w].Some? ==> !s.counters[s.weaks[w].value].deleted
  {
    var o := s.weaks[w];
    if o.Some? {
      assert GoodCounter(s, o.value);
      CountPositive(s.weaks, w, o.value);
      if s.counters[o.value].strong > 0 {
        var g :| g in Holders(s.shared, o.value);
        assert g != h && s.shared[g] == o;
        RetargetKeeps(s, h, o);
      } else {
        SharedStepKeeps(s, EmptyShared(h));
      }
    } else {
      SharedStepKeeps(s, EmptyShared(h));
    }
  }

  lemma WatchCounter<C, S, W>(s: State<C, S, W>, w: W, o: Option<C>, c: C)
    requires c in s.counters && GoodCounter(s, c)
    requires o == Some(c) ==> !s.counters[c].deleted
    ensures c in Watch(s, w, o).counters && GoodCounter(Watch(s, w, o), c)
  {
    CountUpdate(s.weaks, w, o, c);
    if WeakRef(s, w) == Some(c) {
      CountPositive(s.weaks, w, c);
    }
  }

  /** The counter a weak handle starts watching has not been deleted. */
  lemma WatchKeeps<C, S, W>(s: State<C, S, W>, w: W, o: Option<C>)
    requires Inv(s)
    requires o.Some? ==> o.value in s.counters && !s.counters[o.value].deleted
    ensures Inv(Watch(s, w, o))
  {
    forall c | c in s.counters ensures GoodCounter(Watch(s, w, o), c) {
      WatchCounter(s, w, o, c);
    }
  }

  lemma HeldIsAlive<C, S, W>(s: State<C, S, W>, o: Option<C>)
    requires Inv(s) && o.Some?
    requires (exists h :: h in s.shared && s.shared[h] == o) || (exists w :: w in s.weaks && s.weaks[w] == o)
    ensures o.value in s.counters && !s.counters[o.value].deleted
  {
    if h :| h in s.shared && s.shared[h] == o {
      CountPositive(s.shared, h, o.value);
      assert GoodCounter(s, o.value);
    } else {
      var w :| w in s.weaks && s.weaks[w] == o;
      CountPositive(s.weaks, w, o.value);
      assert GoodCounter(s, o.value);
    }
  }

  /** Changing only weak handles, with no counter gaining holders, keeps the invariant. */
  lemma FewerWatchers<C, S, W>(s: State<C, S, W>, t: State<C, S, W>)
    requires Inv(s) && t.counters == s.counters && t.shared == s.shared
    requires forall w :: w in t.weaks && t.weaks[w].Some? ==> t.weaks[w].value in s.counters
    requires forall c :: c in s.counters ==> WeakCount(t, c) <= WeakCount(s, c)
    ensures Inv(t)
  {
    forall c | c in t.counters ensures GoodCounter(t, c) {
      assert GoodCounter(s, c);
    }
  }

  lemma MoveWeakKeeps<C, S, W>(s: State<C, S, W>, w: W, v: W)
    requires Inv(s) && v in s.weaks
    ensures Inv(Step(s, MoveWeak(w, v)))
  {
    forall c | c in s.counters ensures WeakCount(Step(s, MoveWeak(w, v)), c) <= WeakCount(s, c) {
      CountUpdate(s.weaks, w, s.weaks[v], c);
      CountUpdate(s.weaks[w := s.weaks[v]], v, None, c);
    }
    FewerWatchers(s, Step(s, MoveWeak(w, v)));
  }

  lemma SwapWeakKeeps<C, S, W>(s: State<C, S, W>, w: W, v: W)
    requires Inv(s) && w in s.weaks && v in s.weaks
    ensures Inv(Step(s, SwapWeak(w, v)))
  {
    forall c | c in s.counters ensures WeakCount(Step(s, SwapWeak(w, v)), c) <= WeakCount(s, c) {
      CountUpdate(s.weaks, w, s.weaks[v], c);
      CountUpdate(s.weaks[w := s.weaks[v]], v, s.weaks[w], c);
    }
    FewerWatchers(s, Step(s, SwapWeak(w, v)));
  }

  lemma DestroyWeakKeeps<C, S, W>(s: State<C, S, W>, w: W)
    requires Inv(s) && w in s.weaks
    ensures Inv(Step(s, DestroyWeak(w)))
  {
    var t := Step(s, DestroyWeak(w));
    forall c | c in s.counters ensures GoodCounter(t, c) {
      assert GoodCounter(s, c);
      CountRemove(s.weaks, w, c);
      if s.weaks[w] == Some(c) {
        CountPositive(s.weaks, w, c);
      }
    }
  }

  lemma WeakStepKeeps<C, S, W>(s: State<C, S, W>, op: Op<C, S, W>)
    requires Inv(s) && Enabled(s, op)
    requires op.EmptyWeak? || op.CopyWeak? || op.WeakOf? || op.MoveWeak? || op.AssignWeak? || op.AssignWeakShared?
             || op.SwapWeak? || op.DestroyWeak?
    ensures Inv(Step(s, op))
  {
    match op
    case EmptyWeak(w) => WatchKeeps(s, w, None);
    case CopyWeak(w, v) =>
      if s.weaks[v].Some? {
        HeldIsAlive(s, s.weaks[v]);
      }
      WatchKeeps(s, w, s.weaks[v]);
    case WeakOf(w, h) =>
      if s.shared[h].Some? {
        HeldIsAlive(s, s.shared[h]);
      }
      WatchKeeps(s, w, s.shared[h]);
    case MoveWeak(w, v) => MoveWeakKeeps(s, w, v);
    case AssignWeak(w, v) =>
      if s.weaks[v].Some? {
        HeldIsAlive(s, s.weaks[v]);
      }
      WatchKeeps(s, w, s.weaks[v]);
    case AssignWeakShared(w, h) =>
      if s.shared[h].Some? {
        HeldIsAlive(s, s.shared[h]);
      }
      WatchKeeps(s, w, s.shared[h]);
    case SwapWeak(w, v) => SwapWeakKeeps(s, w, v);
    case DestroyWeak(w) => DestroyWeakKeeps(s, w);
    case _ =>
  }

  /** Swapping with a handle that refers to something lets go of it once too often. */
  lemma SwapExact<C, S, W>(s: State<C, S, W>, h: S, g: S)
    requires Inv(s) && h in s.shared && g in s.shared
    ensures Inv(Step(s, SwapShared(h, g))) <==> h == g || s.shared[g] == None
  {
    var t := Step(s, SwapShared(h, g));
    if h != g {
      if s.shared[g] == None {
        MoveKeeps(s, g, h);
        assert t.shared == Move(s, g, h).shared;
        assert t == Move(s, g, h);
      } else {
        var c := s.shared[g].value;
        assert GoodCounter(s, c);
        CountPositive(s.shared, g, c);
        CountUpdate(s.shared, h, s.shared[g], c);
        CountUpdate(s.shared[h := s.shared[g]], g, s.shared[h], c);
        assert !GoodCounter(t, c);
      }
    }
  }

  /** Assigning a moved shared handle to a weak one takes the reference but not its count. */
  lemma AssignMovedExact<C, S, W>(s: State<C, S, W>, w: W, h: S)
    requires Inv(s) && w in s.weaks && h in s.shared
    ensures Inv(Step(s, AssignWeakMovedShared(w, h))) <==> s.shared[h] == None
  {
    var t := Step(s, AssignWeakMovedShared(w, h));
    if s.shared[h] == None {
      assert t.shared == s.shared;
      WatchKeeps(s, w, None);
    } else {
      var c := s.shared[h].value;
      assert GoodCounter(s, c);
      CountPositive(s.shared, h, c);
      CountUpdate(s.shared, h, None, c);
      assert !GoodCounter(t, c);
    }
  }

  /** Every operation keeps the counts, but for a swap with, and a weak assignment from, a
      shared handle that refers to something: these always break them. */
  lemma StepExact<C, S, W>(s: State<C, S, W>, op: Op<C, S, W>)
    requires Inv(s) && Enabled(s, op)
    ensures Inv(Step(s, op)) <==> Sound(s, op)
  {
    match op
    case MakeShared(h, c) => MakeKeeps(s, h, c);
    case SwapShared(h, g) => SwapExact(s, h, g);
    case AssignWeakMovedShared(w, h) => AssignMovedExact(s, w, h);
    case LockWeak(h, w) => LockKeeps(s, h, w);
    case EmptyShared(_) => SharedStepKeeps(s, op);
    case CopyShared(_, _) => SharedStepKeeps(s, op);
    case MoveShared(_, _) => SharedStepKeeps(s, op);
    case AssignShared(_, _) => SharedStepKeeps(s, op);
    case MoveAssignShared(_, _) => SharedStepKeeps(s, op);
    case ResetShared(_) => SharedStepKeeps(s, op);
    case DestroyShared(_) => SharedStepKeeps(s, op);
    case _ => WeakStepKeeps(s, op);
  }

  // ---- runs ----

  predicate RunEnabled<C, S, W>(s: State<C, S, W>, ops: seq<Op<C, S, W>>)
    decreases |ops|
  {
    ops == [] || (Enabled(s, ops[0]) && RunEnabled(Step(s, ops[0]), ops[1..]))
  }

  predicate SoundRun<C, S, W>(s: State<C, S, W>, ops: seq<Op<C, S, W>>)
    requires RunEnabled(s, ops)
    decreases |ops|
  {
    ops == [] || (Sound(s, ops[0]) && SoundRun(Step(s, ops[0]), ops[1..]))
  }

  function Run<C, S, W>(s: State<C, S, W>, ops: seq<Op<C, S, W>>): State<C, S, W>
    requires RunEnabled(s, ops)
    decreases |ops|
  {
    if ops == [] then s else Run(Step(s, ops[0]), ops[1..])
  }

  /** The invariant holds at the start, after every operation and at the end. */
  ghost predicate AlwaysInv<C, S, W>(s: State<C, S, W>, ops: seq<Op<C, S, W>>)
    requires RunEnabled(s, ops)
    decreases |ops|
  {
    Inv(s) && (ops == [] || AlwaysInv(Step(s, ops[0]), ops[1..]))
  }

  lemma {:induction false} RunExact<C, S, W>(s: State<C, S, W>, ops: seq<Op<C, S, W>>)
    requires Inv(s) && RunEnabled(s, ops)
    ensures AlwaysInv(s, ops) <==> SoundRun(s, ops)
    ensures SoundRun(s, ops) ==> Inv(Run(s, ops))
    decreases |ops|
  {
    if ops != [] {
      StepExact(s, ops[0]);
      if Sound(s, ops[0]) {
        RunExact(Step(s, ops[0]), ops[1..]);
      } else {
        assert !AlwaysInv(Step(s, ops[0]), ops[1..]);
      }
    }
  }

  // ---- what an operation does to each handle and each count ----

  /** What a shared handle refers to after an operation. */
  lemma RefersAfter<C, S, W>(s: State<C, S, W>, op: Op<C, S, W>, x: S)
    requires Enabled(s, op)
    ensures Ref(Step(s, op), x)
            == match op
               case MakeShared(h, c) => if x == h then Some(c) else Ref(s, x)
               case EmptyShared(h) => if x == h then None else Ref(s, x)
               case CopyShared(h, g) => if x == h then Ref(s, g) else Ref(s, x)
               case MoveShared(h, g) => if x == g then None else if x == h then Ref(s, g) else Ref(s, x)
               case AssignShared(h, g) => if x == h then Ref(s, g) else Ref(s, x)
               case MoveAssignShared(h, g) =>
                 if h != g && x == g then None else if x == h then Ref(s, g) else Ref(s, x)
               case ResetShared(h) => if x == h then None else Ref(s, x)
               case DestroyShared(h) => if x == h then None else Ref(s, x)
               case SwapShared(h, g) => if x == h then Ref(s, g) else if x == g then Ref(s, h) else Ref(s, x)
               case LockWeak(h, w) =>
                 if x != h then Ref(s, x)
                 else if WeakRef(s, w).Some? && WeakRef(s, w).value in s.counters
                         && s.counters[WeakRef(s, w).value].strong > 0 then WeakRef(s, w)
                 else None
               case AssignWeakMovedShared(w, h) => if x == h then None else Ref(s, x)
               case _ => Ref(s, x)
  {
  }

  /** What a weak handle refers to after an operation. */
  lemma WatchesAfter<C, S, W>(s: State<C, S, W>, op: Op<C, S, W>, x: W)
    requires Enabled(s, op)
    ensures WeakRef(Step(s, op), x)
            == match op
               case EmptyWeak(w) => if x == w then None else WeakRef(s, x)
               case CopyWeak(w, v) => if x == w then WeakRef(s, v) else WeakRef(s, x)
               case WeakOf(w, h) => if x == w then Ref(s, h) else WeakRef(s, x)
               case MoveWeak(w, v) => if x == v then None else if x == w then WeakRef(s, v) else WeakRef(s, x)
               case AssignWeak(w, v) => if x == w then WeakRef(s, v) else WeakRef(s, x)
               case AssignWeakShared(w, h) => if x == w then Ref(s, h) else WeakRef(s, x)
               case AssignWeakMovedShared(w, h) => if x == w then Ref(s, h) else WeakRef(s, x)
               case SwapWeak(w, v) => if x == w then WeakRef(s, v) else if x == v then WeakRef(s, w) else WeakRef(s, x)
               case DestroyWeak(w) => if x == w then None else WeakRef(s, x)
               case _ => WeakRef(s, x)
  {
  }

  /** The weak count goes up by one with each new reference that is not moved in, down by one with
      each weak handle destroyed, and never otherwise. */
  lemma WeakCountAfter<C, S, W>(s: State<C, S, W>, op: Op<C, S, W>, c: C)
    requires Inv(s) && Enabled(s, op) && c in s.counters
    ensures c in Step(s, op).counters
    ensures Step(s, op).counters[c].weak
            == match op
               case CopyWeak(_, v) => s.counters[c].weak + One(s.weaks[v] == Some(c))
               case WeakOf(_, h) => s.counters[c].weak + One(s.shared[h] == Some(c))
               case AssignWeak(_, v) => s.counters[c].weak + One(s.weaks[v] == Some(c))
               case AssignWeakShared(_, h) => s.counters[c].weak + One(s.shared[h] == Some(c))
               case DestroyWeak(w) => s.counters[c].weak - One(s.weaks[w] == Some(c))
               case _ => s.counters[c].weak
  {
    if op.DestroyWeak? && s.weaks[op.w] == Some(c) {
      assert GoodCounter(s, c);
      CountPositive(s.weaks, op.w, c);
    }
  }

  /** The strong count is the number of shared handles before and after, so a copy raises by one
      that of the counter it takes. */
  lemma CopyCounts<C, S, W>(s: State<C, S, W>, h: S, g: S, c: C)
    requires Inv(s) && Enabled(s, CopyShared(h, g)) && c in s.counters
    ensures c in Step(s, CopyShared(h, g)).counters
    ensures Step(s, CopyShared(h, g)).counters[c].strong == s.counters[c].strong + One(s.shared[g] == Some(c))
    ensures SharedCount(Step(s, CopyShared(h, g)), c) == SharedCount(s, c) + One(s.shared[g] == Some(c))
  {
    assert GoodCounter(s, c);
    CountUpdate(s.shared, h, s.shared[g], c);
    RetargetValue(s, h, s.shared[g], c);
    assert Ref(s, h) == None;
  }

  /** A counter is deleted at the very operation that takes its last shared handle, and exactly when
      its weak count is zero then. */
  lemma DeletedAfter<C, S, W>(s: State<C, S, W>, op: Op<C, S, W>, c: C)
    requires Inv(s) && Enabled(s, op) && Sound(s, op) && c in s.counters
    ensures c in Step(s, op).counters
    ensures Step(s, op).counters[c].deleted <==>
            s.counters[c].deleted || (s.counters[c].strong > 0 && Step(s, op).counters[c].strong == 0 && s.counters[c].weak == 0)
  {
    assert GoodCounter(s, c);
    if s.counters[c].strong == 0 {
      UnheldCounter(s, c);
    }
    if op.AssignShared? {
      if op.h != op.g && s.shared[op.h] == Some(c) && s.shared[op.g] == Some(c) {
        CountTwo(s.shared, op.g, op.h, c);
      }
      DeletedByAssignment(s, op.h, op.g, c);
    } else if op.MakeShared? || op.EmptyShared? || op.CopyShared? || op.MoveShared? || op.MoveAssignShared?
              || op.ResetShared? || op.DestroyShared? || op.SwapShared? || op.AssignWeakMovedShared? {
      DeletedByShared(s, op, c);
    } else {
      DeletedByWeak(s, op, c);
    }
  }

  /** Deletion, counter by counter. */
  predicate Deletes(k: Counter, l: Counter) {
    l.deleted <==> k.deleted || (k.strong > 0 && l.strong == 0 && k.weak == 0)
  }

  lemma DeletedByAssignment<C, S, W>(s: State<C, S, W>, h: S, g: S, c: C)
    requires Enabled(s, AssignShared(h, g)) && c in s.counters
    requires s.counters[c].strong == 0 ==> s.shared[h] != Some(c) && s.shared[g] != Some(c)
    requires h != g && s.shared[h] == Some(c) && s.shared[g] == Some(c) ==> s.counters[c].strong >= 2
    ensures c in Step(s, AssignShared(h, g)).counters
    ensures Deletes(s.counters[c], Step(s, AssignShared(h, g)).counters[c])
  {
    RetargetValue(s, h, s.shared[g], c);
  }

  lemma DeletedByShared<C, S, W>(s: State<C, S, W>, op: Op<C, S, W>, c: C)
    requires Enabled(s, op) && c in s.counters
    requires s.counters[c].strong == 0 ==> forall h :: h in s.shared ==> s.shared[h] != Some(c)
    requires op.MakeShared? || op.EmptyShared? || op.CopyShared? || op.MoveShared? || op.MoveAssignShared?
             || op.ResetShared? || op.DestroyShared? || op.SwapShared? || op.AssignWeakMovedShared?
    ensures c in Step(s, op).counters && Deletes(s.counters[c], Step(s, op).counters[c])
  {
  }

  lemma DeletedByWeak<C, S, W>(s: State<C, S, W>, op: Op<C, S, W>, c: C)
    requires Enabled(s, op) && c in s.counters
    requires op.LockWeak? || op.EmptyWeak? || op.CopyWeak? || op.WeakOf? || op.MoveWeak? || op.AssignWeak?
             || op.AssignWeakShared? || op.SwapWeak? || op.DestroyWeak?
    ensures c in Step(s, op).counters && Deletes(s.counters[c], Step(s, op).counters[c])
  {
  }

  lemma UnheldCounter<C, S, W>(s: State<C, S, W>, c: C)
    requires Inv(s) && c in s.counters && s.counters[c].strong == 0
    ensures forall h :: h in s.shared ==> s.shared[h] != Some(c)
  {
    assert GoodCounter(s, c);
    assert Holders(s.shared, c) == {};
    forall h | h in s.shared ensures s.shared[h] != Some(c) {
      assert h !in Holders(s.shared, c);
    }
  }

  // ---- deleted counters are left alone ----

  /** The counter, if any, has not been deleted. */
  predicate Live<C, S, W>(s: State<C, S, W>, o: Option<C>) {
    o.Some? && o.value in s.counters ==> !s.counters[o.value].deleted
  }

  /** The two counters a retarget touches are there when it does: the old one, and, after that
      was let go of, the new one. */
  predicate RetargetTouchesLive<C, S, W>(s: State<C, S, W>, h: S, o: Option<C>) {
    Live(s, Ref(s, h)) && Live(SetShared(Adjust(s, Ref(s, h), Decrement), h, o), o)
  }

  /** Every counter that an operation reads or counts is there at the moment it does. */
  predicate TouchesLive<C, S, W>(s: State<C, S, W>, op: Op<C, S, W>)
    requires Enabled(s, op)
  {
    match op
    case CopyShared(h, g) => RetargetTouchesLive(s, h, s.shared[g])
    case AssignShared(h, g) => h == g || RetargetTouchesLive(s, h, s.shared[g])
    case MoveAssignShared(h, g) => h == g || Live(s, s.shared[h])
    case ResetShared(h) => Live(s, s.shared[h])
    case DestroyShared(h) => Live(s, s.shared[h])
    case SwapShared(h, g) => h == g || Live(s, s.shared[g])
    case LockWeak(h, w) => Live(s, s.weaks[w])
    case CopyWeak(w, v) => Live(s, s.weaks[v])
    case WeakOf(w, h) => Live(s, s.shared[h])
    case AssignWeak(w, v) => Live(s, s.weaks[v])
    case AssignWeakShared(w, h) => Live(s, s.shared[h])
    case DestroyWeak(w) => Live(s, s.weaks[w])
    case _ => true
  }

  lemma SharedIsLive<C, S, W>(s: State<C, S, W>, h: S)
    requires Inv(s) && h in s.shared
    ensures Live(s, s.shared[h])
  {
    if s.shared[h].Some? {
      HeldIsAlive(s, s.shared[h]);
    }
  }

  lemma WeakIsLive<C, S, W>(s: State<C, S, W>, w: W)
    requires Inv(s) && w in s.weaks
    ensures Live(s, s.weaks[w])
  {
    if s.weaks[w].Some? {
      HeldIsAlive(s, s.weaks[w]);
    }
  }

  /** Letting go first does not delete the counter that another handle still refers to. */
  lemma RetargetIsLive<C, S, W>(s: State<C, S, W>, h: S, g: S)
    requires Inv(s) && g in s.shared && g != h
    ensures RetargetTouchesLive(s, h, s.shared[g])
  {
    SharedIsLive(s, g);
    if h in s.shared {
      SharedIsLive(s, h);
      if s.shared[h].Some? && s.shared[h] == s.shared[g] {
        var c := s.shared[h].value;
        assert GoodCounter(s, c);
        CountTwo(s.shared, g, h, c);
      }
    }
  }

  /** No operation ever touches a deleted counter, not even in the middle of an assignment. */
  lemma StepTouchesLive<C, S, W>(s: State<C, S, W>, op: Op<C, S, W>)
    requires Inv(s) && Enabled(s, op)
    ensures TouchesLive(s, op)
  {
    match op
    case CopyShared(h, g) => RetargetIsLive(s, h, g);
    case AssignShared(h, g) =>
      if h != g {
        RetargetIsLive(s, h, g);
      }
    case MoveAssignShared(h, g) => SharedIsLive(s, h);
    case ResetShared(h) => SharedIsLive(s, h);
    case DestroyShared(h) => SharedIsLive(s, h);
    case SwapShared(h, g) => SharedIsLive(s, g);
    case LockWeak(h, w) => WeakIsLive(s, w);
    case CopyWeak(w, v) => WeakIsLive(s, v);
    case WeakOf(w, h) => SharedIsLive(s, h);
    case AssignWeak(w, v) => WeakIsLive(s, v);
    case AssignWeakShared(w, h) => SharedIsLive(s, h);
    case DestroyWeak(w) => WeakIsLive(s, w);
    case _ =>
  }

  predicate RunTouchesLive<C, S, W>(s: State<C, S, W>, ops: seq<Op<C, S, W>>)
    requires RunEnabled(s, ops)
    decreases |ops|
  {
    ops == [] || (TouchesLive(s, ops[0]) && RunTouchesLive(Step(s, ops[0]), ops[1..]))
  }

  /** Over a sound run every increment, decrement and look at a count finds its counter there. */
  lemma {:induction false} DeletedLeftAlone<C, S, W>(s: State<C, S, W>, ops: seq<Op<C, S, W>>)
    requires Inv(s) && RunEnabled(s, ops) && SoundRun(s, ops)
    ensures RunTouchesLive(s, ops)
    decreases |ops|
  {
    if ops != [] {
      StepTouchesLive(s, ops[0]);
      StepExact(s, ops[0]);
      DeletedLeftAlone(Step(s, ops[0]), ops[1..]);
    }
  }

  // ---- destruction is for good ----

  /** No operation takes back a destruction, or deletes a counter later than the moment its
      last shared handle lets go. */
  lemma StepForgetsNothing<C, S, W>(s: State<C, S, W>, op: Op<C, S, W>, c: C)
    requires Inv(s) && Enabled(s, op) && c in s.counters
    ensures c in Step(s, op).counters && Keeps(s.counters[c], Step(s, op).counters[c])
  {
    if s.counters[c].strong == 0 {
      UnheldCounter(s, c);
    }
    if op.LockWeak? || op.EmptyWeak? || op.CopyWeak? || op.WeakOf? || op.MoveWeak? || op.AssignWeak?
       || op.AssignWeakShared? || op.SwapWeak? || op.DestroyWeak? {
      WeakStepForgetsNothing(s, op, c);
    } else {
      SharedStepForgetsNothing(s, op, c);
    }
  }

  /** Destructions are only added, and with no shared handle left nothing gets deleted. */
  predicate Keeps(k: Counter, l: Counter) {
    l.destroyed >= k.destroyed && (k.strong == 0 ==> l.deleted == k.deleted)
  }

  lemma SharedStepForgetsNothing<C, S, W>(s: State<C, S, W>, op: Op<C, S, W>, c: C)
    requires Enabled(s, op) && c in s.counters
    requires s.counters[c].strong == 0 ==> forall h :: h in s.shared ==> s.shared[h] != Some(c)
    requires op.MakeShared? || op.EmptyShared? || op.CopyShared? || op.MoveShared? || op.AssignShared?
             || op.MoveAssignShared? || op.ResetShared? || op.DestroyShared? || op.SwapShared?
             || op.AssignWeakMovedShared?
    ensures c in Step(s, op).counters && Keeps(s.counters[c], Step(s, op).counters[c])
  {
  }

  lemma WeakStepForgetsNothing<C, S, W>(s: State<C, S, W>, op: Op<C, S, W>, c: C)
    requires Enabled(s, op) && c in s.counters
    requires op.LockWeak? || op.EmptyWeak? || op.CopyWeak? || op.WeakOf? || op.MoveWeak? || op.AssignWeak?
             || op.AssignWeakShared? || op.SwapWeak? || op.DestroyWeak?
    ensures c in Step(s, op).counters && Keeps(s.counters[c], Step(s, op).counters[c])
  {
  }

  /** Over a sound run an object destroyed stays destroyed, exactly once, without a shared
      handle ever referring to it again; and a counter that outlived its last shared handle
      because of weak ones is never deleted. */
  lemma {:induction false} DestroyedForGood<C, S, W>(s: State<C, S, W>, ops: seq<Op<C, S, W>>, c: C)
    requires Inv(s) && RunEnabled(s, ops) && SoundRun(s, ops)
    requires c in s.counters && s.counters[c].destroyed > 0
    ensures c in Run(s, ops).counters && Run(s, ops).counters[c].destroyed == 1
    ensures forall h :: h in Run(s, ops).shared ==> Run(s, ops).shared[h] != Some(c)
    ensures Run(s, ops).counters[c].deleted == s.counters[c].deleted
    decreases |ops|
  {
    assert GoodCounter(s, c);
    if ops == [] {
      forall h | h in s.shared ensures s.shared[h] != Some(c) {
        assert h !in Holders(s.shared, c);
      }
    } else {
      StepExact(s, ops[0]);
      StepForgetsNothing(s, ops[0], c);
      DestroyedForGood(Step(s, ops[0]), ops[1..], c);
    }
  }
}
