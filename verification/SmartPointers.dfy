/** shared_ptr and weak_ptr as objects that update a common counter. Each method is tied to
    a step of the state machine over all counters and live handles.

    The ghost parameter `s` of a method is the state of the protocol before the call; its
    keys are the counters ever made and the handles that are alive.
 */
module SmartPointers {
  import opened RefCounts
  import opened Traps
  import opened Wrappers

  /** counter: its two counts, and, for the statements only, what became of it. */
  class CounterObject {
    var strong: nat
    var weak: nat
    ghost var destroyed: nat // calls of destroy()
    ghost var deleted: bool

    /** A counter starts with one shared handle on it. */
    constructor ()
      ensures strong == 1 && weak == 0 && destroyed == 0 && !deleted
    {
      strong, weak, destroyed, deleted := 1, 0, 0, false;
    }
  }

  type World = State<CounterObject, SharedPtr, WeakPtr>

  function ToRef(c: CounterObject?): Option<CounterObject> {
    if c == null then None else Some(c)
  }

  ghost predicate CountersAre(m: map<CounterObject, Counter>)
    reads m.Keys
  {
    forall c :: c in m ==> m[c] == Counter(c.strong, c.weak, c.destroyed, c.deleted)
  }

  ghost predicate SharedAre(m: map<SharedPtr, Option<CounterObject>>)
    reads m.Keys
  {
    forall h :: h in m ==> m[h] == ToRef(h.ctr)
  }

  ghost predicate WeaksAre(m: map<WeakPtr, Option<CounterObject>>)
    reads m.Keys
  {
    forall w :: w in m ==> m[w] == ToRef(w.ctr)
  }

  /** The heap holds exactly the counts and references of `s`. */
  ghost predicate Represents(s: World)
    reads s.counters.Keys, s.shared.Keys, s.weaks.Keys
  {
    CountersAre(s.counters) && SharedAre(s.shared) && WeaksAre(s.weaks)
  }

  /** A handle's counter is one of those the state knows of. */
  predicate Known(s: World, c: CounterObject?) {
    c != null ==> c in s.counters
  }

  class SharedPtr {
    var ctr: CounterObject?
    var ptr: nat

    constructor (ghost s: World)
      requires Represents(s)
      ensures this !in s.shared && Represents(Step(s, EmptyShared(this)))
      ensures ptr == 0
    {
      ctr, ptr := null, 0;
    }

    constructor FromPointer(pt: nat, ghost s: World)
      requires Represents(s)
      ensures ctr != null && fresh(ctr) && this !in s.shared && ctr !in s.counters
      ensures Represents(Step(s, MakeShared(this, ctr)))
      ensures ptr == pt
    {
      ctr := new CounterObject();
      ptr := pt;
    }

    constructor Copy(rhs: SharedPtr, ghost s: World)
      requires Represents(s) && rhs in s.shared && Known(s, rhs.ctr)
      modifies s.counters.Keys
      ensures this !in s.shared && Represents(Step(s, CopyShared(this, rhs)))
      ensures ptr == rhs.ptr
    {
      ctr, ptr := rhs.ctr, rhs.ptr;
      new;
      Increment(SetShared(s, this, ToRef(ctr)));
    }

    /** From a weak handle that refers to a counter: only while the object lives. */
    constructor FromWeak(rhs: WeakPtr, ghost s: World)
      requires Represents(s) && rhs in s.weaks && rhs.ctr != null && Known(s, rhs.ctr)
      modifies s.counters.Keys
      ensures this !in s.shared && Represents(Step(s, LockWeak(this, rhs)))
      ensures ptr == if old(rhs.ctr.strong) > 0 then rhs.ptr else 0
    {
      ctr, ptr := rhs.ctr, rhs.ptr;
      new;
      if ctr.strong > 0 {
        Increment(SetShared(s, this, ToRef(ctr)));
      } else {
        Refer(null, 0, s);
      }
    }

    constructor Move(rhs: SharedPtr, ghost s: World)
      requires Represents(s) && rhs in s.shared
      modifies rhs
      ensures this !in s.shared && Represents(Step(s, MoveShared(this, rhs)))
      ensures ptr == old(rhs.ptr)
    {
      ctr, ptr := rhs.ctr, rhs.ptr;
      new;
      rhs.ctr := null;
      rhs.ptr := 0;
    }

    /** The two assignments that make a handle refer to something else, counting nothing. */
    method Refer(c: CounterObject?, p: nat, ghost s: World)
      requires Represents(s)
      modifies this
      ensures Represents(SetShared(s, this, ToRef(c)))
      ensures ctr == c && ptr == p
    {
      ctr := c;
      ptr := p;
    }

    method Increment(ghost s: World)
      requires Represents(s) && Known(s, ctr)
      modifies s.counters.Keys
      ensures Represents(Adjust(s, ToRef(ctr), RefCounts.Increment))
    {
      if ctr != null {
        ctr.strong := ctr.strong + 1;
      }
    }

    method Decrement(ghost s: World)
      requires Represents(s) && Known(s, ctr)
      modifies s.counters.Keys
      ensures Represents(Adjust(s, ToRef(ctr), RefCounts.Decrement))
    {
      if ctr != null {
        ctr.strong := if ctr.strong == 0 then UINT_MAX else ctr.strong - 1;
        if ctr.strong == 0 {
          ctr.destroyed := ctr.destroyed + 1;
          if ctr.weak == 0 {
            ctr.deleted := true;
          }
        }
      }
    }

    /** Letting go, taking over what another handle refers to, and counting it. */
    method CopyAssign(rhs: SharedPtr, ghost s: World)
      requires Represents(s) && this in s.shared && rhs in s.shared && Known(s, ctr) && Known(s, rhs.ctr)
      modifies this, s.counters.Keys
      ensures Represents(Step(s, AssignShared(this, rhs)))
      ensures ptr == rhs.ptr
    {
      if this != rhs {
        ghost var t := Adjust(s, ToRef(ctr), RefCounts.Decrement);
        ghost var u := SetShared(t, this, ToRef(rhs.ctr));
        assert Adjust(u, ToRef(rhs.ctr), RefCounts.Increment) == Step(s, AssignShared(this, rhs));
        Decrement(s);
        Refer(rhs.ctr, rhs.ptr, t);
        Increment(u);
      }
    }

    method MoveAssign(rhs: SharedPtr, ghost s: World)
      requires Represents(s) && this in s.shared && rhs in s.shared && Known(s, ctr)
      modifies this, rhs, s.counters.Keys
      ensures Represents(Step(s, MoveAssignShared(this, rhs)))
      ensures ptr == old(rhs.ptr)
    {
      if this != rhs {
        ghost var t := Adjust(s, ToRef(ctr), RefCounts.Decrement);
        ghost var u := SetShared(t, this, ToRef(rhs.ctr));
        assert SetShared(u, rhs, None) == Step(s, MoveAssignShared(this, rhs));
        Decrement(s);
        Refer(rhs.ctr, rhs.ptr, t);
        rhs.Refer(null, 0, u);
      }
    }

    method Reset(ghost s: World)
      requires Represents(s) && this in s.shared && Known(s, ctr)
      modifies this, s.counters.Keys
      ensures Represents(Step(s, ResetShared(this)))
      ensures ctr == null && ptr == 0
    {
      Decrement(s);
      Refer(null, 0, Adjust(s, ToRef(ctr), RefCounts.Decrement));
    }

    /** The destructor; the handle leaves the set of live ones. */
    method Destroy(ghost s: World)
      requires Represents(s) && this in s.shared && Known(s, ctr)
      modifies s.counters.Keys
      ensures Represents(Step(s, DestroyShared(this)))
    {
      Decrement(s);
    }

    /** Move assignment from a temporary, which is destroyed right after. */
    method AssignTemporary(tmp: SharedPtr, ghost s: World)
      requires Represents(s) && this in s.shared && tmp in s.shared && this != tmp && Known(s, ctr)
      modifies this, tmp, s.counters.Keys
      ensures Represents(AfterTemporary(s, this, tmp))
      ensures ptr == old(tmp.ptr)
    {
      MoveAssign(tmp, s);
      tmp.Destroy(Step(s, MoveAssignShared(this, tmp)));
    }

    /** Out into a temporary, over from rhs, back into rhs by move assignment, and the
        temporary's destructor. */
    method Swap(rhs: SharedPtr, ghost s: World)
      requires Represents(s) && this in s.shared && rhs in s.shared && Known(s, ctr) && Known(s, rhs.ctr)
      modifies this, rhs, s.counters.Keys
      ensures Represents(Step(s, SwapShared(this, rhs)))
      ensures ptr == old(rhs.ptr) && rhs.ptr == old(ptr)
    {
      var tmp := new SharedPtr.Move(this, s);
      ghost var t := Step(s, MoveShared(tmp, this));
      ghost var u := SetShared(t, this, ToRef(rhs.ctr));
      Refer(rhs.ctr, rhs.ptr, t);
      SwapSteps(s, tmp, this, rhs);
      rhs.AssignTemporary(tmp, u);
    }
  }

  function AfterTemporary(s: World, h: SharedPtr, tmp: SharedPtr): World
    requires h in s.shared && tmp in s.shared
  {
    Step(Step(s, MoveAssignShared(h, tmp)), DestroyShared(tmp))
  }

  /** A swap spelled out as the operations it is made of. */
  lemma SwapSteps(s: World, tmp: SharedPtr, h: SharedPtr, g: SharedPtr)
    requires h in s.shared && g in s.shared && tmp !in s.shared
    ensures var t := Step(s, MoveShared(tmp, h));
            AfterTemporary(SetShared(t, h, Ref(t, g)), g, tmp) == Step(s, SwapShared(h, g))
  {
    var t := Step(s, MoveShared(tmp, h));
    var u := SetShared(t, h, Ref(t, g));
    var v := Step(u, MoveAssignShared(g, tmp));
    assert v.shared == s.shared[h := s.shared[g]][g := s.shared[h]][tmp := None];
    assert v.shared - {tmp} == Step(s, SwapShared(h, g)).shared;
  }

  /** The constructor from a weak handle, called with any handle: one that refers to nothing has
      its null counter dereferenced. */
  method SharedFromWeak(rhs: WeakPtr, ghost s: World) returns (r: Outcome<SharedPtr>)
    requires Represents(s) && rhs in s.weaks && Known(s, rhs.ctr)
    modifies s.counters.Keys
    ensures r.Trap? <==> rhs.ctr == null
    ensures r.Trap? ==> Represents(s)
    ensures r.Done? ==> fresh(r.value) && r.value !in s.shared && Represents(Step(s, LockWeak(r.value, rhs)))
    ensures r.Done? ==> r.value.ptr == if old(rhs.ctr != null && rhs.ctr.strong > 0) then rhs.ptr else 0
  {
    if rhs.ctr == null {
      return Trap;
    }
    var h := new SharedPtr.FromWeak(rhs, s);
    return Done(h);
  }

  class WeakPtr {
    var ctr: CounterObject?
    var ptr: nat

    constructor (ghost s: World)
      requires Represents(s)
      ensures this !in s.weaks && Represents(Step(s, EmptyWeak(this)))
      ensures ptr == 0
    {
      ctr, ptr := null, 0;
    }

    constructor Copy(rhs: WeakPtr, ghost s: World)
      requires Represents(s) && rhs in s.weaks && Known(s, rhs.ctr)
      modifies s.counters.Keys
      ensures this !in s.weaks && Represents(Step(s, CopyWeak(this, rhs)))
      ensures ptr == rhs.ptr
    {
      ctr, ptr := rhs.ctr, rhs.ptr;
      new;
      Increment(Watching(s, this, ToRef(ctr)));
    }

    constructor FromShared(rhs: SharedPtr, ghost s: World)
      requires Represents(s) && rhs in s.shared && Known(s, rhs.ctr)
      modifies s.counters.Keys
      ensures this !in s.weaks && Represents(Step(s, WeakOf(this, rhs)))
      ensures ptr == rhs.ptr
    {
      ctr, ptr := rhs.ctr, rhs.ptr;
      new;
      Increment(Watching(s, this, ToRef(ctr)));
    }

    constructor Move(rhs: WeakPtr, ghost s: World)
      requires Represents(s) && rhs in s.weaks
      modifies rhs
      ensures this !in s.weaks && Represents(Step(s, MoveWeak(this, rhs)))
      ensures ptr == old(rhs.ptr)
    {
      ctr, ptr := rhs.ctr, rhs.ptr;
      new;
      rhs.Refer(null, 0, Watching(s, this, ToRef(ctr)));
    }

    /** The two assignments that make a handle refer to something else, counting nothing. */
    method Refer(c: CounterObject?, p: nat, ghost s: World)
      requires Represents(s)
      modifies this
      ensures Represents(Watching(s, this, ToRef(c)))
      ensures ctr == c && ptr == p
    {
      ctr := c;
      ptr := p;
    }

    method Increment(ghost s: World)
      requires Represents(s) && Known(s, ctr)
      modifies s.counters.Keys
      ensures Represents(Adjust(s, ToRef(ctr), IncrementWeak))
    {
      if ctr != null {
        ctr.weak := ctr.weak + 1;
      }
    }

    method Decrement(ghost s: World)
      requires Represents(s) && Known(s, ctr)
      modifies s.counters.Keys
      ensures Represents(Adjust(s, ToRef(ctr), DecrementWeak))
    {
      if ctr != null {
        ctr.weak := if ctr.weak == 0 then UINT_MAX else ctr.weak - 1;
      }
    }

    method Destroy(ghost s: World)
      requires Represents(s) && this in s.weaks && Known(s, ctr)
      modifies s.counters.Keys
      ensures Represents(Step(s, DestroyWeak(this)))
    {
      Decrement(s);
    }

    /** Copy assignment counts the new counter and forgets the old one uncounted. */
    method CopyAssign(rhs: WeakPtr, ghost s: World)
      requires Represents(s) && this in s.weaks && rhs in s.weaks && Known(s, rhs.ctr)
      modifies this, s.counters.Keys
      ensures Represents(Step(s, AssignWeak(this, rhs)))
      ensures ptr == rhs.ptr
    {
      ghost var t := Watching(s, this, ToRef(rhs.ctr));
      assert Adjust(t, ToRef(rhs.ctr), IncrementWeak) == Step(s, AssignWeak(this, rhs));
      Refer(rhs.ctr, rhs.ptr, s);
      Increment(t);
    }

    method AssignFromShared(rhs: SharedPtr, ghost s: World)
      requires Represents(s) && this in s.weaks && rhs in s.shared && Known(s, rhs.ctr)
      modifies this, s.counters.Keys
      ensures Represents(Step(s, AssignWeakShared(this, rhs)))
      ensures ptr == rhs.ptr
    {
      ghost var t := Watching(s, this, ToRef(rhs.ctr));
      assert Adjust(t, ToRef(rhs.ctr), IncrementWeak) == Step(s, AssignWeakShared(this, rhs));
      Refer(rhs.ctr, rhs.ptr, s);
      Increment(t);
    }

    method MoveAssign(rhs: WeakPtr, ghost s: World)
      requires Represents(s) && this in s.weaks && rhs in s.weaks
      modifies this, rhs
      ensures Represents(Step(s, MoveWeak(this, rhs)))
      ensures ptr == if this == rhs then 0 else old(rhs.ptr)
    {
      ghost var t := Watching(s, this, ToRef(rhs.ctr));
      assert Watching(t, rhs, None) == Step(s, MoveWeak(this, rhs));
      Refer(rhs.ctr, rhs.ptr, s);
      rhs.Refer(null, 0, t);
    }

    method MoveAssignShared(rhs: SharedPtr, ghost s: World)
      requires Represents(s) && this in s.weaks && rhs in s.shared
      modifies this, rhs
      ensures Represents(Step(s, AssignWeakMovedShared(this, rhs)))
      ensures ptr == old(rhs.ptr)
    {
      ghost var t := Watching(s, this, ToRef(rhs.ctr));
      assert SetShared(t, rhs, None) == Step(s, AssignWeakMovedShared(this, rhs));
      Refer(rhs.ctr, rhs.ptr, s);
      rhs.Refer(null, 0, t);
    }

    method Swap(rhs: WeakPtr, ghost s: World)
      requires Represents(s) && this in s.weaks && rhs in s.weaks
      modifies this, rhs
      ensures Represents(Step(s, SwapWeak(this, rhs)))
      ensures ptr == old(rhs.ptr) && rhs.ptr == old(ptr)
    {
      var tmp, tmp2 := ptr, ctr;
      ghost var t := Watching(s, this, ToRef(rhs.ctr));
      Refer(rhs.ctr, rhs.ptr, s);
      rhs.Refer(tmp2, tmp, t);
    }

    /** A weak handle has expired exactly when it refers to a counter no shared handle is left
        on. A handle that refers to none has not. */
    method Expired(ghost s: World) returns (e: bool)
      requires Represents(s) && Inv(s) && this in s.weaks
      ensures e <==> ctr != null && forall h :: h in s.shared ==> h.ctr != ctr
    {
      if ctr != null {
        assert s.weaks[this] == Some(ctr);
        StrongCountsHandles(s, ctr);
        return ctr.strong == 0;
      }
      return false;
    }

    method Lock(ghost s: World) returns (h: SharedPtr)
      requires Represents(s) && this in s.weaks && Known(s, ctr)
      modifies s.counters.Keys
      ensures fresh(h) && h !in s.shared && Represents(Step(s, LockWeak(h, this)))
      ensures h.ptr == if old(ctr != null && ctr.strong > 0) then ptr else 0
    {
      if ctr != null {
        h := new SharedPtr.FromWeak(this, s);
      } else {
        h := new SharedPtr(s);
      }
    }
  }

  function Watching(s: World, w: WeakPtr, o: Option<CounterObject>): World {
    s.(weaks := s.weaks[w := o])
  }

  lemma StrongCountsHandles(s: World, c: CounterObject)
    requires Inv(s) && c in s.counters && Represents(s)
    ensures c.strong == 0 <==> forall h :: h in s.shared ==> h.ctr != c
  {
    assert GoodCounter(s, c);
    if h :| h in s.shared && s.shared[h] == Some(c) {
      CountPositive(s.shared, h, c);
    } else {
      assert Holders(s.shared, c) == {};
    }
  }
}
