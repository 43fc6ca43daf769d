/** The virtual-region allocator itself: linked nodes updated in place. A region descriptor
    is passed by value, so no operation can change which node is the head.
 */
module VirtualMemory {
  import opened Regions
  import opened Wrappers

  class Node {
    var allocSt: nat
    var size: nat
    var free: bool
    var next: Node?
  }

  /** vmem_ll_reg_desc */
  datatype Descriptor = Descriptor(regStart: nat, regSize: nat, list: Node?)

  function At(c: seq<Node>, i: nat): Node? {
    if i < |c| then c[i] else null
  }

  function Contents(node: Node): Region
    reads node
  {
    Region(node.allocSt, node.size, node.free)
  }

  /** The list that starts at `head` consists of the distinct nodes `c`, with contents `rs`. */
  ghost predicate List(head: Node?, c: seq<Node>, rs: Regions)
    reads c
  {
    && |c| == |rs|
    && head == At(c, 0)
    && (forall i {:trigger c[i].next} :: 0 <= i < |c| ==> c[i].next == At(c, i + 1))
    && (forall i {:trigger rs[i]} :: 0 <= i < |c| ==> Contents(c[i]) == rs[i])
    && (forall i, j :: 0 <= i < j < |c| ==> c[i] != c[j])
  }

  function Inserted(c: seq<Node>, i: nat, x: Node): (d: seq<Node>)
    requires i < |c|
    ensures |d| == |c| + 1
    ensures forall k {:trigger d[k]} :: 0 <= k < |d| ==> d[k] == if k <= i then c[k] else if k == i + 1 then x else c[k - 1]
  {
    c[..i + 1] + [x] + c[i + 1..]
  }

  /** bisect_node, on node `i` of a list. */
  method BisectNode(node: Node, newSize: nat, ghost head: Node?, ghost c: seq<Node>, ghost rs: Regions, ghost i: nat)
    returns (newNode: Node, ghost c': seq<Node>)
    requires List(head, c, rs) && i < |c| && node == c[i] && newSize <= node.size
    modifies node
    ensures fresh(newNode) && c' == Inserted(c, i, newNode)
    ensures List(head, c', SplitAt(rs, i, FirstPart(rs[i], newSize), SecondPart(rs[i], newSize)))
  {
    newNode := new Node;
    newNode.next := node.next;
    node.next := newNode;
    newNode.size := node.size - newSize;
    node.size := newSize;
    newNode.allocSt := (node.allocSt + 0x1000 * newSize) % ADDRESSES;
    newNode.free := true;
    c' := Inserted(c, i, newNode);
  }

  method SetFree(node: Node, free: bool, ghost head: Node?, ghost c: seq<Node>, ghost rs: Regions, ghost i: nat)
    requires List(head, c, rs) && i < |c| && node == c[i]
    modifies node`free
    ensures List(head, c, rs[i := rs[i].(free := free)])
  {
    node.free := free;
  }

  lemma SetFirst(rs: Regions, i: nat, p: Region, q: Region)
    requires i < |rs|
    ensures SplitAt(rs, i, p, q)[i := p.(free := false)] == SplitAt(rs, i, p.(free := false), q)
  {
  }

  lemma SetSecond(rs: Regions, i: nat, p: Region, q: Region)
    requires i < |rs|
    ensures SplitAt(rs, i, p, q)[i + 1 := q.(free := false)] == SplitAt(rs, i, p, q.(free := false))
  {
  }

  method AllocateRegion(reg: Descriptor, n: nat, ghost c: seq<Node>, ghost rs: Regions)
    returns (r: Outcome<Option<nat>>, ghost c': seq<Node>)
    requires List(reg.list, c, rs)
    modifies c
    ensures r == Allocate(rs, n).0 && List(reg.list, c', Allocate(rs, n).1)
  {
    var cur := reg.list;
    ghost var i := 0;
    while cur != null
      invariant i <= |c| && cur == At(c, i) && List(reg.list, c, rs)
      invariant forall k :: 0 <= k < i ==> rs[k].free && rs[k].size < n
      decreases |c| - i
    {
      AllocateAt(rs, n, i);
      if !cur.free {
        return Hangs, c;
      }
      if cur.size == n {
        SetFree(cur, false, reg.list, c, rs, i);
        return Done(Some(cur.allocSt)), c;
      } else if cur.size > n {
        var newNode;
        newNode, c' := BisectNode(cur, n, reg.list, c, rs, i);
        SetFree(cur, false, reg.list, c', SplitAt(rs, i, FirstPart(rs[i], n), SecondPart(rs[i], n)), i);
        SetFirst(rs, i, FirstPart(rs[i], n), SecondPart(rs[i], n));
        return Done(Some(cur.allocSt)), c';
      }
      cur := cur.next;
      i := i + 1;
    }
    AllocateAt(rs, n, i);
    return Done(None), c;
  }

  method ReserveRegion(reg: Descriptor, at: nat, n: nat, ghost c: seq<Node>, ghost rs: Regions)
    returns (r: Outcome<bool>, ghost c': seq<Node>)
    requires List(reg.list, c, rs)
    modifies c
    ensures r == Reserve(rs, at, n).0 && List(reg.list, c', Reserve(rs, at, n).1)
  {
    var cur := reg.list;
    ghost var i := 0;
    while cur != null
      invariant i <= |c| && cur == At(c, i) && List(reg.list, c, rs)
      invariant forall k :: 0 <= k < i ==> rs[k].free && !Matches(rs[k], at, n)
      decreases |c| - i
    {
      ReserveAt(rs, at, n, i);
      if !cur.free {
        return Hangs, c;
      }
      if cur.allocSt <= at
         && (cur.allocSt + 0x1000 * cur.size) % ADDRESSES >= (at + 0x1000 * n % 0x1_0000_0000) % ADDRESSES
      {
        // The test has already established that the node does not start above `at`, so the
        // source's first bisection is never reached.
        assert cur.allocSt <= at;
        if cur.size > n {
          var newNode;
          newNode, c' := BisectNode(cur, n, reg.list, c, rs, i);
          SetFree(newNode, false, reg.list, c', SplitAt(rs, i, FirstPart(rs[i], n), SecondPart(rs[i], n)), i + 1);
          SetSecond(rs, i, FirstPart(rs[i], n), SecondPart(rs[i], n));
        } else {
          SetFree(cur, false, reg.list, c, rs, i);
          c' := c;
        }
        return Done(true), c';
      }
      cur := cur.next;
      i := i + 1;
    }
    ReserveAt(rs, at, n, i);
    return Done(false), c;
  }

  /** The statements for a free successor: it is unlinked before its size is read, so the size
      and the node given to kfree are those of the node behind it. Null stands for the null
      link dereferenced when there is none. */
  method AbsorbNext(cur: Node, ghost head: Node?, ghost c: seq<Node>, ghost rs: Regions, ghost i: nat)
    returns (freed: Node?, ghost c': seq<Node>)
    requires List(head, c, rs) && i + 1 < |c| && cur == c[i]
    modifies cur`next, cur`size
    ensures freed == At(c, i + 2)
    ensures i < |c'| && c'[i] == cur
    ensures if i + 2 == |c| then List(head, c', rs[..i + 1])
            else freed in c' && List(head, c', rs[..i] + [rs[i].(size := rs[i].size + rs[i + 2].size)] + rs[i + 2..])
  {
    cur.next := cur.next.next;
    freed := cur.next;
    c' := c[..i + 1] + c[i + 2..];
    if freed != null {
      cur.size := cur.size + cur.next.size;
      assert c'[i + 1] == freed;
    }
  }

  /** `freed` is the node given to kfree, if any; a link to it left in the list dangles. */
  method FreeRegion(reg: Descriptor, at: nat, ghost c: seq<Node>, ghost rs: Regions)
    returns (r: Outcome<()>, freed: Node?, ghost c': seq<Node>)
    requires List(reg.list, c, rs)
    modifies c
    ensures r == Free(rs, at).0 && List(reg.list, c', Free(rs, at).1)
    ensures freed != null <==> r == Dangles
    ensures freed != null ==> freed in c'
  {
    var cur, prev: Node? := reg.list, null;
    ghost var i := 0;
    while cur != null
      invariant i <= |c| && cur == At(c, i) && List(reg.list, c, rs)
      invariant forall k :: 0 <= k < i ==> !rs[k].free && rs[k].start != at
      invariant prev != null ==> !prev.free
      decreases |c| - i
    {
      FreeFrom(rs, at, i);
      if cur.free {
        return Hangs, null, c;
      }
      if cur.allocSt == at {
        if cur.next == null {
          return Crashes, null, c;
        }
        // Every node passed on the way is allocated, so in neither case below is the merge
        // with a free predecessor reached.
        if cur.next.free {
          freed, c' := AbsorbNext(cur, reg.list, c, rs, i);
          if freed == null {
            return Crashes, null, c';
          }
          ghost var rs' := rs[..i] + [rs[i].(size := rs[i].size + rs[i + 2].size)] + rs[i + 2..];
          SetFree(cur, true, reg.list, c', rs', i);
          assert rs'[i := rs'[i].(free := true)]
              == rs[..i] + [rs[i].(size := rs[i].size + rs[i + 2].size, free := true)] + rs[i + 2..];
          return Dangles, freed, c';
        }
        SetFree(cur, true, reg.list, c, rs, i);
        return Done(()), null, c;
      }
      prev := cur;
      cur := cur.next;
      i := i + 1;
    }
    FreeFrom(rs, at, i);
    return Done(()), null, c;
  }

  method IsAllocatedRegion(reg: Descriptor, at: nat, n: nat, ghost c: seq<Node>, ghost rs: Regions)
    returns (r: Outcome<bool>)
    requires List(reg.list, c, rs)
    ensures r == IsAllocated(rs, at, n)
  {
    var cur := reg.list;
    if cur != null {
      assert Contents(cur) == rs[0];
      // The loop leaves `cur` where it is, so one round decides.
      if cur.free && cur.allocSt <= at
         && (cur.allocSt + 0x1000 * cur.size) % ADDRESSES >= (at + 0x1000 * n % 0x1_0000_0000) % ADDRESSES
      {
        return Done(!cur.free);
      }
      return Hangs;
    }
    return Done(true);
  }

  /** initialize: one free node for the higher half, and a reservation whose answer nobody looks at. */
  method Initialize() returns (reg: Descriptor, ghost c: seq<Node>)
    ensures List(reg.list, c, InitialRegion())
    ensures reg.regStart == HH_START && reg.regSize == HH_SIZE
  {
    var node := new Node;
    node.allocSt := HH_START;
    node.size := HH_SIZE;
    node.free := true;
    node.next := null;
    reg := Descriptor(HH_START, HH_SIZE, node);
    c := [node];
    InitialReserveFails(1);
    var r;
    r, c := ReserveRegion(reg, HH_START, 512, c, InitialRegion());
  }
}
