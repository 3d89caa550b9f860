/** The fixed message pools of a subsystem: header structs, and data slots in two sizes
    (src/spinner/spinner.c, spinner_alloc_message and spinner_free_message). The pool allocator of
    the operating system is a set of free elements; which one it hands out is not specified. */
module Pools {

  datatype SlotClass = SmallSlot | PlanSlot

  datatype Slot = Slot(cls: SlotClass, index: nat)

  /** The contents of a data slot, as memory words. */
  type Payload = seq<int>

  /** A message struct. The payload is the memory its data pointer leads to. */
  datatype Header = Header(msgType: nat, transactionId: nat, slot: Slot, payload: Payload)

  /** The free elements of the three pools, and the memory of the header structs. */
  datatype PoolState = PoolState(headers: set<nat>, small: set<Slot>, plan: set<Slot>,
                                 heap: map<nat, Header>)
  {
    function Slots(c: SlotClass): set<Slot> {
      match c case SmallSlot => small case PlanSlot => plan
    }

    // The four atomic pool operations.

    function TakeHeader(h: nat): PoolState {
      this.(headers := headers - {h})
    }

    function GiveHeader(h: nat): PoolState {
      this.(headers := headers + {h})
    }

    /** Taking a slot, and pointing the header that was taken before at it. */
    function TakeSlot(c: SlotClass, s: Slot, h: nat, t: nat): PoolState {
      var p := match c
               case SmallSlot => this.(small := small - {s})
               case PlanSlot => this.(plan := plan - {s});
      p.(heap := heap[h := Header(t, 0, s, [])])
    }

    /** Giving a slot back to the pool that the caller names. */
    function GiveSlot(c: SlotClass, s: Slot): PoolState {
      match c
      case SmallSlot => this.(small := small + {s})
      case PlanSlot => this.(plan := plan + {s})
    }

    predicate CanAlloc(c: SlotClass) {
      headers != {} && Slots(c) != {}
    }

    function AllocAt(h: nat, c: SlotClass, s: Slot, t: nat): PoolState {
      TakeHeader(h).TakeSlot(c, s, h, t)
    }

    function FreeAt(h: nat, c: SlotClass): PoolState
      requires h in heap
    {
      GiveSlot(c, heap[h].slot).GiveHeader(h)
    }

    /** The same free elements, and the same contents in every header that is in use. */
    ghost predicate SameResources(other: PoolState) {
      && headers == other.headers && small == other.small && plan == other.plan
      && heap.Keys >= other.heap.Keys
      && forall h :: h in other.heap && h !in headers ==> heap[h] == other.heap[h]
    }
  }

  /** Freeing what was just allocated restores the pools. */
  lemma AllocThenFree(p: PoolState, q: PoolState, h: nat, c: SlotClass, s: Slot, t: nat)
    requires h in p.headers && s in p.Slots(c)
    requires exists hdr: Header :: hdr.slot == s && q == p.AllocAt(h, c, s, t).(heap := p.heap[h := hdr])
    ensures q.FreeAt(h, c).SameResources(p)
  {
  }

  /** The elements of a pool of size n before anything was taken. */
  function Below(n: nat): (s: set<nat>)
    ensures |s| == n && forall k :: k in s <==> 0 <= k < n
  {
    if n == 0 then {} else Below(n - 1) + {n - 1}
  }
}
