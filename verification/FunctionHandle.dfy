/** The handle under `Function`: two words, of which the second carries two tag bits, and
    reference-counted heap blocks for callables that do not fit (callable/function.hpp:19-104,
    281-312; callable/function.cpp:20-105). */
module FunctionHandle {

  /** A storage word, by value; a trampoline word, by bits. */
  type Word = x: int | 0 <= x < 0x1_0000_0000_0000_0000
  type Code = bv64

  const HAS_HEAP_OBJECT_MASK: Code := 1
  const USE_ADDRESS_OF_STORAGE: Code := 2
  const TRAMPOLINE_STOLEN_BITS_MASK: Code := 3

  /** std::atomic_uint_fast32_t has at least 32 bits. */
  const COUNT_RANGE: nat := 0x1_0000_0000

  // Tag bits.

  function Tag(trampoline: Code, hasHeapObject: bool, hasEmbeddedStorage: bool): Code {
    trampoline
    | (if hasHeapObject then HAS_HEAP_OBJECT_MASK else 0)
    | (if hasEmbeddedStorage then USE_ADDRESS_OF_STORAGE else 0)
  }

  predicate HasHeapObject(tagged: Code) {
    tagged & HAS_HEAP_OBJECT_MASK != 0
  }

  predicate HasEmbeddedStorage(tagged: Code) {
    tagged & USE_ADDRESS_OF_STORAGE != 0
  }

  function Trampoline(tagged: Code): Code {
    tagged & !TRAMPOLINE_STOLEN_BITS_MASK
  }

  /** A trampoline survives tagging exactly if its address is a multiple of four, and then the
      tags do too. */
  lemma TagRoundTrip(trampoline: Code, heap: bool, embedded: bool)
    ensures Trampoline(Tag(trampoline, heap, embedded)) == trampoline <==> trampoline & TRAMPOLINE_STOLEN_BITS_MASK == 0
    ensures trampoline & TRAMPOLINE_STOLEN_BITS_MASK == 0 ==>
              HasHeapObject(Tag(trampoline, heap, embedded)) == heap
              && HasEmbeddedStorage(Tag(trampoline, heap, embedded)) == embedded
  {
  }

  /** storage is the union: an address or up to eight bytes of a small callable. */
  datatype Handle = Handle(storage: Word, trampoline: Code) {
    predicate Owns() {
      HasHeapObject(trampoline)
    }
  }

  const EMPTY := Handle(0, 0)

  /** The header in front of a heap object. serial tells apart blocks at the same address. */
  datatype Header = Header(serial: nat, refCount: nat, hasDeleter: bool)

  /** The heap blocks that exist, and the serials of those freed and of those whose deleter ran. */
  datatype Memory = Memory(blocks: map<Word, Header>, nextSerial: nat, freed: seq<nat>, deleted: seq<nat>)

  // What the operations do to handle words and blocks.

  function Retain(m: Memory, block: Word): Memory
    requires block in m.blocks
  {
    var header := m.blocks[block];
    m.(blocks := m.blocks[block := header.(refCount := (header.refCount + 1) % COUNT_RANGE)])
  }

  function Release(m: Memory, block: Word): Memory
    requires block in m.blocks
  {
    var header := m.blocks[block];
    var left := (header.refCount - 1) % COUNT_RANGE;
    if left > 0 then
      m.(blocks := m.blocks[block := header.(refCount := left)])
    else
      Memory(m.blocks - {block}, m.nextSerial, m.freed + [header.serial],
             if header.hasDeleter then m.deleted + [header.serial] else m.deleted)
  }

  ghost predicate Live(h: Handle, m: Memory) {
    h.Owns() ==> h.storage in m.blocks && 1 <= m.blocks[h.storage].refCount
  }

  /** As Live, with room to count some more owners. */
  ghost predicate Countable(h: Handle, m: Memory, more: nat) {
    Live(h, m) && (h.Owns() ==> m.blocks[h.storage].refCount + more < COUNT_RANGE)
  }

  function RetainOf(h: Handle, m: Memory): Memory
    requires h.Owns() ==> h.storage in m.blocks
  {
    if h.Owns() then Retain(m, h.storage) else m
  }

  function ReleaseOf(h: Handle, m: Memory): Memory
    requires h.Owns() ==> h.storage in m.blocks
  {
    if h.Owns() then Release(m, h.storage) else m
  }

  function CopyAssigned(h: Handle, other: Handle, m: Memory): Memory
    requires (h.Owns() ==> h.storage in m.blocks) && (other.Owns() ==> other.storage in m.blocks)
  {
    ReleaseOf(h, RetainOf(other, m))
  }

  lemma RetainThenRelease(h: Handle, m: Memory)
    requires Countable(h, m, 1)
    ensures Live(h, RetainOf(h, m)) && ReleaseOf(h, RetainOf(h, m)) == m
  {
    hide HasHeapObject;
    if h.Owns() {
      assert RetainOf(h, m).blocks[h.storage := m.blocks[h.storage]] == m.blocks;
    }
  }

  /** Retaining another handle's block in between does not matter. */
  lemma RetainPasses(h: Handle, other: Handle, m: Memory)
    requires Countable(h, m, 2) && Countable(other, m, 2)
    ensures Countable(other, RetainOf(h, m), 1) && Live(h, RetainOf(other, RetainOf(h, m)))
    ensures ReleaseOf(h, RetainOf(other, RetainOf(h, m))) == RetainOf(other, m)
  {
    hide HasHeapObject;
    if h.Owns() {
      assert ReleaseOf(h, RetainOf(other, RetainOf(h, m))).blocks == RetainOf(other, m).blocks;
    }
  }

  lemma SwapRestores(a: Handle, b: Handle, m: Memory)
    requires Countable(a, m, 2) && Countable(b, m, 2)
    ensures Live(b, m) && Live(a, RetainOf(b, m)) && Live(b, RetainOf(b, m))
    ensures CopyAssigned(b, a, RetainOf(b, m)) == RetainOf(a, m)
    ensures Live(a, RetainOf(a, m)) && Live(b, RetainOf(a, m))
    ensures CopyAssigned(a, b, RetainOf(a, m)) == RetainOf(b, m)
    ensures ReleaseOf(b, RetainOf(b, m)) == m
  {
    hide HasHeapObject, ReleaseOf;
    RetainPasses(b, a, m);
    RetainPasses(a, b, m);
    RetainThenRelease(b, m);
  }

  class Heap {
    var memory: Memory

    constructor ()
      ensures memory == Memory(map[], 0, [], [])
    {
      memory := Memory(map[], 0, [], []);
    }

    /** mallocHeapObject: the allocator may reuse any address that is not in use. */
    method Malloc(address: Word)
      requires address !in memory.blocks
      modifies this
      ensures memory == old(memory).(blocks := old(memory).blocks[address := Header(old(memory).nextSerial, 1, false)],
                                     nextSerial := old(memory).nextSerial + 1)
    {
      memory := memory.(blocks := memory.blocks[address := Header(memory.nextSerial, 1, false)],
                        nextSerial := memory.nextSerial + 1);
    }

    method FreeHeapObject(block: Word)
      requires block in memory.blocks
      modifies this
      ensures memory == Release(old(memory), block)
    {
      var header := memory.blocks[block];
      var left := (header.refCount - 1) % COUNT_RANGE;
      memory := memory.(blocks := memory.blocks[block := header.(refCount := left)]);
      if left > 0 {
        return;
      }
      if header.hasDeleter {
        memory := memory.(deleted := memory.deleted + [header.serial]);
      }
      memory := memory.(blocks := memory.blocks - {block}, freed := memory.freed + [header.serial]);
      assert memory.blocks == old(memory).blocks - {block};
    }
  }

  class FunctionBase {
    const heap: Heap
    var storage: Word
    var trampoline: Code

    ghost function Value(): Handle
      reads this
    {
      Handle(storage, trampoline)
    }

    constructor (heap: Heap)
      ensures this.heap == heap && Value() == EMPTY
    {
      this.heap := heap;
      storage, trampoline := 0, 0;
    }

    /** For free functions, bound member functions and callables that fit into the storage. */
    constructor Inline(heap: Heap, word: Word, trampoline: Code, hasEmbeddedStorage: bool)
      ensures this.heap == heap && Value() == Handle(word, Tag(trampoline, false, hasEmbeddedStorage))
    {
      this.heap := heap;
      storage := word;
      this.trampoline := Tag(trampoline, false, hasEmbeddedStorage);
    }

    constructor OnHeap(heap: Heap, address: Word, trampoline: Code)
      requires address !in heap.memory.blocks
      modifies heap
      ensures this.heap == heap
      ensures (Value(), heap.memory) == Created(old(heap.memory), address, trampoline)
    {
      this.heap := heap;
      storage := address;
      this.trampoline := Tag(trampoline, true, false);
      new;
      heap.Malloc(address);
      heap.memory := heap.memory.(blocks :=
        heap.memory.blocks[address := heap.memory.blocks[address].(hasDeleter := true)]);
      assert heap.memory.blocks == Created(old(heap.memory), address, trampoline).1.blocks;
    }

    constructor Copy(other: FunctionBase)
      requires Live(other.Value(), other.heap.memory)
      modifies other.heap
      ensures heap == other.heap && Value() == old(other.Value())
      ensures heap.memory == RetainOf(old(other.Value()), old(other.heap.memory))
    {
      heap := other.heap;
      storage, trampoline := 0, 0;
      new;
      CopyObject(other);
    }

    constructor Move(other: FunctionBase)
      modifies other
      ensures heap == other.heap && Value() == old(other.Value())
      ensures other.Value() == old(other.Value()).(trampoline := 0)
    {
      heap := other.heap;
      storage := other.storage;
      trampoline := other.trampoline;
      new;
      other.trampoline := 0;
    }

    method CopyObject(other: FunctionBase)
      requires heap == other.heap && Live(other.Value(), heap.memory)
      modifies this, heap
      ensures Value() == old(other.Value())
      ensures heap.memory == RetainOf(old(other.Value()), old(heap.memory))
    {
      if HasHeapObject(other.trampoline) {
        heap.memory := Retain(heap.memory, other.storage);
        storage := other.storage;
      } else {
        storage := other.storage;
      }
      trampoline := other.trampoline;
    }

    method AssignCopy(other: FunctionBase)
      requires heap == other.heap && Live(Value(), heap.memory) && Live(other.Value(), heap.memory)
      modifies this, heap
      ensures Value() == old(other.Value())
      ensures heap.memory == CopyAssigned(old(Value()), old(other.Value()), old(heap.memory))
    {
      // The old object lives on until the copy is made, for self-assignment.
      var hadObject, oldObject := HasHeapObject(trampoline), storage;
      CopyObject(other);
      if hadObject {
        heap.FreeHeapObject(oldObject);
      }
    }

    method AssignMove(other: FunctionBase)
      requires heap == other.heap && Live(Value(), heap.memory)
      modifies this, other, heap
      ensures heap.memory == ReleaseOf(old(Value()), old(heap.memory))
      ensures other.Value() == old(other.Value()).(trampoline := 0)
      ensures other != this ==> Value() == old(other.Value())
    {
      var hadObject, oldObject := HasHeapObject(trampoline), storage;
      storage := other.storage;
      trampoline := other.trampoline;
      if hadObject {
        heap.FreeHeapObject(oldObject);
      }
      other.trampoline := 0;
    }

    /** The destructor. */
    method Destroy()
      requires Live(Value(), heap.memory)
      modifies heap
      ensures heap.memory == ReleaseOf(Value(), old(heap.memory))
    {
      if HasHeapObject(trampoline) {
        heap.FreeHeapObject(storage);
      }
    }

    /** Three copies and the end of the temporary leave every count as it was. */
    method Swap(other: FunctionBase)
      requires heap == other.heap && Countable(Value(), heap.memory, 2) && Countable(other.Value(), heap.memory, 2)
      modifies this, other, heap
      ensures Value() == old(other.Value()) && other.Value() == old(Value())
      ensures heap.memory == old(heap.memory)
    {
      hide HasHeapObject, RetainOf, ReleaseOf;
      SwapRestores(Value(), other.Value(), heap.memory);
      var tmp := new FunctionBase.Copy(other);
      other.AssignCopy(this);
      this.AssignCopy(tmp);
      tmp.Destroy();
    }
  }

  function Created(m: Memory, address: Word, trampoline: Code): (Handle, Memory)
    requires address !in m.blocks
  {
    (Handle(address, Tag(trampoline, true, false)),
     m.(blocks := m.blocks[address := Header(m.nextSerial, 1, true)], nextSerial := m.nextSerial + 1))
  }

  // Any number of handles, in any order of operations.

  datatype World = World(handles: map<nat, Handle>, memory: Memory)

  datatype Operation =
    | MakeEmpty(id: nat)
    | MakeInline(id: nat, word: Word, trampoline: Code, embedded: bool)
    | MakeOnHeap(id: nat, address: Word, trampoline: Code)
    | CopyConstruct(id: nat, from: nat)
    | MoveConstruct(id: nat, from: nat)
    | AssignCopy(id: nat, from: nat)
    | AssignMove(id: nat, from: nat)
    | Swap(id: nat, from: nat)
    | Destroy(id: nat)

  /** New handles get a new identity, trampolines and heap blocks are not at address zero,
      trampolines are aligned, and the count's range is not exhausted by the number of handles. */
  ghost predicate CanDo(w: World, op: Operation) {
    && (op.MakeEmpty? || op.MakeInline? || op.MakeOnHeap? || op.CopyConstruct? || op.MoveConstruct? ==>
          op.id !in w.handles && |w.handles| + 4 < COUNT_RANGE)
    && (op.AssignCopy? || op.AssignMove? || op.Swap? || op.Destroy? ==> op.id in w.handles)
    && (op.CopyConstruct? || op.MoveConstruct? || op.AssignCopy? || op.AssignMove? || op.Swap? ==> op.from in w.handles)
    && (op.MakeInline? || op.MakeOnHeap? ==>
          op.trampoline != 0 && op.trampoline & TRAMPOLINE_STOLEN_BITS_MASK == 0)
    && (op.MakeOnHeap? ==> op.address != 0 && op.address !in w.memory.blocks)
  }

  ghost predicate AllLive(w: World) {
    forall id :: id in w.handles ==> Live(w.handles[id], w.memory)
  }

  function MovedFrom(h: Handle): Handle {
    h.(trampoline := 0)
  }

  /** The operation on the world, by the specifications of the methods above. */
  ghost function Do(w: World, op: Operation): World
    requires CanDo(w, op) && AllLive(w)
  {
    if op.MakeEmpty? then
      Put(w, op.id, EMPTY, w.memory)
    else if op.MakeInline? then
      Put(w, op.id, Handle(op.word, Tag(op.trampoline, false, op.embedded)), w.memory)
    else if op.MakeOnHeap? then
      var created := Created(w.memory, op.address, op.trampoline);
      Put(w, op.id, created.0, created.1)
    else if op.CopyConstruct? then
      Put(w, op.id, w.handles[op.from], RetainOf(w.handles[op.from], w.memory))
    else if op.MoveConstruct? then
      MoveInto(w, op.id, op.from, w.memory)
    else if op.AssignCopy? then
      Put(w, op.id, w.handles[op.from], CopyAssigned(w.handles[op.id], w.handles[op.from], w.memory))
    else if op.AssignMove? then
      MoveInto(w, op.id, op.from, ReleaseOf(w.handles[op.id], w.memory))
    else if op.Swap? then
      World(w.handles[op.id := w.handles[op.from]][op.from := w.handles[op.id]], w.memory)
    else
      World(w.handles - {op.id}, ReleaseOf(w.handles[op.id], w.memory))
  }

  ghost function Put(w: World, id: nat, h: Handle, m: Memory): World {
    World(w.handles[id := h], m)
  }

  ghost function MoveInto(w: World, id: nat, from: nat, m: Memory): World
    requires from in w.handles
  {
    World(w.handles[id := w.handles[from]][from := MovedFrom(w.handles[from])], m)
  }

  ghost function Owners(handles: map<nat, Handle>, block: Word): set<nat> {
    set id | id in handles && handles[id].Owns() && handles[id].storage == block
  }

  /** Every block's count is the number of handles that own it, and no block lacks an owner. */
  ghost predicate Counted(w: World) {
    forall a :: a in w.memory.blocks ==>
      w.memory.blocks[a].refCount == |Owners(w.handles, a)| && Owners(w.handles, a) != {}
  }

  /** Each block ever allocated either exists, once, or was freed once, and its deleter ran then. */
  ghost predicate FreedOnce(m: Memory) {
    && (forall a :: a in m.blocks ==> m.blocks[a].hasDeleter && m.blocks[a].serial < m.nextSerial)
    && (forall a, b :: a in m.blocks && b in m.blocks && m.blocks[a].serial == m.blocks[b].serial ==> a == b)
    && m.deleted == m.freed
    && (forall serial :: serial in m.freed ==> serial < m.nextSerial)
    && (forall serial: nat :: serial < m.nextSerial ==>
          multiset(m.freed)[serial] == if Exists(m, serial) then 0 else 1)
  }

  ghost predicate Exists(m: Memory, serial: nat) {
    exists a :: a in m.blocks && m.blocks[a].serial == serial
  }

  ghost predicate Inv(w: World, spare: nat) {
    AllLive(w) && Counted(w) && FreedOnce(w.memory) && |w.handles| + spare < COUNT_RANGE
  }

  lemma OwnersAfterUpdate(handles: map<nat, Handle>, id: nat, h: Handle, a: Word)
    ensures Owners(handles[id := h], a)
         == if h.Owns() && h.storage == a then Owners(handles, a) + {id} else Owners(handles, a) - {id}
  {
  }

  lemma OwnersAreHandles(handles: map<nat, Handle>, a: Word)
    ensures |Owners(handles, a)| <= |handles|
  {
    assert Owners(handles, a) <= handles.Keys;
    Subset(Owners(handles, a), handles.Keys);
  }

  lemma {:induction false} Subset(small: set<nat>, large: set<nat>)
    requires small <= large
    ensures |small| <= |large|
    decreases small
  {
    if small != {} {
      var x :| x in small;
      Subset(small - {x}, large - {x});
    }
  }

  lemma RetainKeepsFreedOnce(m: Memory, block: Word)
    requires FreedOnce(m) && block in m.blocks
    ensures FreedOnce(Retain(m, block))
  {
    var m' := Retain(m, block);
    forall serial: nat ensures Exists(m', serial) == Exists(m, serial) {
      if Exists(m, serial) {
        var a :| a in m.blocks && m.blocks[a].serial == serial;
        assert a in m'.blocks && m'.blocks[a].serial == serial;
      }
    }
  }

  lemma ReleaseKeepsFreedOnce(m: Memory, block: Word)
    requires FreedOnce(m) && block in m.blocks
    ensures FreedOnce(Release(m, block))
  {
    var m', gone := Release(m, block), m.blocks[block].serial;
    if block in m'.blocks {
      forall serial: nat ensures Exists(m', serial) == Exists(m, serial) {
        if Exists(m, serial) {
          var a :| a in m.blocks && m.blocks[a].serial == serial;
          assert a in m'.blocks && m'.blocks[a].serial == serial;
        }
      }
    } else {
      assert Exists(m, gone);
      forall serial: nat ensures Exists(m', serial) == (Exists(m, serial) && serial != gone) {
        if Exists(m, serial) && serial != gone {
          var a :| a in m.blocks && m.blocks[a].serial == serial;
          assert a in m'.blocks && m'.blocks[a].serial == serial;
        }
      }
    }
  }

  lemma CreateKeepsFreedOnce(m: Memory, address: Word, trampoline: Code)
    requires FreedOnce(m) && address !in m.blocks
    ensures FreedOnce(Created(m, address, trampoline).1)
  {
    var m' := Created(m, address, trampoline).1;
    assert m'.blocks[address].serial == m.nextSerial;
    forall serial: nat ensures Exists(m', serial) == (Exists(m, serial) || serial == m.nextSerial) {
      if Exists(m, serial) {
        var a :| a in m.blocks && m.blocks[a].serial == serial;
        assert a in m'.blocks && m'.blocks[a].serial == serial;
      }
    }
    assert m.nextSerial !in m.freed;
  }

  lemma OwnerCountAfterUpdate(handles: map<nat, Handle>, id: nat, h: Handle, a: Word)
    ensures id !in Owners(handles, a) && h.Owns() && h.storage == a ==>
              |Owners(handles[id := h], a)| == |Owners(handles, a)| + 1
    ensures id !in Owners(handles, a) && !(h.Owns() && h.storage == a) ==>
              Owners(handles[id := h], a) == Owners(handles, a)
    ensures id in Owners(handles, a) && !(h.Owns() && h.storage == a) ==>
              |Owners(handles[id := h], a)| == |Owners(handles, a)| - 1
  {
    hide HasHeapObject;
    OwnersAfterUpdate(handles, id, h, a);
  }

  // Every operation is a sequence of four primitive changes, each of which keeps the invariant.

  /** A new handle for a block, counted. */
  lemma AttachKeepsInv(w: World, id: nat, h: Handle, spare: nat)
    requires Inv(w, spare + 1) && id !in w.handles && Live(h, w.memory)
    ensures Inv(World(w.handles[id := h], RetainOf(h, w.memory)), spare)
  {
    hide HasHeapObject, Owners, FreedOnce;
    var w' := World(w.handles[id := h], RetainOf(h, w.memory));
    assert w'.handles.Keys == w.handles.Keys + {id};
    NotAnOwner(w.handles, id);
    if h.Owns() {
      RetainKeepsFreedOnce(w.memory, h.storage);
      OwnersAreHandles(w.handles, h.storage);
    }
    forall a | a in w'.memory.blocks
      ensures w'.memory.blocks[a].refCount == |Owners(w'.handles, a)| && Owners(w'.handles, a) != {}
    {
      OwnerCountAfterUpdate(w.handles, id, h, a);
      assert a in w.memory.blocks;
    }
  }

  lemma NotAnOwner(handles: map<nat, Handle>, id: nat)
    requires id !in handles || !handles[id].Owns()
    ensures forall a :: id !in Owners(handles, a)
  {
  }

  /** A handle lets go of its block. */
  lemma DetachKeepsInv(w: World, id: nat, spare: nat)
    requires Inv(w, spare) && id in w.handles
    ensures Inv(World(w.handles[id := MovedFrom(w.handles[id])], ReleaseOf(w.handles[id], w.memory)), spare)
  {
    hide HasHeapObject, Owners, FreedOnce;
    var h := w.handles[id];
    NoTrampolineOwnsNothing(h);
    var w' := World(w.handles[id := MovedFrom(h)], ReleaseOf(h, w.memory));
    assert w'.handles.Keys == w.handles.Keys;
    OwnersOf(w.handles, id);
    if h.Owns() {
      ReleaseKeepsFreedOnce(w.memory, h.storage);
      OwnersAreHandles(w.handles, h.storage);
      OwnerCountAfterUpdate(w.handles, id, MovedFrom(h), h.storage);
    }
    forall a | a in w'.memory.blocks
      ensures w'.memory.blocks[a].refCount == |Owners(w'.handles, a)| && Owners(w'.handles, a) != {}
    {
      OwnerCountAfterUpdate(w.handles, id, MovedFrom(h), a);
      assert a in w.memory.blocks;
    }
    forall other | other in w'.handles ensures Live(w'.handles[other], w'.memory) {
      OwnersOf(w'.handles, other);
    }
  }

  lemma NoTrampolineOwnsNothing(h: Handle)
    ensures !MovedFrom(h).Owns() && !EMPTY.Owns()
  {
  }

  lemma OwnersOf(handles: map<nat, Handle>, id: nat)
    requires id in handles
    ensures forall a :: id in Owners(handles, a) <==> handles[id].Owns() && handles[id].storage == a
  {
  }

  /** A handle without a block takes over another's. */
  lemma MoveKeepsInv(w: World, to: nat, from: nat, spare: nat)
    requires Inv(w, spare) && to in w.handles && from in w.handles && to != from && !w.handles[to].Owns()
    ensures Inv(MoveInto(w, to, from, w.memory), spare)
  {
    hide HasHeapObject, Owners, FreedOnce;
    var h := w.handles[from];
    var between := w.handles[to := h];
    var w' := MoveInto(w, to, from, w.memory);
    NoTrampolineOwnsNothing(h);
    assert w'.handles.Keys == w.handles.Keys;
    OwnersOf(w.handles, to);
    OwnersOf(between, from);
    forall a | a in w.memory.blocks
      ensures |Owners(w'.handles, a)| == |Owners(w.handles, a)| && Owners(w'.handles, a) != {}
    {
      OwnerCountAfterUpdate(w.handles, to, h, a);
      OwnerCountAfterUpdate(between, from, MovedFrom(h), a);
    }
  }

  lemma DropKeepsInv(w: World, id: nat, spare: nat)
    requires Inv(w, spare) && id in w.handles && !w.handles[id].Owns()
    ensures Inv(World(w.handles - {id}, w.memory), spare + 1)
  {
    hide HasHeapObject, FreedOnce;
    assert (w.handles - {id}).Keys == w.handles.Keys - {id};
    forall a ensures Owners(w.handles - {id}, a) == Owners(w.handles, a) {
    }
  }

  lemma {:induction false} FreshId(ids: set<nat>) returns (id: nat)
    ensures forall x :: x in ids ==> x < id
    decreases ids
  {
    if ids == {} {
      id := 0;
    } else {
      var x :| x in ids;
      id := FreshId(ids - {x});
      assert ids == ids - {x} + {x};
      id := if x < id then id else x + 1;
    }
  }

  /** A new block with its first owner. */
  lemma CreateKeepsInv(w: World, id: nat, address: Word, trampoline: Code, spare: nat)
    requires Inv(w, spare + 1) && id !in w.handles && address !in w.memory.blocks
    requires trampoline & TRAMPOLINE_STOLEN_BITS_MASK == 0
    ensures var created := Created(w.memory, address, trampoline); Inv(Put(w, id, created.0, created.1), spare)
  {
    hide HasHeapObject, Owners, FreedOnce;
    TagRoundTrip(trampoline, true, false);
    var created := Created(w.memory, address, trampoline);
    var w' := Put(w, id, created.0, created.1);
    assert w'.handles.Keys == w.handles.Keys + {id};
    CreateKeepsFreedOnce(w.memory, address, trampoline);
    NotAnOwner(w.handles, id);
    NoOwners(w, address);
    forall a | a in w'.memory.blocks
      ensures w'.memory.blocks[a].refCount == |Owners(w'.handles, a)| && Owners(w'.handles, a) != {}
    {
      OwnerCountAfterUpdate(w.handles, id, created.0, a);
      assert a == address || a in w.memory.blocks;
    }
  }

  lemma NoOwners(w: World, address: Word)
    requires AllLive(w) && address !in w.memory.blocks
    ensures Owners(w.handles, address) == {}
  {
    forall id | id in w.handles ensures Live(w.handles[id], w.memory) {
    }
  }

  lemma AssignCopyKeepsInv(w: World, id: nat, from: nat)
    requires Inv(w, 2) && id in w.handles && from in w.handles
    ensures Inv(Put(w, id, w.handles[from], CopyAssigned(w.handles[id], w.handles[from], w.memory)), 2)
  {
    hide HasHeapObject, Owners, FreedOnce, Counted;
    var h := w.handles[from];
    var tmp := FreshId(w.handles.Keys);
    AttachKeepsInv(w, tmp, h, 1);
    var w1 := World(w.handles[tmp := h], RetainOf(h, w.memory));
    DetachKeepsInv(w1, id, 1);
    var w2 := World(w1.handles[id := MovedFrom(w.handles[id])], CopyAssigned(w.handles[id], h, w.memory));
    NoTrampolineOwnsNothing(w.handles[id]);
    MoveKeepsInv(w2, id, tmp, 1);
    var w3 := MoveInto(w2, id, tmp, w2.memory);
    NoTrampolineOwnsNothing(h);
    DropKeepsInv(w3, tmp, 1);
    assert w3.handles - {tmp} == w.handles[id := h];
  }

  lemma SwapKeepsInv(w: World, a: nat, b: nat)
    requires Inv(w, 2) && a in w.handles && b in w.handles
    ensures Inv(World(w.handles[a := w.handles[b]][b := w.handles[a]], w.memory), 2)
  {
    hide Inv;
    if a == b {
      assert w.handles[a := w.handles[b]][b := w.handles[a]] == w.handles;
    } else {
      SwapTwoKeepsInv(w, a, b);
    }
  }

  /** Three moves through a handle that exists only for the proof. */
  lemma SwapTwoKeepsInv(w: World, a: nat, b: nat)
    requires Inv(w, 2) && a in w.handles && b in w.handles && a != b
    ensures Inv(World(w.handles[a := w.handles[b]][b := w.handles[a]], w.memory), 2)
  {
    hide Inv, HasHeapObject;
    var tmp := FreshId(w.handles.Keys);
    NoTrampolineOwnsNothing(w.handles[a]);
    AttachKeepsInv(w, tmp, EMPTY, 1);
    var w1 := World(w.handles[tmp := EMPTY], w.memory);
    MoveKeepsInv(w1, tmp, a, 1);
    var w2 := MoveInto(w1, tmp, a, w.memory);
    RotateKeepsInv(w2, a, b, tmp);
    assert World(w2.handles[a := w.handles[b]][b := w.handles[a]] - {tmp}, w.memory).handles
        == w.handles[a := w.handles[b]][b := w.handles[a]];
  }

  /** The second and third move, and the end of the extra handle. */
  lemma RotateKeepsInv(w: World, a: nat, b: nat, tmp: nat)
    requires Inv(w, 1) && a in w.handles && b in w.handles && tmp in w.handles && a != b && a != tmp && b != tmp
    requires !w.handles[a].Owns()
    ensures Inv(World(w.handles[a := w.handles[b]][b := w.handles[tmp]] - {tmp}, w.memory), 2)
  {
    hide Inv, HasHeapObject;
    NoTrampolineOwnsNothing(w.handles[b]);
    NoTrampolineOwnsNothing(w.handles[tmp]);
    MoveKeepsInv(w, a, b, 1);
    var w3 := MoveInto(w, a, b, w.memory);
    MoveKeepsInv(w3, b, tmp, 1);
    var w4 := MoveInto(w3, b, tmp, w.memory);
    DropKeepsInv(w4, tmp, 1);
    assert w4.handles - {tmp} == w.handles[a := w.handles[b]][b := w.handles[tmp]] - {tmp};
  }

  lemma MoveConstructKeepsInv(w: World, id: nat, from: nat)
    requires Inv(w, 3) && id !in w.handles && from in w.handles
    ensures Inv(MoveInto(w, id, from, w.memory), 2)
  {
    hide HasHeapObject, Owners, FreedOnce, Counted;
    NoTrampolineOwnsNothing(EMPTY);
    AttachKeepsInv(w, id, EMPTY, 2);
    var w1 := World(w.handles[id := EMPTY], w.memory);
    MoveKeepsInv(w1, id, from, 2);
    assert w1.handles[id := w.handles[from]] == w.handles[id := w.handles[from]];
  }

  lemma AssignMoveKeepsInv(w: World, id: nat, from: nat)
    requires Inv(w, 2) && id in w.handles && from in w.handles
    ensures Inv(MoveInto(w, id, from, ReleaseOf(w.handles[id], w.memory)), 2)
  {
    hide HasHeapObject, Owners, FreedOnce, Counted;
    var h := w.handles[id];
    NoTrampolineOwnsNothing(h);
    DetachKeepsInv(w, id, 2);
    var w1 := World(w.handles[id := MovedFrom(h)], ReleaseOf(h, w.memory));
    if id == from {
      assert w.handles[id := h][from := MovedFrom(h)] == w1.handles;
    } else {
      MoveKeepsInv(w1, id, from, 2);
      assert w1.handles[id := w.handles[from]] == w.handles[id := w.handles[from]];
    }
  }

  lemma DestroyKeepsInv(w: World, id: nat)
    requires Inv(w, 2) && id in w.handles
    ensures Inv(World(w.handles - {id}, ReleaseOf(w.handles[id], w.memory)), 2)
  {
    hide HasHeapObject, Owners, FreedOnce, Counted;
    var h := w.handles[id];
    NoTrampolineOwnsNothing(h);
    DetachKeepsInv(w, id, 2);
    var w1 := World(w.handles[id := MovedFrom(h)], ReleaseOf(h, w.memory));
    DropKeepsInv(w1, id, 2);
    assert w1.handles - {id} == w.handles - {id};
  }

  lemma OperationKeepsInv(w: World, op: Operation)
    requires Inv(w, 2) && CanDo(w, op)
    ensures Inv(Do(w, op), 2)
  {
    hide HasHeapObject, Owners, FreedOnce, Counted;
    NoTrampolineOwnsNothing(EMPTY);
    match op
    case MakeEmpty(id) => AttachKeepsInv(w, id, EMPTY, 2);
    case MakeInline(id, word, trampoline, embedded) =>
      TagRoundTrip(trampoline, false, embedded);
      AttachKeepsInv(w, id, Handle(word, Tag(trampoline, false, embedded)), 2);
    case MakeOnHeap(id, address, trampoline) => CreateKeepsInv(w, id, address, trampoline, 2);
    case CopyConstruct(id, from) => AttachKeepsInv(w, id, w.handles[from], 2);
    case MoveConstruct(id, from) => MoveConstructKeepsInv(w, id, from);
    case AssignCopy(id, from) => AssignCopyKeepsInv(w, id, from);
    case AssignMove(id, from) => AssignMoveKeepsInv(w, id, from);
    case Swap(id, from) => SwapKeepsInv(w, id, from);
    case Destroy(id) => DestroyKeepsInv(w, id);
  }

  ghost predicate Run(worlds: seq<World>, ops: seq<Operation>) {
    && |worlds| == |ops| + 1
    && worlds[0] == World(map[], Memory(map[], 0, [], []))
    && forall i :: 0 <= i < |ops| ==>
         CanDo(worlds[i], ops[i]) && (AllLive(worlds[i]) ==> worlds[i + 1] == Do(worlds[i], ops[i]))
  }

  lemma {:induction false} RunKeepsInv(worlds: seq<World>, ops: seq<Operation>, i: nat)
    requires Run(worlds, ops) && i < |worlds|
    ensures Inv(worlds[i], 2)
  {
    hide CanDo, Do;
    if i > 0 {
      RunKeepsInv(worlds, ops, i - 1);
      OperationKeepsInv(worlds[i - 1], ops[i - 1]);
    } else {
      assert FreedOnce(worlds[0].memory);
    }
  }

  /** In every run: a block exists exactly as long as some handle owns it, its count is the
      number of those handles, and its deleter has run once if it no longer exists and never if
      it does. */
  lemma CountsAreOwners(worlds: seq<World>, ops: seq<Operation>, i: nat)
    requires Run(worlds, ops) && i < |worlds|
    ensures var w := worlds[i];
      && (forall a :: a in w.memory.blocks <==> Owners(w.handles, a) != {})
      && (forall a :: a in w.memory.blocks ==> w.memory.blocks[a].refCount == |Owners(w.handles, a)|)
      && (forall serial: nat :: serial < w.memory.nextSerial ==>
            multiset(w.memory.deleted)[serial] == if Exists(w.memory, serial) then 0 else 1)
  {
    hide Run, Do, CanDo, Owners;
    RunKeepsInv(worlds, ops, i);
    var w := worlds[i];
    forall a | a !in w.memory.blocks ensures Owners(w.handles, a) == {} {
      NoOwners(w, a);
    }
  }

  /** When the last handle is gone, every deleter has run. */
  lemma NoBlockLeaks(worlds: seq<World>, ops: seq<Operation>, i: nat, serial: nat)
    requires Run(worlds, ops) && i < |worlds| && worlds[i].handles == map[]
    requires serial < worlds[i].memory.nextSerial
    ensures multiset(worlds[i].memory.deleted)[serial] == 1
  {
    hide Run, Do, CanDo;
    CountsAreOwners(worlds, ops, i);
    assert forall a :: Owners(worlds[i].handles, a) == {};
  }

  // Comparison.

  /** operator==. Both of its branches compare the storage word: a heap-based handle never has
      the embedded tag, so storage() is the stored pointer. */
  predicate Equal(a: Handle, b: Handle) {
    a.trampoline == b.trampoline && a.storage == b.storage
  }

  predicate IsEmpty(h: Handle) {
    h.trampoline == 0
  }

  /** What calling a handle comes to. */
  datatype Target = Nothing | Calls(code: Code, word: Word, onHeap: bool, embedded: bool)

  function TargetOf(h: Handle): Target {
    if IsEmpty(h) then Nothing
    else Calls(Trampoline(h.trampoline), h.storage, HasHeapObject(h.trampoline), HasEmbeddedStorage(h.trampoline))
  }

  /** What handles stand for, told from the operations alone: a copy stands for what its source
      does, a move takes it away, a swap exchanges it. */
  ghost function TargetsAfter(targets: map<nat, Target>, op: Operation): map<nat, Target> {
    match op
    case MakeEmpty(id) => targets[id := Nothing]
    case MakeInline(id, word, code, embedded) => targets[id := Calls(code, word, false, embedded)]
    case MakeOnHeap(id, address, code) => targets[id := Calls(code, address, true, false)]
    case CopyConstruct(id, from) => targets[id := At(targets, from)]
    case AssignCopy(id, from) => targets[id := At(targets, from)]
    case MoveConstruct(id, from) => targets[id := At(targets, from)][from := Nothing]
    case AssignMove(id, from) => targets[id := At(targets, from)][from := Nothing]
    case Swap(id, from) => targets[id := At(targets, from)][from := At(targets, id)]
    case Destroy(id) => targets - {id}
  }

  ghost function At(targets: map<nat, Target>, id: nat): Target {
    if id in targets then targets[id] else Nothing
  }

  ghost function Targets(ops: seq<Operation>, i: nat): map<nat, Target>
    requires i <= |ops|
  {
    if i == 0 then map[] else TargetsAfter(Targets(ops, i - 1), ops[i - 1])
  }

  /** Every handle stands for its target. */
  ghost predicate Means(handles: map<nat, Handle>, targets: map<nat, Target>) {
    handles.Keys == targets.Keys && forall id :: id in handles ==> TargetOf(handles[id]) == targets[id]
  }

  lemma MadeMeans(word: Word, code: Code, heap: bool, embedded: bool)
    requires code != 0 && code & TRAMPOLINE_STOLEN_BITS_MASK == 0
    ensures TargetOf(Handle(word, Tag(code, heap, embedded))) == Calls(code, word, heap, embedded)
  {
    hide HasHeapObject, HasEmbeddedStorage, Trampoline, Tag;
    TagRoundTrip(code, heap, embedded);
    TaggedIsNotEmpty(code, heap, embedded);
  }

  lemma PutMeans(handles: map<nat, Handle>, targets: map<nat, Target>, id: nat, h: Handle)
    requires Means(handles, targets)
    ensures Means(handles[id := h], targets[id := TargetOf(h)])
  {
    hide TargetOf;
  }

  lemma MovedMeansNothing(h: Handle)
    ensures TargetOf(MovedFrom(h)) == Nothing && TargetOf(EMPTY) == Nothing
  {
  }

  lemma OperationKeepsMeaning(w: World, op: Operation, targets: map<nat, Target>)
    requires CanDo(w, op) && AllLive(w) && Means(w.handles, targets)
    ensures Means(Do(w, op).handles, TargetsAfter(targets, op))
  {
    hide TargetOf, Tag, Means, AllLive, MovedFrom, RetainOf, ReleaseOf, CopyAssigned;
    if op.MakeEmpty? {
      MovedMeansNothing(EMPTY);
      PutMeans(w.handles, targets, op.id, EMPTY);
    } else if op.MakeInline? {
      MadeMeans(op.word, op.trampoline, false, op.embedded);
      PutMeans(w.handles, targets, op.id, Handle(op.word, Tag(op.trampoline, false, op.embedded)));
    } else if op.MakeOnHeap? {
      MadeMeans(op.address, op.trampoline, true, false);
      PutMeans(w.handles, targets, op.id, Handle(op.address, Tag(op.trampoline, true, false)));
    } else if op.Destroy? {
      DestroyedMeans(w.handles, targets, op.id);
    } else {
      var h := w.handles[op.from];
      MeansAt(w.handles, targets, op.from);
      PutMeans(w.handles, targets, op.id, h);
      if op.MoveConstruct? || op.AssignMove? {
        MovedMeansNothing(h);
        PutMeans(w.handles[op.id := h], targets[op.id := TargetOf(h)], op.from, MovedFrom(h));
      } else if op.Swap? {
        MeansAt(w.handles, targets, op.id);
        PutMeans(w.handles[op.id := h], targets[op.id := TargetOf(h)], op.from, w.handles[op.id]);
      }
    }
  }

  lemma MeansAt(handles: map<nat, Handle>, targets: map<nat, Target>, id: nat)
    requires Means(handles, targets) && id in handles
    ensures id in targets && targets[id] == TargetOf(handles[id])
  {
    assert id in targets.Keys;
  }

  lemma DestroyedMeans(handles: map<nat, Handle>, targets: map<nat, Target>, id: nat)
    requires Means(handles, targets)
    ensures Means(handles - {id}, targets - {id})
  {
    hide TargetOf;
    assert (handles - {id}).Keys == handles.Keys - {id} && (targets - {id}).Keys == targets.Keys - {id};
  }

  /** In every run every handle stands for what its operations made of it. */
  lemma {:induction false} HandlesMeanTargets(worlds: seq<World>, ops: seq<Operation>, i: nat)
    requires Run(worlds, ops) && i < |worlds|
    ensures Means(worlds[i].handles, Targets(ops, i))
  {
    hide CanDo, Do, TargetsAfter, AllLive;
    if i > 0 {
      HandlesMeanTargets(worlds, ops, i - 1);
      RunKeepsInv(worlds, ops, i - 1);
      InvIsLive(worlds[i - 1]);
      OperationKeepsMeaning(worlds[i - 1], ops[i - 1], Targets(ops, i - 1));
    }
  }

  lemma SameBits(a: Code, b: Code)
    requires Trampoline(a) == Trampoline(b)
    requires HasHeapObject(a) == HasHeapObject(b) && HasEmbeddedStorage(a) == HasEmbeddedStorage(b)
    ensures a == b
  {
  }

  /** In every run two handles compare equal exactly if they stand for the same, except for two
      empty handles, on which `EmptyHandlesEqualIffNoSuchMove` is. */
  lemma EqualityMeansSameTarget(worlds: seq<World>, ops: seq<Operation>, i: nat, a: nat, b: nat)
    requires Run(worlds, ops) && i < |worlds| && a in worlds[i].handles && b in worlds[i].handles
    ensures a in Targets(ops, i) && b in Targets(ops, i)
    ensures !(Targets(ops, i)[a] == Targets(ops, i)[b] == Nothing) ==>
              (Equal(worlds[i].handles[a], worlds[i].handles[b]) <==> Targets(ops, i)[a] == Targets(ops, i)[b])
  {
    hide Run, Trampoline, HasHeapObject, HasEmbeddedStorage, Targets;
    RunHasWorlds(worlds, ops);
    HandlesMeanTargets(worlds, ops, i);
    var x, y := worlds[i].handles[a], worlds[i].handles[b];
    assert a in Targets(ops, i).Keys && b in Targets(ops, i).Keys;
    if Targets(ops, i)[a] == Targets(ops, i)[b] && Targets(ops, i)[a] != Nothing {
      SameBits(x.trampoline, y.trampoline);
    }
  }

  /** A handle that is empty and yet differs from a new empty handle. */
  ghost predicate IsStale(h: Handle) {
    IsEmpty(h) && !Equal(h, EMPTY)
  }

  /** A move out of a handle whose storage word is not zero. */
  ghost predicate LeavesStaleHandle(w: World, op: Operation) {
    (op.MoveConstruct? || op.AssignMove?) && op.from in w.handles && w.handles[op.from].storage != 0
  }

  /** The stale handles after an operation, told from those before it: a move leaves one, copies,
      moves and swaps pass staleness on, everything else ends it. */
  ghost function StaleAfter(w: World, op: Operation, stale: set<nat>): set<nat> {
    match op
    case CopyConstruct(id, from) => Passed(stale, id, from in stale)
    case AssignCopy(id, from) => Passed(stale, id, from in stale)
    case MoveConstruct(id, from) => Passed(Passed(stale, id, from in stale), from, LeavesStaleHandle(w, op))
    case AssignMove(id, from) => Passed(Passed(stale, id, from in stale), from, LeavesStaleHandle(w, op))
    case Swap(id, from) => Passed(Passed(stale, id, from in stale), from, id in stale)
    case _ => stale - {op.id}
  }

  ghost function Passed(stale: set<nat>, id: nat, becomesStale: bool): set<nat> {
    if becomesStale then stale + {id} else stale - {id}
  }

  /** The stale handles of a run, told from its operations. */
  ghost function StaleHandles(worlds: seq<World>, ops: seq<Operation>, i: nat): set<nat>
    requires i <= |ops| && |ops| < |worlds|
  {
    if i == 0 then {} else StaleAfter(worlds[i - 1], ops[i - 1], StaleHandles(worlds, ops, i - 1))
  }

  lemma TaggedIsNotEmpty(trampoline: Code, heap: bool, embedded: bool)
    requires trampoline != 0 && trampoline & TRAMPOLINE_STOLEN_BITS_MASK == 0
    ensures Tag(trampoline, heap, embedded) != 0
  {
  }

  lemma StaleStep(w: World, op: Operation, stale: set<nat>)
    requires CanDo(w, op) && AllLive(w)
    requires forall id :: id in stale <==> id in w.handles && IsStale(w.handles[id])
    ensures forall id :: id in StaleAfter(w, op, stale) <==> id in Do(w, op).handles && IsStale(Do(w, op).handles[id])
  {
    hide Tag, RetainOf, ReleaseOf, HasHeapObject;
    if op.MakeInline? {
      TaggedIsNotEmpty(op.trampoline, false, op.embedded);
    } else if op.MakeOnHeap? {
      TaggedIsNotEmpty(op.trampoline, true, false);
    }
  }

  /** In every run the handles that are empty but differ from a new empty handle are exactly those
      that the moves, copies and swaps of the run account for. */
  lemma {:induction false} StaleHandlesAreKnown(worlds: seq<World>, ops: seq<Operation>, i: nat)
    requires Run(worlds, ops) && i < |worlds|
    ensures forall id :: id in StaleHandles(worlds, ops, i) <==> id in worlds[i].handles && IsStale(worlds[i].handles[id])
  {
    hide CanDo, Do, IsStale, StaleAfter, AllLive;
    if i > 0 {
      StaleHandlesAreKnown(worlds, ops, i - 1);
      RunKeepsInv(worlds, ops, i - 1);
      InvIsLive(worlds[i - 1]);
      StaleStep(worlds[i - 1], ops[i - 1], StaleHandles(worlds, ops, i - 1));
    }
  }

  lemma InvIsLive(w: World)
    requires Inv(w, 2)
    ensures AllLive(w)
  {
  }

  ghost predicate EmptyHandlesAreEqual(w: World) {
    forall id :: id in w.handles && IsEmpty(w.handles[id]) ==> Equal(w.handles[id], EMPTY)
  }

  /** The comment promises that empty handles compare equal. All empty handles of all worlds of a
      run equal a new one exactly if the run never moves out of a handle with a non-zero word. */
  lemma EmptyHandlesEqualIffNoSuchMove(worlds: seq<World>, ops: seq<Operation>)
    requires Run(worlds, ops)
    ensures (forall i :: 0 <= i < |worlds| ==> EmptyHandlesAreEqual(worlds[i]))
       <==> (forall i :: 0 <= i < |ops| ==> !LeavesStaleHandle(worlds[i], ops[i]))
  {
    hide LeavesStaleHandle, IsStale, Run, EmptyHandlesAreEqual, StaleHandles;
    RunHasWorlds(worlds, ops);
    if forall i :: 0 <= i < |ops| ==> !LeavesStaleHandle(worlds[i], ops[i]) {
      forall i | 0 <= i < |worlds| ensures EmptyHandlesAreEqual(worlds[i]) {
        StaleHandlesAreKnown(worlds, ops, i);
        NothingStale(worlds, ops, i);
        NoneStale(worlds[i]);
      }
    }
    if i :| 0 <= i < |ops| && LeavesStaleHandle(worlds[i], ops[i]) {
      StaleHandlesAreKnown(worlds, ops, i + 1);
      MoveIsStale(worlds, ops, i);
      SomeStale(worlds[i + 1], ops[i].from);
      assert !EmptyHandlesAreEqual(worlds[i + 1]);
    }
  }

  lemma RunHasWorlds(worlds: seq<World>, ops: seq<Operation>)
    requires Run(worlds, ops)
    ensures |worlds| == |ops| + 1
  {
  }

  lemma NoneStale(w: World)
    requires forall id :: !(id in w.handles && IsStale(w.handles[id]))
    ensures EmptyHandlesAreEqual(w)
  {
  }

  lemma SomeStale(w: World, id: nat)
    requires id in w.handles && IsStale(w.handles[id])
    ensures !EmptyHandlesAreEqual(w)
  {
  }

  lemma MoveIsStale(worlds: seq<World>, ops: seq<Operation>, i: nat)
    requires i < |ops| < |worlds| && LeavesStaleHandle(worlds[i], ops[i])
    ensures ops[i].MoveConstruct? || ops[i].AssignMove?
    ensures ops[i].from in StaleHandles(worlds, ops, i + 1)
  {
  }

  lemma {:induction false} NothingStale(worlds: seq<World>, ops: seq<Operation>, i: nat)
    requires i <= |ops| < |worlds| && forall j :: 0 <= j < i ==> !LeavesStaleHandle(worlds[j], ops[j])
    ensures StaleHandles(worlds, ops, i) == {}
  {
    if i > 0 {
      NothingStale(worlds, ops, i - 1);
    }
  }

  /** A reachable counterexample: a small callable whose bytes are 5, moved from. */
  lemma TwoOperationsBreakEquality() returns (worlds: seq<World>)
    ensures Run(worlds, [MakeInline(0, 5, 4, true), MoveConstruct(1, 0)])
    ensures 0 in worlds[2].handles && IsEmpty(worlds[2].handles[0]) && !Equal(worlds[2].handles[0], EMPTY)
  {
    hide Tag;
    var make, move := MakeInline(0, 5, 4, true), MoveConstruct(1, 0);
    var w0 := World(map[], Memory(map[], 0, [], []));
    AlignedFour();
    TagRoundTrip(4, false, true);
    var w1 := Do(w0, make);
    assert w1.handles == map[0 := Handle(5, Tag(4, false, true))];
    assert AllLive(w1);
    assert |w1.handles| == 1;
    var w2 := Do(w1, move);
    worlds := [w0, w1, w2];
    assert Run(worlds, [make, move]);
  }

  lemma AlignedFour()
    ensures 4 as Code & TRAMPOLINE_STOLEN_BITS_MASK == 0
  {
  }
}
