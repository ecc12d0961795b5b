/** The connection order of the signal/slot library: `Z_Order` compares two pairs of machine
    words by exclusive-or (third-party/nano-signal-slot/nano_observer.hpp:28-36). Words are
    natural numbers here, so the results hold for every word width. */
module MortonOrder {

  /** Delegate_Key: an instance pointer and a function pointer. */
  datatype Key = Key(instance: nat, callee: nat)

  function Xor(a: nat, b: nat): nat
    decreases a + b
  {
    if a == 0 && b == 0 then 0 else 2 * Xor(a / 2, b / 2) + (a % 2 + b % 2) % 2
  }

  /** True selects the second word: it holds the most significant difference. */
  predicate SecondDecides(x: nat, y: nat) {
    x < y && x < Xor(x, y)
  }

  predicate ZLess(lhs: Key, rhs: Key) {
    var x := Xor(lhs.instance, rhs.instance);
    var y := Xor(lhs.callee, rhs.callee);
    if SecondDecides(x, y) then lhs.callee < rhs.callee else lhs.instance < rhs.instance
  }

  /** Bit i of n. */
  function Bit(n: nat, i: nat): nat {
    if i == 0 then n % 2 else Bit(n / 2, i - 1)
  }

  /** The bits of both words in turn, at each place the first word's above the second's. */
  function Interleave(a: nat, b: nat): nat
    decreases a + b
  {
    if a == 0 && b == 0 then 0 else 4 * Interleave(a / 2, b / 2) + 2 * (a % 2) + b % 2
  }

  function Morton(key: Key): nat {
    Interleave(key.instance, key.callee)
  }

  lemma {:induction false} XorBits(a: nat, b: nat, i: nat)
    ensures Bit(Xor(a, b), i) == (Bit(a, i) + Bit(b, i)) % 2
    decreases i
  {
    HalveXor(a, b);
    if i > 0 {
      XorBits(a / 2, b / 2, i - 1);
    }
  }

  lemma {:induction false} InterleaveBits(a: nat, b: nat, i: nat)
    ensures Bit(Interleave(a, b), 2 * i) == Bit(b, i)
    ensures Bit(Interleave(a, b), 2 * i + 1) == Bit(a, i)
    decreases i
  {
    HalveInterleave(a, b);
    var n := Interleave(a, b);
    assert n / 2 % 2 == a % 2 && n / 2 / 2 == Interleave(a / 2, b / 2);
    if i > 0 {
      InterleaveBits(a / 2, b / 2, i - 1);
      assert Bit(n, 2 * i) == Bit(n / 2 / 2, 2 * (i - 1));
      assert Bit(n, 2 * i + 1) == Bit(n / 2 / 2, 2 * (i - 1) + 1);
    }
  }

  lemma HalveXor(a: nat, b: nat)
    ensures Xor(a, b) == 2 * Xor(a / 2, b / 2) + (a % 2 + b % 2) % 2
    ensures Xor(a, b) / 2 == Xor(a / 2, b / 2) && Xor(a, b) % 2 == (a % 2 + b % 2) % 2
  {
    if a == 0 && b == 0 {
      assert Xor(0, 0) == 0;
    }
  }

  lemma HalveInterleave(a: nat, b: nat)
    ensures Interleave(a, b) == 4 * Interleave(a / 2, b / 2) + 2 * (a % 2) + b % 2
  {
    if a == 0 && b == 0 {
      assert Interleave(0, 0) == 0;
    }
  }

  lemma {:induction false} XorIsZero(a: nat, b: nat)
    ensures Xor(a, b) == 0 <==> a == b
    decreases a + b
  {
    HalveXor(a, b);
    if a != 0 || b != 0 {
      XorIsZero(a / 2, b / 2);
    }
  }

  lemma {:induction false} XorIsFirst(a: nat, b: nat)
    ensures Xor(a, b) == a <==> b == 0
    decreases a + b
  {
    HalveXor(a, b);
    if a != 0 || b != 0 {
      XorIsFirst(a / 2, b / 2);
    }
  }

  /** Differences above the last bit decide alone. */
  lemma HalvesDecide(x: nat, y: nat)
    requires x / 2 != 0 || y / 2 != 0
    ensures SecondDecides(x, y) <==> SecondDecides(x / 2, y / 2)
    ensures if SecondDecides(x, y) then y / 2 != 0 else x / 2 != 0
  {
    HalveXor(x, y);
    XorIsZero(x / 2, y / 2);
    XorIsFirst(x / 2, y / 2);
    XorIsZero(0, y / 2);
  }

  lemma {:induction false} InterleaveIsInjective(a: nat, b: nat, c: nat, d: nat)
    ensures Interleave(a, b) == Interleave(c, d) <==> a == c && b == d
    decreases a + b + c + d
  {
    HalveInterleave(a, b);
    HalveInterleave(c, d);
    if a != 0 || b != 0 || c != 0 || d != 0 {
      InterleaveIsInjective(a / 2, b / 2, c / 2, d / 2);
    }
  }

  /** Words that differ in the last bits only. */
  lemma LastBitsDecide(lhs: Key, rhs: Key)
    requires lhs.instance / 2 == rhs.instance / 2 && lhs.callee / 2 == rhs.callee / 2
    ensures ZLess(lhs, rhs) <==> Morton(lhs) < Morton(rhs)
  {
    hide Xor, Interleave;
    HalveInterleave(lhs.instance, lhs.callee);
    HalveInterleave(rhs.instance, rhs.callee);
    HalveXor(lhs.instance, rhs.instance);
    HalveXor(lhs.callee, rhs.callee);
    XorIsZero(lhs.instance / 2, rhs.instance / 2);
    XorIsZero(lhs.callee / 2, rhs.callee / 2);
    HalveXor(0, 1);
    HalveXor(1, 1);
    XorIsZero(0, 0);
  }

  /** Words that differ above the last bits compare as their halves do. */
  lemma HighBitsDecide(lhs: Key, rhs: Key)
    requires lhs.instance / 2 != rhs.instance / 2 || lhs.callee / 2 != rhs.callee / 2
    ensures ZLess(lhs, rhs) <==> ZLess(Key(lhs.instance / 2, lhs.callee / 2), Key(rhs.instance / 2, rhs.callee / 2))
  {
    hide Xor, SecondDecides;
    HalveXor(lhs.instance, rhs.instance);
    HalveXor(lhs.callee, rhs.callee);
    XorIsZero(lhs.instance / 2, rhs.instance / 2);
    XorIsZero(lhs.callee / 2, rhs.callee / 2);
    HalvesDecide(Xor(lhs.instance, rhs.instance), Xor(lhs.callee, rhs.callee));
  }

  /** Comparing by exclusive-or is comparing the interleaved words. */
  lemma {:induction false} ZOrderIsMortonOrder(lhs: Key, rhs: Key)
    ensures ZLess(lhs, rhs) <==> Morton(lhs) < Morton(rhs)
    decreases lhs.instance + lhs.callee + rhs.instance + rhs.callee
  {
    hide ZLess, Interleave;
    if lhs.instance / 2 == rhs.instance / 2 && lhs.callee / 2 == rhs.callee / 2 {
      LastBitsDecide(lhs, rhs);
    } else {
      var l, r := Key(lhs.instance / 2, lhs.callee / 2), Key(rhs.instance / 2, rhs.callee / 2);
      HalveInterleave(lhs.instance, lhs.callee);
      HalveInterleave(rhs.instance, rhs.callee);
      InterleaveIsInjective(l.instance, l.callee, r.instance, r.callee);
      HighBitsDecide(lhs, rhs);
      ZOrderIsMortonOrder(l, r);
    }
  }

  /** Z_Order is a strict total order, as the standard algorithms demand. */
  lemma ZOrderIsStrictTotal(a: Key, b: Key, c: Key)
    ensures !ZLess(a, a)
    ensures ZLess(a, b) && ZLess(b, c) ==> ZLess(a, c)
    ensures a == b || ZLess(a, b) || ZLess(b, a)
  {
    ZOrderIsMortonOrder(a, a);
    ZOrderIsMortonOrder(a, b);
    ZOrderIsMortonOrder(b, a);
    ZOrderIsMortonOrder(b, c);
    ZOrderIsMortonOrder(a, c);
    InterleaveIsInjective(a.instance, a.callee, b.instance, b.callee);
  }

  /** A slot of this observer, and the observer on the other end. */
  datatype Connection = Connection(delegate: Key, observer: Observer)

  /** The order that the standard algorithms rely on. */
  ghost predicate Sorted(cs: seq<Connection>) {
    forall i, j :: 0 <= i < j < |cs| ==> !ZLess(cs[j].delegate, cs[i].delegate)
  }

  /** std::lower_bound: the first entry that is not below the key. */
  function LowerBound(cs: seq<Connection>, key: Key): (n: nat)
    ensures n <= |cs|
  {
    if cs == [] || !ZLess(cs[0].delegate, key) then 0 else 1 + LowerBound(cs[1..], key)
  }

  /** std::upper_bound: the first entry above the key. */
  function UpperBound(cs: seq<Connection>, key: Key): (n: nat)
    ensures n <= |cs|
  {
    if cs == [] || ZLess(key, cs[0].delegate) then 0 else 1 + UpperBound(cs[1..], key)
  }

  /** The entries whose key is not among the given ones, in their order. */
  ghost function Without(cs: seq<Connection>, keys: set<Key>): seq<Connection> {
    if cs == [] then []
    else if cs[0].delegate in keys then Without(cs[1..], keys)
    else [cs[0]] + Without(cs[1..], keys)
  }

  lemma {:induction false} LowerBoundSplits(cs: seq<Connection>, key: Key)
    ensures forall i :: 0 <= i < LowerBound(cs, key) ==> ZLess(cs[i].delegate, key)
    ensures LowerBound(cs, key) < |cs| ==> !ZLess(cs[LowerBound(cs, key)].delegate, key)
  {
    hide ZLess;
    if cs != [] {
      LowerBoundSplits(cs[1..], key);
    }
  }

  lemma {:induction false} UpperBoundSplits(cs: seq<Connection>, key: Key)
    ensures forall i :: 0 <= i < UpperBound(cs, key) ==> !ZLess(key, cs[i].delegate)
    ensures UpperBound(cs, key) < |cs| ==> ZLess(key, cs[UpperBound(cs, key)].delegate)
  {
    hide ZLess;
    if cs != [] {
      UpperBoundSplits(cs[1..], key);
    }
  }

  /** In a sorted list the two bounds enclose exactly the entries with the key. */
  lemma BoundsEncloseKey(cs: seq<Connection>, key: Key, i: nat)
    requires Sorted(cs) && i < |cs|
    ensures i < LowerBound(cs, key) <==> ZLess(cs[i].delegate, key)
    ensures UpperBound(cs, key) <= i <==> ZLess(key, cs[i].delegate)
    ensures LowerBound(cs, key) <= i < UpperBound(cs, key) <==> cs[i].delegate == key
    ensures LowerBound(cs, key) <= UpperBound(cs, key)
  {
    hide ZLess, LowerBound, UpperBound;
    LowerBoundSplits(cs, key);
    UpperBoundSplits(cs, key);
    var lo, hi := LowerBound(cs, key), UpperBound(cs, key);
    if lo < |cs| {
      ZOrderIsStrictTotal(cs[i].delegate, key, cs[lo].delegate);
      ZOrderIsStrictTotal(cs[lo].delegate, cs[i].delegate, key);
    }
    if hi < |cs| {
      ZOrderIsStrictTotal(key, cs[hi].delegate, cs[i].delegate);
      ZOrderIsStrictTotal(cs[i].delegate, key, cs[hi].delegate);
    }
    ZOrderIsStrictTotal(key, cs[i].delegate, key);
    if hi < lo {
      ZOrderIsStrictTotal(key, cs[hi].delegate, key);
    }
  }

  lemma Regroup(c: Connection, a: seq<Connection>, b: seq<Connection>)
    ensures [c] + a + b == [c] + (a + b)
    ensures ([c] + a)[1..] == a
  {
  }

  lemma {:induction false} WithoutConcat(a: seq<Connection>, b: seq<Connection>, keys: set<Key>)
    ensures Without(a + b, keys) == Without(a, keys) + Without(b, keys)
  {
    if a == [] {
      assert a + b == b;
    } else {
      WithoutConcat(a[1..], b, keys);
      assert a + b == [a[0]] + (a[1..] + b);
      Regroup(a[0], a[1..] + b, []);
      Regroup(a[0], Without(a[1..], keys), Without(b, keys));
    }
  }

  lemma {:induction false} WithoutKeepsOrDrops(cs: seq<Connection>, keys: set<Key>)
    ensures (forall i :: 0 <= i < |cs| ==> cs[i].delegate !in keys) ==> Without(cs, keys) == cs
    ensures (forall i :: 0 <= i < |cs| ==> cs[i].delegate in keys) ==> Without(cs, keys) == []
  {
    if cs != [] {
      WithoutKeepsOrDrops(cs[1..], keys);
      assert cs == [cs[0]] + cs[1..];
    }
  }

  lemma {:induction false} WithoutTwice(cs: seq<Connection>, keys: set<Key>, more: set<Key>)
    ensures Without(Without(cs, keys), more) == Without(cs, keys + more)
  {
    if cs != [] {
      WithoutTwice(cs[1..], keys, more);
      Regroup(cs[0], Without(cs[1..], keys), []);
      assert cs[0].delegate in keys + more <==> cs[0].delegate in keys || cs[0].delegate in more;
    }
  }

  lemma {:induction false} WithoutMembers(cs: seq<Connection>, keys: set<Key>, c: Connection)
    ensures c in Without(cs, keys) <==> c in cs && c.delegate !in keys
  {
    if cs != [] {
      WithoutMembers(cs[1..], keys, c);
    }
  }

  lemma WithoutMiddle(a: seq<Connection>, b: seq<Connection>, c: seq<Connection>, keys: set<Key>)
    requires forall i :: 0 <= i < |a| ==> a[i].delegate !in keys
    requires forall i :: 0 <= i < |b| ==> b[i].delegate in keys
    requires forall i :: 0 <= i < |c| ==> c[i].delegate !in keys
    ensures Without(a + b + c, keys) == a + c
  {
    hide Without;
    WithoutConcat(a + b, c, keys);
    WithoutConcat(a, b, keys);
    WithoutKeepsOrDrops(a, keys);
    WithoutKeepsOrDrops(b, keys);
    WithoutKeepsOrDrops(c, keys);
    assert a + [] == a;
  }

  /** Erasing between the bounds deletes exactly the entries with the key. */
  lemma ErasingIsWithout(cs: seq<Connection>, key: Key)
    requires Sorted(cs)
    ensures LowerBound(cs, key) <= UpperBound(cs, key)
    ensures cs[..LowerBound(cs, key)] + cs[UpperBound(cs, key)..] == Without(cs, {key})
  {
    hide ZLess, LowerBound, UpperBound, Without, Sorted;
    var lo, hi := LowerBound(cs, key), UpperBound(cs, key);
    if cs != [] {
      BoundsEncloseKey(cs, key, 0);
    }
    forall i: nat | i < |cs| ensures cs[i].delegate == key <==> lo <= i < hi {
      BoundsEncloseKey(cs, key, i);
    }
    assert cs == cs[..lo] + cs[lo..hi] + cs[hi..];
    WithoutMiddle(cs[..lo], cs[lo..hi], cs[hi..], {key});
  }

  lemma ErasingKeepsSorted(cs: seq<Connection>, lo: nat, hi: nat)
    requires Sorted(cs) && lo <= hi <= |cs|
    ensures Sorted(cs[..lo] + cs[hi..])
  {
    hide ZLess;
    assert forall k :: 0 <= k < |cs| - (hi - lo) ==>
      (cs[..lo] + cs[hi..])[k] == cs[if k < lo then k else k + (hi - lo)];
  }

  lemma InsertingKeepsSorted(cs: seq<Connection>, c: Connection)
    requires Sorted(cs)
    ensures var n := UpperBound(cs, c.delegate); Sorted(cs[..n] + [c] + cs[n..])
  {
    hide ZLess, UpperBound;
    var n := UpperBound(cs, c.delegate);
    forall i: nat | i < |cs|
      ensures i < n ==> !ZLess(c.delegate, cs[i].delegate)
      ensures n <= i ==> !ZLess(cs[i].delegate, c.delegate)
    {
      BoundsEncloseKey(cs, c.delegate, i);
      ZOrderIsStrictTotal(c.delegate, cs[i].delegate, c.delegate);
    }
    assert forall k :: 0 <= k <= |cs| ==>
      (cs[..n] + [c] + cs[n..])[k] == if k < n then cs[k] else if k == n then c else cs[k - 1];
  }

  ghost function KeysTo(cs: seq<Connection>, o: Observer): set<Key> {
    set c | c in cs && c.observer == o :: c.delegate
  }

  class Observer {
    var connections: seq<Connection>

    ghost predicate Valid()
      reads this
    {
      Sorted(connections)
    }

    constructor ()
      ensures Valid() && connections == []
    {
      connections := [];
    }

    /** A new connection goes behind those with the same key. */
    method Insert(key: Key, obs: Observer)
      requires Valid()
      modifies this
      ensures Valid()
      ensures var n := UpperBound(old(connections), key);
              connections == old(connections)[..n] + [Connection(key, obs)] + old(connections)[n..]
    {
      InsertingKeepsSorted(connections, Connection(key, obs));
      var n := UpperBound(connections, key);
      connections := connections[..n] + [Connection(key, obs)] + connections[n..];
    }

    /** Removes exactly the connections with the key. */
    method Remove(key: Key)
      requires Valid()
      modifies this
      ensures Valid() && connections == Without(old(connections), {key})
    {
      ErasingIsWithout(connections, key);
      var first, last := LowerBound(connections, key), UpperBound(connections, key);
      ErasingKeepsSorted(connections, first, last);
      connections := connections[..first] + connections[last..];
    }

    /** Removes the keys of all connections on their other ends too. */
    method DisconnectAll()
      requires Valid() && forall c :: c in connections ==> c.observer.Valid()
      modifies this, set c | c in connections :: c.observer
      ensures Valid() && connections == []
      ensures forall c :: c in old(connections) && c.observer != this ==>
                c.observer.Valid()
                && c.observer.connections
                   == Without(old(c.observer.connections), KeysTo(old(connections), c.observer))
    {
      hide Sorted, Without;
      ghost var was := connections;
      forall c | c in was ensures Without(c.observer.connections, KeysTo(was[..0], c.observer)) == c.observer.connections {
        assert KeysTo(was[..0], c.observer) == {};
        WithoutKeepsOrDrops(c.observer.connections, {});
      }
      for i := 0 to |connections|
        invariant connections == was && Valid()
        invariant forall c :: c in was ==> c.observer.Valid()
        invariant forall c :: c in was && c.observer != this ==>
                    c.observer.connections == Without(old(c.observer.connections), KeysTo(was[..i], c.observer))
      {
        var slot := connections[i];
        forall c | c in was ensures KeysTo(was[..i + 1], c.observer)
          == if slot.observer == c.observer then KeysTo(was[..i], c.observer) + {slot.delegate}
             else KeysTo(was[..i], c.observer)
        {
          KeysToNext(was, i, c.observer);
        }
        if slot.observer != this {
          slot.observer.Remove(slot.delegate);
          WithoutTwice(old(slot.observer.connections), KeysTo(was[..i], slot.observer), {slot.delegate});
        }
      }
      assert was[..|was|] == was;
      connections := [];
      EmptyIsSorted();
    }
  }

  lemma EmptyIsSorted()
    ensures Sorted([])
  {
  }

  lemma KeysToNext(cs: seq<Connection>, i: nat, o: Observer)
    requires i < |cs|
    ensures KeysTo(cs[..i + 1], o)
         == if cs[i].observer == o then KeysTo(cs[..i], o) + {cs[i].delegate} else KeysTo(cs[..i], o)
  {
    assert cs[..i + 1] == cs[..i] + [cs[i]];
  }

  lemma KeysToMember(cs: seq<Connection>, o: Observer, key: Key)
    ensures key in KeysTo(cs, o) <==> Connection(key, o) in cs
  {
  }

  /** Both ends list the same keys for each other. */
  ghost predicate Mirrored(a: Observer, cs: seq<Connection>, b: Observer, ds: seq<Connection>) {
    forall key :: Connection(key, b) in cs <==> Connection(key, a) in ds
  }

  /** Between mirrored ends, disconnecting one leaves no connection to it on the other. */
  lemma DisconnectingForgets(a: Observer, cs: seq<Connection>, b: Observer, ds: seq<Connection>, c: Connection)
    requires Mirrored(a, cs, b, ds) && c in Without(ds, KeysTo(cs, b))
    ensures c.observer != a
  {
    WithoutMembers(ds, KeysTo(cs, b), c);
    KeysToMember(cs, b, c.delegate);
    assert c == Connection(c.delegate, c.observer);
  }

  /** Removing a key on one end keeps a third end mirrored exactly if they do not share the key. */
  lemma SharedKeysBreakMirrors(a: Observer, cs: seq<Connection>, b: Observer, ds: seq<Connection>, key: Key)
    requires Mirrored(a, cs, b, ds)
    ensures Mirrored(a, cs, b, Without(ds, {key})) <==> Connection(key, b) !in cs
  {
    forall k ensures Connection(k, a) in Without(ds, {key}) <==> Connection(k, a) in ds && k != key {
      WithoutMembers(ds, {key}, Connection(k, a));
    }
  }

  /** Two signals connected to one slot under the same key. Disconnecting the first also makes the
      slot forget the second, which still remembers the slot. */
  method DisconnectOneOfTwo(key: Key) returns (first: Observer, second: Observer, slot: Observer)
    ensures fresh({first, second, slot}) && first != second && second != slot && first != slot
    ensures first.connections == [] && slot.connections == []
    ensures second.connections == [Connection(key, slot)]
    ensures !Mirrored(second, second.connections, slot, slot.connections)
  {
    first, second, slot := ConnectTwo(key);
    OnlyKey(first.connections, slot);
    WithoutKeepsOrDrops(slot.connections, {key});
    first.DisconnectAll();
    assert Connection(key, slot) in second.connections;
  }

  method ConnectTwo(key: Key) returns (first: Observer, second: Observer, slot: Observer)
    ensures fresh({first, second, slot}) && first != second && second != slot && first != slot
    ensures first.Valid() && second.Valid() && slot.Valid()
    ensures first.connections == second.connections == [Connection(key, slot)]
    ensures slot.connections == [Connection(key, first), Connection(key, second)]
    ensures Mirrored(second, second.connections, slot, slot.connections)
  {
    hide Sorted, UpperBound;
    first := new Observer();
    second := new Observer();
    slot := new Observer();
    EqualKeysGoBehind(key, first);
    first.Insert(key, slot);
    slot.Insert(key, first);
    assert slot.connections == [Connection(key, first)];
    second.Insert(key, slot);
    slot.Insert(key, second);
    assert slot.connections == [Connection(key, first), Connection(key, second)];
  }

  lemma EqualKeysGoBehind(key: Key, o: Observer)
    ensures UpperBound([], key) == 0 && UpperBound([Connection(key, o)], key) == 1
  {
    ZOrderIsStrictTotal(key, key, key);
    assert [Connection(key, o)][1..] == [];
  }

  lemma OnlyKey(cs: seq<Connection>, o: Observer)
    requires |cs| == 1 && cs[0].observer == o
    ensures KeysTo(cs, o) == {cs[0].delegate}
  {
    assert cs == [cs[0]];
  }
}
