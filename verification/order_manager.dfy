/** The order manager: live orders by Id, stored in reusable slots of a pool. */
module Trader {
  import opened Domain
  import opened Registry
  import Counting

  /** A handle on one slot of the pool; it stands for the source's `Order*`. */
  type Slot = nat

  /** Registers and manages orders. Not thread-safe: every method runs to the end
      on its caller's thread. */
  class OrderManager {
    /** The public view: every live order under its Id. */
    ghost var Orders: Book

    /** The pool's storage; its length is the pool's high-water mark. A slot that is
        not live holds whatever its last occupant left. */
    var slots: seq<Order>
    /** The pool's free list, a stack whose top is its last element. */
    var free: seq<Slot>
    /** The Id index (the hash map from Id to the order's slot). */
    var index: map<uint64, Slot>

    ghost predicate Valid()
      reads this
    {
      Pooled(slots, free, index) && Represents(slots, index, Orders)
    }

    constructor ()
      ensures Valid()
      ensures Orders == map[]
      ensures slots == [] && free == []
    {
      Orders := map[];
      slots := [];
      free := [];
      index := map[];
    }

    /** Is the order manager empty? */
    function Empty(): (r: bool)
      reads this
      requires Valid()
      ensures r <==> Orders == map[]
    {
      |index| == 0
    }

    /** The number of registered orders. */
    function Size(): (r: nat)
      reads this
      requires Valid()
      ensures r == |Orders|
      ensures r == 0 <==> Empty()
    {
      assert Orders.Keys == index.Keys;
      |index|
    }

    /** `operator bool`: is the order manager not empty? */
    function NotEmpty(): (r: bool)
      reads this
      requires Valid()
      ensures r == !Empty()
      ensures r <==> exists id :: id in Orders
    {
      !Empty()
    }

    /** The slot of the order with the given Id, or `None` (the source's `nullptr`). */
    function GetOrder(id: uint64): (r: Option<Slot>)
      reads this
      requires Valid()
      ensures r.Some? <==> id in Orders
      ensures r.Some? ==> r.value < |slots| && slots[r.value] == Orders[id] && slots[r.value].Id == id
    {
      if id in index then Some(index[id]) else None
    }

    /** `operator[]`: the same as `GetOrder`. */
    function Subscript(id: uint64): (r: Option<Slot>)
      reads this
      requires Valid()
      ensures r == GetOrder(id)
      ensures r.Some? <==> id in Orders
    {
      GetOrder(id)
    }

    /** The number of slots on the free list. */
    function FreeSlots(): nat
      reads this
    {
      |free|
    }

    /** The number of slots the pool has ever handed out: its high-water mark. */
    function Capacity(): nat
      reads this
    {
      |slots|
    }

    /** Adds a new order, whose Id must not be registered, and returns its slot.
        A slot from the free list is reused when there is one; only otherwise does
        the pool grow. */
    method AddOrder(order: Order) returns (p: Slot)
      requires Valid()
      requires order.Id !in Orders
      modifies this
      ensures Valid()
      ensures Orders == Insert(old(Orders), order)
      ensures GetOrder(order.Id) == Some(p) && slots[p] == order
      ensures Capacity() == if old(FreeSlots()) > 0 then old(Capacity()) else old(Capacity()) + 1
      ensures old(FreeSlots()) > 0 ==> p == old(free[|free| - 1]) && free == old(free[..|free| - 1])
      ensures forall k :: k in old(index) ==> k in index && index[k] == old(index[k])
    {
      if |free| > 0 {
        p := free[|free| - 1];
        free := free[..|free| - 1];
        slots := slots[p := order];
        index := index[order.Id := p];
        Orders := Insert(Orders, order);
        AddFromFreeListKeeps(old(slots), old(free), old(index), old(Orders), order, slots, free, index, Orders);
      } else {
        p := |slots|;
        slots := slots + [order];
        index := index[order.Id := p];
        Orders := Insert(Orders, order);
        AddGrowingKeeps(old(slots), old(free), old(index), old(Orders), order, slots, free, index, Orders);
      }
    }

    /** Replaces the order `id` by a similar order with a different Id, price and
        quantity, in the same slot, and returns that slot. The new Id must be `id`
        or unregistered. */
    method ReplaceOrder(id: uint64, newId: uint64, newPrice: uint64, newQuantity: uint64) returns (p: Slot)
      requires Valid()
      requires id in Orders
      requires newId == id || newId !in Orders
      modifies this
      ensures Valid()
      ensures Orders == Rekey(old(Orders), id, newId, newPrice, newQuantity)
      ensures p == old(index[id])
      ensures GetOrder(newId) == Some(p)
      ensures slots[p] == Similar(old(Orders[id]), newId, newPrice, newQuantity)
      ensures Capacity() == old(Capacity()) && free == old(free)
      ensures forall k :: k in old(index) && k != id ==> k in index && index[k] == old(index[k])
    {
      p := index[id];
      var order := Similar(slots[p], newId, newPrice, newQuantity);
      slots := slots[p := order];
      index := (index - {id})[newId := p];
      Orders := Rekey(Orders, id, newId, newPrice, newQuantity);
      OverwriteKeeps(old(slots), old(free), old(index), old(Orders), id, order, slots, free, index, Orders);
    }

    /** Replaces the order `id` by `newOrder`, in the same slot, and returns that slot.
        The new order's Id must be `id` or unregistered. */
    method ReplaceOrderWith(id: uint64, newOrder: Order) returns (p: Slot)
      requires Valid()
      requires id in Orders
      requires newOrder.Id == id || newOrder.Id !in Orders
      modifies this
      ensures Valid()
      ensures Orders == Overwrite(old(Orders), id, newOrder)
      ensures p == old(index[id])
      ensures GetOrder(newOrder.Id) == Some(p) && slots[p] == newOrder
      ensures Capacity() == old(Capacity()) && free == old(free)
      ensures forall k :: k in old(index) && k != id ==> k in index && index[k] == old(index[k])
    {
      p := index[id];
      slots := slots[p := newOrder];
      index := (index - {id})[newOrder.Id := p];
      Orders := Overwrite(Orders, id, newOrder);
      OverwriteKeeps(old(slots), old(free), old(index), old(Orders), id, newOrder, slots, free, index, Orders);
    }

    /** Deletes the order `id`, if there is one, and returns its slot to the free list. */
    method DeleteOrder(id: uint64)
      requires Valid()
      modifies this
      ensures Valid()
      ensures Orders == Remove(old(Orders), id)
      ensures GetOrder(id) == None
      ensures Capacity() == old(Capacity())
      ensures free == if id in old(Orders) then old(free) + [old(index[id])] else old(free)
      ensures forall k :: k in old(index) && k != id ==> k in index && index[k] == old(index[k])
      ensures slots == old(slots)
      ensures id !in old(Orders) ==> index == old(index)
    {
      if id in index {
        var p := index[id];
        index := index - {id};
        free := free + [p];
        Orders := Remove(Orders, id);
        RemoveKeeps(old(slots), old(free), old(index), old(Orders), id, slots, free, index, Orders);
      }
    }

    /** No slot is lost: the pool has handed out as many slots as there are live orders
        and free slots, and each of its slots holds a live order or is on the free list. */
    lemma NoLeakedSlot()
      requires Valid()
      ensures Capacity() == |Orders| + FreeSlots()
      ensures forall s: Slot :: s < Capacity() ==> s in index.Values || s in free
    {
      assert Orders.Keys == index.Keys;
      var live := index.Values;
      var freed := set i | 0 <= i < |free| :: free[i];
      Counting.InjectiveValues(index);
      Counting.DistinctElements(free);
      assert live !! freed;
      Counting.FullRange(live + freed, |slots|);
    }
  }

  /** Deleting an order and then adding one takes no new slot from the pool: the add
      reuses the slot the delete gave back. */
  method DeleteThenAdd(m: OrderManager, id: uint64, order: Order) returns (p: Slot)
    requires m.Valid()
    requires id in m.Orders
    requires order.Id == id || order.Id !in m.Orders
    modifies m
    ensures m.Valid()
    ensures m.Orders == Insert(Remove(old(m.Orders), id), order)
    ensures p == old(m.index[id])
    ensures m.Capacity() == old(m.Capacity())
  {
    m.DeleteOrder(id);
    p := m.AddOrder(order);
  }

  /** An order's life: added, replaced under a new Id with a new price and quantity,
      then deleted, after which the manager is empty again; a later add reuses the
      freed slot, so the pool still holds one slot. */
  method Lifecycle(details: Details) returns (emptied: bool, capacity: nat)
    ensures emptied
    ensures capacity == 1
  {
    var m := new OrderManager();
    var p := m.AddOrder(Order(1, 100, 10, details));
    assert m.GetOrder(1) == Some(p) && m.Size() == 1;
    assert m.slots[p].Price == 100 && m.slots[p].Quantity == 10;
    var q := m.ReplaceOrder(1, 2, 150, 5);
    assert q == p && m.GetOrder(2) == Some(q) && m.GetOrder(1) == None && m.Size() == 1;
    assert m.slots[q] == Order(2, 150, 5, details);
    m.DeleteOrder(2);
    assert m.GetOrder(2) == None && m.Size() == 0;
    emptied := m.Empty();
    var r := m.AddOrder(Order(3, 120, 7, details));
    assert r == p;
    capacity := m.Capacity();
  }

  /** The pool and the index agree: each live Id has its own slot of the pool, the free
      list holds other slots of the pool, each once, and every slot is counted once. */
  ghost predicate Pooled(slots: seq<Order>, free: seq<Slot>, index: map<uint64, Slot>) {
    && (forall id :: id in index ==> index[id] < |slots|)
    && Counting.Injective(index)
    && (forall i :: 0 <= i < |free| ==> free[i] < |slots|)
    && Counting.Distinct(free)
    && (forall i, id :: 0 <= i < |free| && id in index ==> free[i] != index[id])
    && |index| + |free| == |slots|
  }

  /** The book holds exactly the orders in the slots the index leads to. */
  ghost predicate Represents(slots: seq<Order>, index: map<uint64, Slot>, orders: Book) {
    && (forall id :: id in orders <==> id in index)
    && (forall id :: id in index ==> index[id] < |slots| && orders[id] == slots[index[id]])
    && WellKeyed(orders)
  }

  /** An add that takes the slot on top of the free list keeps the pool and the book in step. */
  lemma AddFromFreeListKeeps(slots: seq<Order>, free: seq<Slot>, index: map<uint64, Slot>, orders: Book, order: Order,
                             slots': seq<Order>, free': seq<Slot>, index': map<uint64, Slot>, orders': Book)
    requires Pooled(slots, free, index) && Represents(slots, index, orders)
    requires order.Id !in orders
    requires |free| > 0
    requires slots' == slots[free[|free| - 1] := order] && free' == free[..|free| - 1]
    requires index' == index[order.Id := free[|free| - 1]]
    requires orders' == Insert(orders, order)
    ensures Pooled(slots', free', index') && Represents(slots', index', orders')
  {
    var p := free[|free| - 1];
    PopPooled(slots, free, index, order);
    StoreRepresents(slots, slots', index, orders, order, p);
  }

  lemma PopPooled(slots: seq<Order>, free: seq<Slot>, index: map<uint64, Slot>, order: Order)
    requires Pooled(slots, free, index)
    requires order.Id !in index
    requires |free| > 0
    ensures var p := free[|free| - 1];
            Pooled(slots[p := order], free[..|free| - 1], index[order.Id := p])
  {
    var p := free[|free| - 1];
    var free' := free[..|free| - 1];
    var index' := index[order.Id := p];
    assert forall i :: 0 <= i < |free'| ==> free'[i] == free[i] && free[i] != p;
    assert forall k :: k in index' ==> k == order.Id || (k in index && index'[k] == index[k]);
  }

  /** An add that grows the pool by one slot keeps the pool and the book in step. */
  lemma AddGrowingKeeps(slots: seq<Order>, free: seq<Slot>, index: map<uint64, Slot>, orders: Book, order: Order,
                        slots': seq<Order>, free': seq<Slot>, index': map<uint64, Slot>, orders': Book)
    requires Pooled(slots, free, index) && Represents(slots, index, orders)
    requires order.Id !in orders
    requires slots' == slots + [order] && free' == free
    requires index' == index[order.Id := |slots|]
    requires orders' == Insert(orders, order)
    ensures Pooled(slots', free', index') && Represents(slots', index', orders')
  {
    GrowPooled(slots, free, index, order);
    StoreRepresents(slots, slots', index, orders, order, |slots|);
  }

  lemma GrowPooled(slots: seq<Order>, free: seq<Slot>, index: map<uint64, Slot>, order: Order)
    requires Pooled(slots, free, index)
    requires order.Id !in index
    ensures Pooled(slots + [order], free, index[order.Id := |slots|])
  {
    var index' := index[order.Id := |slots|];
    assert forall k :: k in index' ==> k == order.Id || (k in index && index'[k] == index[k]);
  }

  /** Storing `order` in slot `p`, which no live Id uses, and filing it under its Id
      keeps the book in step with an index and a pool that do the same. */
  lemma StoreRepresents(slots: seq<Order>, slots': seq<Order>, index: map<uint64, Slot>, orders: Book, order: Order, p: Slot)
    requires Represents(slots, index, orders)
    requires order.Id !in orders
    requires forall id :: id in index ==> index[id] != p
    requires |slots| <= |slots'| && p < |slots'| && slots'[p] == order
    requires forall i :: 0 <= i < |slots| && i != p ==> slots'[i] == slots[i]
    ensures Represents(slots', index[order.Id := p], Insert(orders, order))
  {
    var index' := index[order.Id := p];
    var orders' := Insert(orders, order);
    forall id | id in index'
      ensures index'[id] < |slots'| && orders'[id] == slots'[index'[id]]
    {
      if id != order.Id {
        assert index'[id] == index[id] && orders'[id] == orders[id];
      }
    }
  }

  /** A replace keeps the pool and the book in step: the slot of `id` now holds `order`,
      filed under `order.Id`. */
  lemma OverwriteKeeps(slots: seq<Order>, free: seq<Slot>, index: map<uint64, Slot>, orders: Book, id: uint64, order: Order,
                       slots': seq<Order>, free': seq<Slot>, index': map<uint64, Slot>, orders': Book)
    requires Pooled(slots, free, index) && Represents(slots, index, orders)
    requires id in orders
    requires order.Id == id || order.Id !in orders
    requires slots' == slots[index[id] := order] && free' == free
    requires index' == (index - {id})[order.Id := index[id]]
    requires orders' == Overwrite(orders, id, order)
    ensures Pooled(slots', free', index') && Represents(slots', index', orders')
  {
    OverwritePooled(slots, free, index, id, order);
    OverwriteRepresents(slots, index, orders, id, order);
  }

  lemma OverwritePooled(slots: seq<Order>, free: seq<Slot>, index: map<uint64, Slot>, id: uint64, order: Order)
    requires Pooled(slots, free, index)
    requires id in index
    requires order.Id == id || order.Id !in index
    ensures Pooled(slots[index[id] := order], free, (index - {id})[order.Id := index[id]])
  {
    var p := index[id];
    var index' := (index - {id})[order.Id := p];
    assert forall k :: k in index' ==> k == order.Id || (k != id && k in index && index'[k] == index[k]);
    assert |index'| == |index|;
    forall k1, k2 | k1 in index' && k2 in index' && k1 != k2
      ensures index'[k1] != index'[k2]
    {
    }
    forall i, k | 0 <= i < |free| && k in index'
      ensures free[i] != index'[k]
    {
    }
  }

  lemma OverwriteRepresents(slots: seq<Order>, index: map<uint64, Slot>, orders: Book, id: uint64, order: Order)
    requires Represents(slots, index, orders)
    requires Counting.Injective(index)
    requires id in orders
    requires order.Id == id || order.Id !in orders
    ensures var p := index[id];
            Represents(slots[p := order], (index - {id})[order.Id := p], Overwrite(orders, id, order))
  {
    var p := index[id];
    var slots' := slots[p := order];
    var index' := (index - {id})[order.Id := p];
    var orders' := Overwrite(orders, id, order);
    forall k
      ensures k in orders' <==> k in index'
    {
    }
    forall k | k in index'
      ensures index'[k] < |slots'| && orders'[k] == slots'[index'[k]]
    {
      if k != order.Id {
        assert k != id && index'[k] == index[k] != p && orders'[k] == orders[k];
      }
    }
  }

  /** A delete of a live Id keeps the pool and the book in step: its slot goes on the free list. */
  lemma RemoveKeeps(slots: seq<Order>, free: seq<Slot>, index: map<uint64, Slot>, orders: Book, id: uint64,
                    slots': seq<Order>, free': seq<Slot>, index': map<uint64, Slot>, orders': Book)
    requires Pooled(slots, free, index) && Represents(slots, index, orders)
    requires id in orders
    requires slots' == slots && free' == free + [index[id]]
    requires index' == index - {id}
    requires orders' == Remove(orders, id)
    ensures Pooled(slots', free', index') && Represents(slots', index', orders')
  {
    RemovePooled(slots, free, index, id);
  }

  lemma RemovePooled(slots: seq<Order>, free: seq<Slot>, index: map<uint64, Slot>, id: uint64)
    requires Pooled(slots, free, index)
    requires id in index
    ensures Pooled(slots, free + [index[id]], index - {id})
  {
    var free' := free + [index[id]];
    assert forall i :: 0 <= i < |free| ==> free'[i] == free[i];
    assert forall k :: k in index - {id} ==> k in index && (index - {id})[k] == index[k];
  }
}
