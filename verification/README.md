# Order manager model

A Dafny model of the order manager of CppTrader (`CppTrader::OrderManager`). The order manager is the
registry a trading engine uses to track its live orders. It keys each order by its 64-bit unsigned Id.
It supports lookup, size and emptiness queries, add, two kinds of replace, and delete. Its orders live
in slots of a pool, and a slot freed by a delete is reused by a later add.

The project has four modules:

- `Domain` (order.dfy): `uint64`, the `Order` record (`Id`, `Price`, `Quantity` and opaque `Details`
  for the other domain fields), and `Option` (where `None` stands for `nullptr`).
- `Registry` (registry.dfy): the abstract state is a `Book`, a map from Id to order. It gives the effect
  of each operation on that map (`Insert`, `Remove`, `Overwrite`, `Rekey`, `Similar`), with lemmas that
  relate the operations.
- `Counting` (counting.dfy): facts about the sizes of finite sets. They are used to show that the pool
  loses no slot.
- `Trader` (order_manager.dfy): the class `OrderManager`. It has three fields:
  - `slots`: the pool's storage, as a sequence of orders.
  - `free`: the pool's free list, a stack of slot numbers.
  - `index`: the Id index, a map from Id to slot.

  A ghost field `Orders` is the public view. `Valid()` ties the fields together in two parts:
  - `Pooled`: live slots are distinct and not free, free slots are listed once, and live plus free
    slots make up the whole pool.
  - `Represents`: `Orders` is what the index and slots hold, and every order is filed under its own Id.

  Each mutating method says how `Orders` changes, in terms of the `Registry` functions, and what
  happens to the pool.

A pointer `Order*` is modelled as a `Slot`, the number of the slot it points into. The order it points to
is `slots[p]`. A null pointer is `None`.

The C++ overloads `ReplaceOrder(id, new_id, new_price, new_quantity)` and `ReplaceOrder(id, new_order)`
are `ReplaceOrder` and `ReplaceOrderWith` here. `operator bool` is `NotEmpty`, and `operator[]` is
`Subscript`.

## Model

| member | source | states |
|---|---|---|
| `Trader.OrderManager.constructor` | include/trader/order_manager.h:32 | a new order manager is valid and holds no order |
| `Trader.OrderManager.Empty` | include/trader/order_manager.h:46-47 | true exactly when no order is registered |
| `Trader.OrderManager.Size` | include/trader/order_manager.h:49-50 | the number of registered orders; zero exactly when the manager is empty |
| `Trader.OrderManager.NotEmpty` | include/trader/order_manager.h:40-41 | `operator bool` is the negation of `empty()`: true exactly when some order is registered |
| `Trader.OrderManager.GetOrder` | include/trader/order_manager.h:52-57 | a slot exactly when `id` is registered, and that slot holds the order registered under `id`, whose Id is `id`; `None` (nullptr) otherwise; const: a function that changes nothing |
| `Trader.OrderManager.Subscript` | include/trader/order_manager.h:43-44 | `operator[]` gives the same result as `GetOrder` for every Id |
| `Trader.OrderManager.AddOrder` | include/trader/order_manager.h:59-64 | for a fresh Id: the book gains exactly `order` under `order.Id`, `GetOrder(order.Id)` leads to a copy equal to `order`, the size grows by one, other entries are unchanged and every previously registered Id keeps its slot, so earlier pointers stay valid; the pool grows only when its free list is empty |
| `Trader.OrderManager.ReplaceOrder` | include/trader/order_manager.h:65-73 | for a registered `id`: the order becomes its similar order with the new Id, price and quantity and every other field kept; it is found under the new Id in the same slot, the old Id is gone if it differs, every other registered Id keeps its slot, and the size and the pool are unchanged |
| `Trader.OrderManager.ReplaceOrderWith` | include/trader/order_manager.h:74-80 | for a registered `id`: the order is overwritten by `new_order` in the same slot and is found under `new_order.Id`; every other registered Id keeps its slot; the size and the pool are unchanged |
| `Trader.OrderManager.DeleteOrder` | include/trader/order_manager.h:81-85 | afterwards `GetOrder(id)` is null, every other entry is unchanged and keeps its slot, and no slot's contents change; the freed slot goes on the free list; for an absent Id the book, the index, the pool and the free list are all unchanged |
| `Trader.OrderManager.NoLeakedSlot` | include/trader/order_manager.h:88-91 | the pool has handed out exactly as many slots as there are live orders and free slots, and every slot either holds a live order or is on the free list |
| `Trader.DeleteThenAdd` | include/trader/order_manager.h:81-85 | a delete followed by an add reuses the freed slot and does not grow the pool |
| `Trader.Lifecycle` | include/trader/order_manager.h:59-85 | add Id 1, replace it by Id 2 with a new price and quantity, then delete Id 2: each lookup gives what the contracts promise and the manager is empty; a following add reuses the freed slot, so the pool holds one slot |
| `Registry.Similar` | include/trader/order_manager.h:65-73 | the similar order has the new Id, price and quantity and keeps every other field |
| `Registry.Insert` | include/trader/order_manager.h:59-64 | the book after an add: the new order under its Id, every other entry kept, one more entry, and Ids still match their orders |
| `Registry.Remove` | include/trader/order_manager.h:81-85 | the book after a delete: `id` is absent, every other entry is kept, the size drops by one only if `id` was present, and an absent `id` leaves the book as it was |
| `Registry.Overwrite` | include/trader/order_manager.h:74-80 | the book after a whole-order replace: the new order under its Id, the old Id gone if it differs, the others kept, the size unchanged |
| `Registry.Rekey` | include/trader/order_manager.h:65-73 | the book after an Id/price/quantity replace: the similar order under the new Id, the old Id gone if it differs, the others kept, the size unchanged |
| `Registry.RemoveIdempotent` | include/trader/order_manager.h:81-85 | deleting twice has the same effect as deleting once |
| `Registry.InsertThenRemove` | include/trader/order_manager.h:59-85 | deleting a freshly added order gives back the book it was added to |
| `Registry.RekeyRoundTrip` | include/trader/order_manager.h:65-73 | replacing an order under a new Id and then back under the old Id, price and quantity restores the book |
| `Registry.OverwriteSelf` | include/trader/order_manager.h:74-80 | replacing a registered order by itself changes nothing |

## Left out

- `order_manager.inl` (included at include/trader/order_manager.h:96), which holds the bodies of the
  member functions, is not part of this model. The contracts come from the declarations and their doc
  comments.
- `AddOrder` with an Id that is already registered is excluded by a precondition. The declaration does
  not say what happens in that case.
- `ReplaceOrder` and `ReplaceOrderWith` on an Id that is not registered are excluded by a precondition.
  So is a new Id that belongs to another registered order. The declarations do not say what happens in
  either case.
- `ReplaceOrder`, `ReplaceOrderWith`: rewriting the order in its own slot is a design choice of this
  model, because the declarations do not say where the replaced order is stored. A pool with a LIFO free
  list would give the same slot even to a delete followed by an add.
- `DeleteOrder` of an Id that is not registered is modelled as a no-op.
- The destructor (line 35), the deleted copy operations and the defaulted move operations (lines 33-38)
  are left out. They are C++ ownership mechanics with no effect on the registry's contents.
- The internals of `CppCommon::HashMap`, `FastHash`, `PoolAllocator`, `PoolMemoryManager` and
  `DefaultMemoryManager` (lines 14-17, 88-91) are left out. The index is a Dafny `map`, and the pool is a
  growable sequence of slots with a free list. Hash buckets, memory chunks and allocation failure are not
  modelled: the pool never runs out.
- `Trader.OrderManager.Size`: the result is an unbounded `nat`, not a `size_t`. The number of orders
  cannot reach 2^64.
- The fields of an order other than Id, Price and Quantity are an opaque type `Details`, which is only
  copied. The domain type `domain/order.h` is not part of this model.
- Thread safety is left out. The class is single-threaded by design (line 27).
- A pointer returned by one operation stays valid across later operations on other Ids: each mutator
  promises that every other registered Id keeps its slot. A pointer whose own order was deleted or
  re-keyed is not tracked. The model says nothing about what such a stale pointer then points to.
- `AddOrder`, `ReplaceOrder`, `ReplaceOrderWith`: the returned `Order*` is not const, so callers may
  write through it. Writes through the returned pointer are not modelled, because a `Slot` is only a
  number. Filing every order under its own Id (`WellKeyed`, and the `Id` clause of `GetOrder`) assumes
  that no caller changes an order's Id through such a pointer. The source does not promise this.
