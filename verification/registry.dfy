/** The registry's abstract state and the effect of each operation on it.
    A book maps every live order's Id to the order. The class in
    order_manager.dfy is proved to change its book exactly as these
    functions say. */
module Registry {
  import opened Domain

  type Book = map<uint64, Order>

  /** Every order is filed under its own Id. */
  ghost predicate WellKeyed(m: Book) {
    forall id :: id in m ==> m[id].Id == id
  }

  /** The "similar order" of a replace: Id, price and quantity are new, every other field is kept. */
  function Similar(o: Order, newId: uint64, newPrice: uint64, newQuantity: uint64): (r: Order)
    ensures r.Id == newId && r.Price == newPrice && r.Quantity == newQuantity
    ensures r.Details == o.Details
  {
    o.(Id := newId, Price := newPrice, Quantity := newQuantity)
  }

  /** Registers `o` under its Id, which must be fresh. */
  function Insert(m: Book, o: Order): (r: Book)
    requires o.Id !in m
    ensures o.Id in r && r[o.Id] == o
    ensures forall id :: id != o.Id ==> (id in r <==> id in m)
    ensures forall id :: id in m ==> id in r && r[id] == m[id]
    ensures |r| == |m| + 1
    ensures WellKeyed(m) ==> WellKeyed(r)
  {
    m[o.Id := o]
  }

  /** Unregisters `id`; nothing happens when `id` is not registered. */
  function Remove(m: Book, id: uint64): (r: Book)
    ensures id !in m ==> r == m
    ensures id !in r
    ensures forall k :: k != id ==> (k in r <==> k in m)
    ensures forall k :: k in r ==> r[k] == m[k]
    ensures |r| == if id in m then |m| - 1 else |m|
    ensures WellKeyed(m) ==> WellKeyed(r)
  {
    m - {id}
  }

  /** Replaces the order `id` by `o` and files it under `o.Id`, which is `id` or free. */
  function Overwrite(m: Book, id: uint64, o: Order): (r: Book)
    requires id in m
    requires o.Id == id || o.Id !in m
    ensures o.Id in r && r[o.Id] == o
    ensures o.Id != id ==> id !in r
    ensures forall k :: k != id && k != o.Id ==> (k in r <==> k in m)
    ensures forall k :: k in m && k != id ==> k in r && r[k] == m[k]
    ensures |r| == |m|
    ensures WellKeyed(m) ==> WellKeyed(r)
  {
    Remove(m, id)[o.Id := o]
  }

  /** Replaces the order `id` by its similar order with a new Id, price and quantity. */
  function Rekey(m: Book, id: uint64, newId: uint64, newPrice: uint64, newQuantity: uint64): (r: Book)
    requires id in m
    requires newId == id || newId !in m
    ensures newId in r && r[newId] == Similar(m[id], newId, newPrice, newQuantity)
    ensures newId != id ==> id !in r
    ensures forall k :: k != id && k != newId ==> (k in r <==> k in m)
    ensures forall k :: k in m && k != id ==> k in r && r[k] == m[k]
    ensures |r| == |m|
    ensures WellKeyed(m) ==> WellKeyed(r)
  {
    Overwrite(m, id, Similar(m[id], newId, newPrice, newQuantity))
  }

  /** Unregistering twice is unregistering once. */
  lemma RemoveIdempotent(m: Book, id: uint64)
    ensures Remove(Remove(m, id), id) == Remove(m, id)
  {
  }

  /** Unregistering a freshly registered order gives back the book it was added to. */
  lemma InsertThenRemove(m: Book, o: Order)
    requires o.Id !in m
    ensures Remove(Insert(m, o), o.Id) == m
  {
  }

  /** Replacing an order by its similar order and back again restores the book. */
  lemma RekeyRoundTrip(m: Book, id: uint64, newId: uint64, newPrice: uint64, newQuantity: uint64)
    requires WellKeyed(m)
    requires id in m
    requires newId == id || newId !in m
    ensures var m' := Rekey(m, id, newId, newPrice, newQuantity);
            newId in m' && (id == newId || id !in m') &&
            Rekey(m', newId, id, m[id].Price, m[id].Quantity) == m
  {
  }

  /** Replacing a registered order by itself leaves the book as it was. */
  lemma OverwriteSelf(m: Book, id: uint64)
    requires WellKeyed(m)
    requires id in m
    ensures Overwrite(m, id, m[id]) == m
  {
  }
}
