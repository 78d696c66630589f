/** The order record the registry stores, and the integer type of its identifiers. */
module Domain {

  /** A 64-bit unsigned integer, as `uint64_t` in the source. */
  newtype uint64 = x: int | 0 <= x < 0x1_0000_0000_0000_0000

  /** The domain fields of an order that the registry never looks at
      (side, symbol, type, ...); they are only copied along. */
  type Details(==)

  /** An order: its identifier, its price and quantity, and the rest. */
  datatype Order = Order(Id: uint64, Price: uint64, Quantity: uint64, Details: Details)

  /** A value or nothing; `None` stands for the source's `nullptr`. */
  datatype Option<+T> = None | Some(value: T)
}
