/** The value types and constants of the matcher (matcher.h). */
module MatcherTypes {
  datatype Option<+T> = None | Some(value: T)

  const U64_COUNT: int := 0x1_0000_0000_0000_0000
  const SIZE_MAX: int := U64_COUNT - 1
  const INT64_MAX: int := 0x7FFF_FFFF_FFFF_FFFF

  /** The value of a best-price hint that is not set. */
  const INVALID_BEST: int := SIZE_MAX

  /** The null node pointer. */
  const NULL: int := -1

  /** An order: lots are positive for a buy, negative for a sell. */
  datatype Order = Order(id: nat, lots: int)

  datatype Result = Filled | PartiallyFilled | Resting | Rejected | NotFound | Cancelled

  datatype MessageResponse = MessageResponse(order: Option<Order>, result: Result)

  /** The order type is an enumeration over one byte; any byte can arrive. */
  type OrderType = x: int | 0 <= x < 256
  const BUY: OrderType := 0
  const BUY_LIMIT: OrderType := 1
  const SELL: OrderType := 2
  const SELL_LIMIT: OrderType := 3

  datatype Request =
    | NewOrder(msgId: nat, order: Order, orderType: OrderType, instrumentId: nat, limit: nat, stop: nat)
    | CancelOrder(msgId: nat, toCancel: nat, instrumentId: nat)
  {
    predicate IsMarket() {
      NewOrder? && order.lots != 0 && (orderType == BUY || orderType == SELL)
    }

    predicate IsLimit() {
      NewOrder? && order.lots != 0 && (orderType == BUY_LIMIT || orderType == SELL_LIMIT)
    }
  }

  /** The sizes an exchange is built with: price levels, nodes per level, largest order id, ring slots. */
  datatype Config = Config(levels: nat, perLevel: nat, maxId: nat, ring: nat) {
    predicate Ok() {
      0 < levels < SIZE_MAX && 0 < perLevel && 0 < ring
    }
  }

  /** The sizes of the source. */
  const SOURCE_CONFIG: Config := Config(128, 8192, 20_000_000, 2048)
}
