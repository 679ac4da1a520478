/** The projections the order query repository builds directly from query rows. */
module QueryDtos {
  import opened Nullable
  import opened Domain

  /** One item line of an order, tagged with the id of its order. */
  datatype OrderItemQueryDto = OrderItemQueryDto(
    orderId: int,
    itemName: string,
    orderPrice: int,
    count: int)

  /** An order with its five header fields and its item list; the list is a Java reference
      and is null until an attach step sets it. */
  datatype OrderQueryDto = OrderQueryDto(
    orderId: int,
    name: string,
    orderDate: LocalDateTime,
    orderStatus: OrderStatus,
    address: Address,
    orderItems: Option<seq<OrderItemQueryDto>>)

  /** One row of the join of orders with their item lines: the order header repeated on
      every item line. */
  datatype OrderFlatDto = OrderFlatDto(
    orderId: int,
    name: string,
    orderDate: LocalDateTime,
    orderStatus: OrderStatus,
    address: Address,
    itemName: string,
    orderPrice: int,
    count: int)

  /** The five-argument constructor: a header whose item list is still null. */
  function NewOrderQueryDto(
    orderId: int, name: string, orderDate: LocalDateTime, orderStatus: OrderStatus, address: Address
  ): OrderQueryDto
  {
    OrderQueryDto(orderId, name, orderDate, orderStatus, address, None)
  }

  /** The grouping keys used by the repository and the controller. */
  function ItemOrderId(oi: OrderItemQueryDto): int { oi.orderId }

  function OrderIdOf(o: OrderQueryDto): int { o.orderId }

  function FlatOrderId(f: OrderFlatDto): int { f.orderId }

  /** Two orders agree on everything but their item lists. */
  predicate SameHeader(a: OrderQueryDto, b: OrderQueryDto)
  {
    && a.orderId == b.orderId
    && a.name == b.name
    && a.orderDate == b.orderDate
    && a.orderStatus == b.orderStatus
    && a.address == b.address
  }

  /** The item lines attached to an order; an order whose list is null has none. */
  function ItemsOrEmpty(o: OrderQueryDto): seq<OrderItemQueryDto>
  {
    if o.orderItems.Some? then o.orderItems.value else []
  }
}
