/** The persistent entities the order endpoints read, with only the fields the endpoints copy.
    Identifiers are Java `Long`s and prices and counts Java `int`s; since nothing here does
    arithmetic on them they are plain integers. */
module Domain {

  /** The status of an order. */
  datatype OrderStatus = ORDER | CANCEL

  /** An embedded address value. */
  datatype Address = Address(city: string, street: string, zipcode: string)

  /** A `LocalDateTime`; the endpoints only copy it, so an instant stands for it. */
  type LocalDateTime = int

  /** The member who placed an order; the endpoints read only the name. */
  datatype Member = Member(name: string)

  /** The delivery of an order; the endpoints read only its address. */
  datatype Delivery = Delivery(address: Address)

  /** A catalogue item; the endpoints read only its name. */
  datatype Item = Item(name: string)

  /** One line of an order: which item, at what price, how many. */
  datatype OrderItem = OrderItem(item: Item, orderPrice: int, count: int)

  datatype Order = Order(
    id: int,
    member: Member,
    delivery: Delivery,
    orderItems: seq<OrderItem>,
    orderDate: LocalDateTime,
    status: OrderStatus)
}
