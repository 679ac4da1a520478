/** The order API controller: the entity-to-DTO mapping and count wrapper of the v2 endpoint,
    and the in-memory regrouping of flat join rows of the v6 endpoint. */
module OrderApiController {
  import opened Nullable
  import opened Grouping
  import opened Domain
  import opened QueryDtos

  /** An item line as the API returns it. */
  datatype OrderItemDto = OrderItemDto(itemName: string, orderPrice: int, count: int)

  /** An order as the API returns it. */
  datatype OrderDto = OrderDto(
    orderId: int,
    name: string,
    orderDate: LocalDateTime,
    orderStatus: OrderStatus,
    address: Address,
    orderItems: seq<OrderItemDto>)

  /** The response wrapper: a count next to the data. */
  datatype Result<T> = Result(count: int, data: T)

  /** `new OrderItemDto(orderItem)`. */
  function NewOrderItemDto(oi: OrderItem): OrderItemDto
  {
    OrderItemDto(oi.item.name, oi.orderPrice, oi.count)
  }

  /** `new OrderDto(order)`: the header comes from the order, its member and its delivery;
      the item lines are converted one by one, keeping their number and order. */
  function NewOrderDto(o: Order): (d: OrderDto)
    ensures d.orderId == o.id && d.name == o.member.name && d.orderDate == o.orderDate
    ensures d.orderStatus == o.status && d.address == o.delivery.address
    ensures |d.orderItems| == |o.orderItems|
    ensures forall i :: 0 <= i < |o.orderItems| ==>
              && d.orderItems[i].itemName == o.orderItems[i].item.name
              && d.orderItems[i].orderPrice == o.orderItems[i].orderPrice
              && d.orderItems[i].count == o.orderItems[i].count
  {
    OrderDto(o.id, o.member.name, o.orderDate, o.status, o.delivery.address,
             MapSeq(NewOrderItemDto, o.orderItems))
  }

  /** `ordersV2`: every order converted, in order, wrapped with the size of the list. */
  function OrdersV2(orders: seq<Order>): (r: Result<seq<OrderDto>>)
    ensures r.count == |r.data| == |orders|
    ensures forall i :: 0 <= i < |orders| ==> r.data[i] == NewOrderDto(orders[i])
  {
    var collect := MapSeq(NewOrderDto, orders);
    Result(|collect|, collect)
  }

  /** The `mapping` collector of `orderV6`: a flat row seen as an item line of its order. */
  function FlatToItem(f: OrderFlatDto): OrderItemQueryDto
  {
    OrderItemQueryDto(f.orderId, f.itemName, f.orderPrice, f.count)
  }

  /** The `groupingBy` key of `orderV6`: the order header of a flat row. */
  function FlatToKey(f: OrderFlatDto): OrderQueryDto
  {
    NewOrderQueryDto(f.orderId, f.name, f.orderDate, f.orderStatus, f.address)
  }

  /** The entries of the grouped map streamed along `ks`, each turned into an order whose
      header is the key kept by the map (that of the group's first row) and whose items are
      the group's rows mapped to item lines. */
  function GroupsToOrders(groups: map<int, seq<OrderFlatDto>>, ks: seq<int>): (r: seq<OrderQueryDto>)
    requires forall i :: 0 <= i < |ks| ==> ks[i] in groups && groups[ks[i]] != []
    ensures |r| == |ks|
    ensures forall i :: 0 <= i < |ks| ==>
              && SameHeader(r[i], FlatToKey(groups[ks[i]][0]))
              && r[i].orderItems == Some(MapSeq(FlatToItem, groups[ks[i]]))
  {
    if ks == [] then []
    else
      var k := ks[|ks| - 1];
      var key := FlatToKey(groups[k][0]);
      GroupsToOrders(groups, ks[..|ks| - 1])
      + [key.(orderItems := Some(MapSeq(FlatToItem, groups[k])))]
  }

  /** `orderV6`: the flat join rows grouped by order and reshaped into one order per group.
      `iteration` is the order in which the grouped hash map hands out its entries, which the
      program does not fix: any listing of the distinct order ids, each once. */
  function OrderV6(flats: seq<OrderFlatDto>, iteration: seq<int>): (r: seq<OrderQueryDto>)
    requires Enumerates(iteration, KeysOf(flats, FlatOrderId))
    ensures |r| == |iteration|
    ensures forall i :: 0 <= i < |r| ==> r[i].orderId == iteration[i]
    ensures forall i :: 0 <= i < |r| ==>
              && Select(flats, FlatOrderId, r[i].orderId) != []
              && SameHeader(r[i], FlatToKey(Select(flats, FlatOrderId, r[i].orderId)[0]))
    ensures forall i :: 0 <= i < |r| ==>
              r[i].orderItems == Some(MapSeq(FlatToItem, Select(flats, FlatOrderId, r[i].orderId)))
  {
    var groups := GroupBy(flats, FlatOrderId);
    GroupsToOrders(groups, iteration)
  }

  /** There is one output order per distinct order id among the rows. */
  lemma {:induction false} OrderV6Count(flats: seq<OrderFlatDto>, iteration: seq<int>)
    requires Enumerates(iteration, KeysOf(flats, FlatOrderId))
    ensures |OrderV6(flats, iteration)| == |KeysOf(flats, FlatOrderId)|
  {
    EnumerationSize(iteration, KeysOf(flats, FlatOrderId));
  }

  /** Each output order has as many items as there are rows with its order id. */
  lemma {:induction false} OrderV6ItemCount(flats: seq<OrderFlatDto>, iteration: seq<int>)
    requires Enumerates(iteration, KeysOf(flats, FlatOrderId))
    ensures forall i :: 0 <= i < |iteration| ==>
              |ItemsOrEmpty(OrderV6(flats, iteration)[i])|
              == multiset(MapSeq(FlatOrderId, flats))[OrderV6(flats, iteration)[i].orderId]
  {
    var r := OrderV6(flats, iteration);
    forall i | 0 <= i < |iteration|
      ensures |ItemsOrEmpty(r[i])| == multiset(MapSeq(FlatOrderId, flats))[r[i].orderId]
    {
      SelectCount(flats, FlatOrderId, r[i].orderId);
    }
  }

  /** The `j`-th item of an output order is built from the `j`-th row carrying that order's
      id, counting rows in their original order; so each item carries its row's order id,
      item name, price and count, and items keep the relative order of their rows. */
  lemma {:induction false} OrderV6ItemsFollowRows(flats: seq<OrderFlatDto>, iteration: seq<int>)
    requires Enumerates(iteration, KeysOf(flats, FlatOrderId))
    ensures forall i :: 0 <= i < |iteration| ==>
              |ItemsOrEmpty(OrderV6(flats, iteration)[i])|
              == |Positions(flats, FlatOrderId, iteration[i])|
    ensures forall i, j :: 0 <= i < |iteration| && 0 <= j < |ItemsOrEmpty(OrderV6(flats, iteration)[i])| ==>
              var row := flats[Positions(flats, FlatOrderId, iteration[i])[j]];
              var item := ItemsOrEmpty(OrderV6(flats, iteration)[i])[j];
              && item.orderId == row.orderId == OrderV6(flats, iteration)[i].orderId
              && item.itemName == row.itemName
              && item.orderPrice == row.orderPrice
              && item.count == row.count
  {
    var r := OrderV6(flats, iteration);
    forall i | 0 <= i < |iteration|
      ensures |ItemsOrEmpty(r[i])| == |Positions(flats, FlatOrderId, iteration[i])|
      ensures forall j :: 0 <= j < |ItemsOrEmpty(r[i])| ==>
                ItemsOrEmpty(r[i])[j] == FlatToItem(flats[Positions(flats, FlatOrderId, iteration[i])[j]])
    {
      SelectInOrder(flats, FlatOrderId, iteration[i]);
    }
  }

  /** No row is lost or duplicated: the item lists of all output orders, concatenated, are a
      permutation of the rows mapped to item lines, so their lengths add up to the number of
      rows. */
  lemma {:induction false} OrderV6KeepsEveryRow(flats: seq<OrderFlatDto>, iteration: seq<int>)
    requires Enumerates(iteration, KeysOf(flats, FlatOrderId))
    ensures multiset(Flatten(MapSeq(ItemsOrEmpty, OrderV6(flats, iteration))))
            == multiset(MapSeq(FlatToItem, flats))
    ensures |Flatten(MapSeq(ItemsOrEmpty, OrderV6(flats, iteration)))| == |flats|
  {
    var groups := GroupBy(flats, FlatOrderId);
    var rowGroups := ValuesAlong(groups, iteration);
    var itemLists := MapSeq(ItemsOrEmpty, OrderV6(flats, iteration));
    FlattenMapSeq(FlatToItem, rowGroups, itemLists);
    GroupByPartitions(flats, FlatOrderId, iteration);
    MapSeqPermutation(FlatToItem, Flatten(rowGroups), flats);
    assert |multiset(Flatten(itemLists))| == |multiset(MapSeq(FlatToItem, flats))|;
  }

  /** Rows are header-consistent when rows of the same order agree on the whole header, as
      rows of one join row set do. */
  predicate HeaderConsistent(flats: seq<OrderFlatDto>)
  {
    forall i, j :: 0 <= i < |flats| && 0 <= j < |flats| && flats[i].orderId == flats[j].orderId
      ==> FlatToKey(flats[i]) == FlatToKey(flats[j])
  }

  /** On header-consistent rows it does not matter whether the grouping key compares the
      order id alone or the whole five-field header: every row lands in the same group. */
  lemma {:induction false} GroupKeyChoice(flats: seq<OrderFlatDto>, f: OrderFlatDto)
    requires HeaderConsistent(flats)
    requires f in flats
    ensures Select(flats, FlatToKey, FlatToKey(f)) == Select(flats, FlatOrderId, f.orderId)
  {
    var n :| 0 <= n < |flats| && flats[n] == f;
    forall i | 0 <= i < |flats|
      ensures FlatToKey(flats[i]) == FlatToKey(f) <==> FlatOrderId(flats[i]) == f.orderId
    {
      if flats[i].orderId == f.orderId {
        assert FlatToKey(flats[i]) == FlatToKey(flats[n]);
      }
    }
    SelectAgree(flats, FlatToKey, FlatToKey(f), FlatOrderId, f.orderId);
  }
}
