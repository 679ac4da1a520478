/** The order query repository: the two ways it attaches item lists to the order rows.

    The database is not modelled. The order query yields `orders` (headers whose item lists
    are still null) and the item-line join yields `table`, every item line in the order the
    database returns them; both item queries below filter that same `table`. */
module OrderQueryRepository {
  import opened Nullable
  import opened Grouping
  import opened QueryDtos

  /** `toOrderIds`: the ids of the orders, position by position. */
  function ToOrderIds(orders: seq<OrderQueryDto>): (orderIds: seq<int>)
    ensures |orderIds| == |orders|
    ensures forall i :: 0 <= i < |orders| ==> orderIds[i] == orders[i].orderId
  {
    MapSeq(OrderIdOf, orders)
  }

  /** `findOrderItems`: the item lines `where oi.order.id = :orderId`. */
  function FindOrderItems(table: seq<OrderItemQueryDto>, orderId: int): (items: seq<OrderItemQueryDto>)
    ensures forall i :: 0 <= i < |items| ==> items[i].orderId == orderId
    ensures |items| == multiset(MapSeq(ItemOrderId, table))[orderId]
  {
    SelectCount(table, ItemOrderId, orderId);
    Select(table, ItemOrderId, orderId)
  }

  /** The `j`-th item line of an order is the `j`-th line of the table that carries the
      order's id: the query keeps exactly those lines, in table order. */
  lemma {:induction false} FindOrderItemsInTableOrder(table: seq<OrderItemQueryDto>, orderId: int)
    ensures |FindOrderItems(table, orderId)| == |Positions(table, ItemOrderId, orderId)|
    ensures forall j :: 0 <= j < |FindOrderItems(table, orderId)| ==>
              FindOrderItems(table, orderId)[j] == table[Positions(table, ItemOrderId, orderId)[j]]
  {
    SelectInOrder(table, ItemOrderId, orderId);
  }

  /** The item lines `where oi.order.id in :orderIds`, in table order. */
  function FindOrderItemsIn(table: seq<OrderItemQueryDto>, orderIds: seq<int>): (fetched: seq<OrderItemQueryDto>)
    ensures forall i :: 0 <= i < |fetched| ==> fetched[i].orderId in orderIds
  {
    if table == [] then []
    else
      var rest := FindOrderItemsIn(table[..|table| - 1], orderIds);
      var oi := table[|table| - 1];
      if oi.orderId in orderIds then rest + [oi] else rest
  }

  /** The `in` filter keeps, for every listed id, exactly that order's item lines, and
      nothing for any other id. */
  lemma {:induction false} FindOrderItemsInSelects(table: seq<OrderItemQueryDto>, orderIds: seq<int>, k: int)
    ensures Select(FindOrderItemsIn(table, orderIds), ItemOrderId, k)
            == if k in orderIds then FindOrderItems(table, k) else []
  {
    if table != [] {
      var init := table[..|table| - 1];
      var oi := table[|table| - 1];
      assert table == init + [oi];
      FindOrderItemsInSelects(init, orderIds, k);
      SelectSnoc(init, oi, ItemOrderId);
      SelectSnoc(FindOrderItemsIn(init, orderIds), oi, ItemOrderId);
    }
  }

  /** `findOrderItemMap`: the fetched item lines grouped by order id. */
  function FindOrderItemMap(table: seq<OrderItemQueryDto>, orderIds: seq<int>): (m: map<int, seq<OrderItemQueryDto>>)
    ensures forall k :: k in m ==> k in orderIds && m[k] != []
    ensures forall k :: k in m ==> forall j :: 0 <= j < |m[k]| ==> m[k][j].orderId == k
    ensures forall k :: k in m ==> m[k] == FindOrderItems(table, k)
    ensures forall k :: k in orderIds && FindOrderItems(table, k) != [] ==> k in m
  {
    var fetched := FindOrderItemsIn(table, orderIds);
    forall k {
      FindOrderItemsInSelects(table, orderIds, k);
    }
    GroupBy(fetched, ItemOrderId)
  }

  /** Across all its keys, the item map holds every fetched item line exactly once. */
  lemma {:induction false} FindOrderItemMapPartitions(table: seq<OrderItemQueryDto>, orderIds: seq<int>, ks: seq<int>)
    requires Enumerates(ks, FindOrderItemMap(table, orderIds).Keys)
    ensures multiset(Flatten(ValuesAlong(FindOrderItemMap(table, orderIds), ks)))
            == multiset(FindOrderItemsIn(table, orderIds))
    ensures |Flatten(ValuesAlong(FindOrderItemMap(table, orderIds), ks))|
            == |FindOrderItemsIn(table, orderIds)|
  {
    GroupByPartitions(FindOrderItemsIn(table, orderIds), ItemOrderId, ks);
  }

  /** `o.setOrderItems(orderItemMap.get(o.getOrderId()))` for every order. */
  function AttachFromMap(orders: seq<OrderQueryDto>, m: map<int, seq<OrderItemQueryDto>>): (r: seq<OrderQueryDto>)
    ensures |r| == |orders|
    ensures forall i :: 0 <= i < |orders| ==> r[i] == orders[i].(orderItems := Get(m, orders[i].orderId))
  {
    if orders == [] then []
    else
      var o := orders[|orders| - 1];
      AttachFromMap(orders[..|orders| - 1], m) + [o.(orderItems := Get(m, o.orderId))]
  }

  /** `findAllByDto_optimization` (the v5 endpoint): one query for the item lines of all
      orders, grouped in memory and attached by order id. The orders come back in the same
      order with the same headers; an order without item lines gets null, not an empty list. */
  function FindAllByDtoOptimization(orders: seq<OrderQueryDto>, table: seq<OrderItemQueryDto>): (r: seq<OrderQueryDto>)
    ensures |r| == |orders|
    ensures forall i :: 0 <= i < |orders| ==> SameHeader(r[i], orders[i])
    ensures forall i :: 0 <= i < |orders| ==>
              r[i].orderItems == if FindOrderItems(table, orders[i].orderId) == [] then None
                                 else Some(FindOrderItems(table, orders[i].orderId))
  {
    var orderIds := ToOrderIds(orders);
    var m := FindOrderItemMap(table, orderIds);
    assert forall i :: 0 <= i < |orders| ==> orders[i].orderId in orderIds;
    AttachFromMap(orders, m)
  }

  /** `findOrderQueryDtos` (the v4 endpoint): one item query per order. Each order keeps its
      header and gets the list of its own item lines, possibly empty. */
  function FindOrderQueryDtos(orders: seq<OrderQueryDto>, table: seq<OrderItemQueryDto>): (r: seq<OrderQueryDto>)
    ensures |r| == |orders|
    ensures forall i :: 0 <= i < |orders| ==> SameHeader(r[i], orders[i])
    ensures forall i :: 0 <= i < |orders| ==> r[i].orderItems == Some(FindOrderItems(table, orders[i].orderId))
  {
    if orders == [] then []
    else
      var o := orders[|orders| - 1];
      FindOrderQueryDtos(orders[..|orders| - 1], table)
      + [o.(orderItems := Some(FindOrderItems(table, o.orderId)))]
  }

  /** The v4 and v5 endpoints return the same orders with the same headers, and attach the
      same item list to every order that has item lines; exactly the orders without item
      lines differ, with an empty list from v4 and null from v5. */
  lemma V4V5Agree(orders: seq<OrderQueryDto>, table: seq<OrderItemQueryDto>)
    ensures |FindOrderQueryDtos(orders, table)| == |FindAllByDtoOptimization(orders, table)|
    ensures forall i :: 0 <= i < |orders| ==>
              SameHeader(FindOrderQueryDtos(orders, table)[i], FindAllByDtoOptimization(orders, table)[i])
    ensures forall i :: 0 <= i < |orders| ==>
              (FindAllByDtoOptimization(orders, table)[i].orderItems
                 == FindOrderQueryDtos(orders, table)[i].orderItems
               <==> FindOrderQueryDtos(orders, table)[i].orderItems != Some([]))
    ensures forall i :: 0 <= i < |orders| ==>
              (FindAllByDtoOptimization(orders, table)[i].orderItems == None
               <==> FindOrderQueryDtos(orders, table)[i].orderItems == Some([]))
  {
  }
}
