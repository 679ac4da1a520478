# Order query regrouping, modelled in Dafny

The JPAApi demo backend serves one order list several ways. Most of those ways are object-relational
mapping glue. Four of them do real work in memory, and this project models those four as pure functions over
sequences and maps:

- **v2 (`ordersV2`)** copies each `Order` entity into an `OrderDto` with its `OrderItemDto`s. It wraps
  the list in `Result(count, data)`, where `count` is the list's size.
- **v4 (`findOrderQueryDtos`)** reads the order headers. Then, for each order, it queries the item lines
  `where oi.order.id = :orderId` and attaches that list.
- **v5 (`findAllByDto_optimization`)** collects the order ids (`toOrderIds`). It fetches every item line
  `where oi.order.id in :orderIds` in one query and groups them by order id (`findOrderItemMap`). Each
  order then gets `map.get(orderId)`, which is null when the order has no item lines.
- **v6 (`orderV6`)** takes the flat join rows (order header plus one item line each). It groups them
  by order with `Collectors.groupingBy`, maps each row to an item line, and turns each group into
  one order carrying its items.

The database is not modelled. The order query is an input sequence of `OrderQueryDto` headers
whose item list is still null. The item-line join is an input sequence `table` of `OrderItemQueryDto`s,
in the order the database returns them. The v4 and v5 item queries are filters over that same
`table`. For v6, the flat query's result is an input sequence of `OrderFlatDto` rows.

Java `null` for an item list is `Option.None`. `groupingBy` is `Grouping.GroupBy`: a map from each
key that occurs to the subsequence of elements with that key, in encounter order (`Grouping.Select`). A
`HashMap` streams its entries in an order the program does not fix. `orderV6` therefore takes that
order as a parameter `iteration`, which may be any listing of the distinct order ids, each listed once.
Every property below is proved for every such order.

The model does not depend on the definition of `OrderQueryDto`. It assumes that `OrderQueryDto`
equality compares `orderId`, as `@EqualsAndHashCode(of = "orderId")` would, so the model groups v6
rows by order id. Each group's header is taken from the group's first row, because `groupingBy`
keeps the first key it inserts. `OrderApiController.GroupKeyChoice` shows that comparing the whole
five-field header instead puts every row in the same group, provided rows of one order agree on
their header, as rows of a single join do. The entities `Order`, `OrderItem`, `Item`, `Member`,
`Delivery`, `Address` and `OrderStatus` carry only the fields the endpoints copy, and every
reference among them is present (see "## Left out" for null references).

Files: `nullable.dfy` (null and `Map.get`), `grouping.dfy` (`groupingBy`, `map`, their lemmas),
`domain.dfy` (entities), `query_dtos.dfy` (query projections), `order_query_repository.dfy`
(v4, v5), `order_api_controller.dfy` (v2, v6).

## Model

| member | source | states |
|---|---|---|
| Grouping.GroupBy | jpaapi/src/main/java/jpabook/jpaApi/repository/order/query/OrderQueryRepository.java:60-61 | the grouped map has exactly the keys that occur among the elements, and the list under each key is the subsequence of elements with that key, in encounter order |
| Grouping.Select | jpaapi/src/main/java/jpabook/jpaApi/api/OrderApiController.java:102-106 | a group holds only elements with its key, is no longer than the input, and is non-empty exactly when its key occurs |
| Grouping.SelectInOrder | jpaapi/src/main/java/jpabook/jpaApi/api/OrderApiController.java:99-106 | the j-th element of a group is the input element at the j-th increasing position carrying that key: a group is exactly the elements with its key, in their original relative order |
| Grouping.SelectCount | jpaapi/src/main/java/jpabook/jpaApi/api/OrderApiController.java:99-106 | a group's length equals the number of occurrences of its key in the key column |
| Grouping.GroupByPartitions | jpaapi/src/main/java/jpabook/jpaApi/repository/order/query/OrderQueryRepository.java:60-61 | listed in any iteration order of the keys, the concatenated groups are a permutation of the input, so their lengths add up to the input length |
| Grouping.SelectAgree | jpaapi/src/main/java/jpabook/jpaApi/api/OrderApiController.java:102-104 | two grouping keys that single out the same elements yield the same group |
| OrderQueryRepository.ToOrderIds | jpaapi/src/main/java/jpabook/jpaApi/repository/order/query/OrderQueryRepository.java:46-49 | the id list has one entry per order, and entry i is the id of order i |
| OrderQueryRepository.FindOrderItems | jpaapi/src/main/java/jpabook/jpaApi/repository/order/query/OrderQueryRepository.java:65-73 | every item line returned carries the requested order id, and as many are returned as the table holds for that id |
| OrderQueryRepository.FindOrderItemsInTableOrder | jpaapi/src/main/java/jpabook/jpaApi/repository/order/query/OrderQueryRepository.java:65-73 | the order's item lines are exactly the table's lines with that id, in table order |
| OrderQueryRepository.FindOrderItemsIn | jpaapi/src/main/java/jpabook/jpaApi/repository/order/query/OrderQueryRepository.java:51-58 | every fetched line has an order id in the id list |
| OrderQueryRepository.FindOrderItemsInSelects | jpaapi/src/main/java/jpabook/jpaApi/repository/order/query/OrderQueryRepository.java:51-58 | for a listed id the fetched lines with that id are exactly that order's table lines, in table order; an unlisted id has none |
| OrderQueryRepository.FindOrderItemMap | jpaapi/src/main/java/jpabook/jpaApi/repository/order/query/OrderQueryRepository.java:51-63 | every key is a requested id whose list is non-empty and holds only lines with that id; the list is exactly that order's lines; every requested id that has lines is a key |
| OrderQueryRepository.FindOrderItemMapPartitions | jpaapi/src/main/java/jpabook/jpaApi/repository/order/query/OrderQueryRepository.java:60-61 | across all keys the map's lists are a permutation of the fetched lines, and their lengths add up to the number of fetched lines |
| OrderQueryRepository.AttachFromMap | jpaapi/src/main/java/jpabook/jpaApi/repository/order/query/OrderQueryRepository.java:42 | each order, in place, has its item list replaced by the map's value for its id, or null when the id is not a key; nothing else changes |
| OrderQueryRepository.FindAllByDtoOptimization | jpaapi/src/main/java/jpabook/jpaApi/repository/order/query/OrderQueryRepository.java:35-44 | the same orders in the same order with unchanged headers; an order's item list is its own lines when it has any, and null when it has none |
| OrderQueryRepository.FindOrderQueryDtos | jpaapi/src/main/java/jpabook/jpaApi/repository/order/query/OrderQueryRepository.java:26-33 | the same orders in the same order with unchanged headers; each order's item list is its own lines, possibly empty, never null |
| OrderQueryRepository.V4V5Agree | jpaapi/src/main/java/jpabook/jpaApi/repository/order/query/OrderQueryRepository.java:26-44 | v4 and v5 agree on every header and on the item list of every order with lines; they differ exactly on orders without lines: v4 gives an empty list where v5 gives null |
| OrderApiController.NewOrderDto | jpaapi/src/main/java/jpabook/jpaApi/api/OrderApiController.java:126-149 | the DTO copies the order's id, member name, date, status and delivery address; it has as many items as the order, in the same order, each copying item name, price and count |
| OrderApiController.OrdersV2 | jpaapi/src/main/java/jpabook/jpaApi/api/OrderApiController.java:48-53 | the result's count equals the length of its data, which converts every order in order |
| OrderApiController.GroupsToOrders | jpaapi/src/main/java/jpabook/jpaApi/api/OrderApiController.java:108-112 | each streamed entry becomes one order with the key's header and the entry's rows mapped to item lines |
| OrderApiController.OrderV6 | jpaapi/src/main/java/jpabook/jpaApi/api/OrderApiController.java:93-114 | one order per listed id; its header is that of the first row with its id; its items are the rows with its id mapped to item lines, in row order |
| OrderApiController.OrderV6Count | jpaapi/src/main/java/jpabook/jpaApi/api/OrderApiController.java:102-106 | the number of output orders equals the number of distinct order ids among the rows |
| OrderApiController.OrderV6ItemCount | jpaapi/src/main/java/jpabook/jpaApi/api/OrderApiController.java:99-106 | each output order has as many items as there are rows with its order id |
| OrderApiController.OrderV6ItemsFollowRows | jpaapi/src/main/java/jpabook/jpaApi/api/OrderApiController.java:99-106 | the j-th item of an order comes from the j-th row with its id; the item carries that row's order id (equal to the order's), item name, price and count |
| OrderApiController.OrderV6KeepsEveryRow | jpaapi/src/main/java/jpabook/jpaApi/api/OrderApiController.java:99-112 | the concatenated item lists of all output orders are a permutation of the rows mapped to items; their lengths sum to the number of rows |
| OrderApiController.GroupKeyChoice | jpaapi/src/main/java/jpabook/jpaApi/api/OrderApiController.java:102-104 | when rows of one order agree on their header, grouping by the whole header and grouping by the order id give each row the same group |

## Left out

- The JPQL queries, the entity manager, joins, fetch joins, lazy loading and batch fetching are
  foreign calls. Their results are input sequences.
- The v1, v3 and v3.1 endpoints. They differ in their queries: v1 returns the entities themselves,
  v3 fetch-joins the item lines and can repeat an order, and v3.1 pages with offset and limit. The
  in-memory part of v3 and v3.1 is the v2 mapping and wrapper, which `OrderApiController.OrdersV2`
  models.
- Row order from the database. Neither item query has an `order by`, and neither has the order
  query. The model assumes both item queries return matching lines in the order of one shared
  `table`. Without that assumption, v4 and v5 agree only up to a permutation of each order's lines.
  `OrderQueryRepository.V4V5Agree` also compares v4 and v5 on one shared `orders` list, which
  assumes the two order queries return the same orders in the same order. Without it, the two
  endpoints agree only up to a permutation of the orders.
- Inner-join effects of `findAllByDto_flat`. For example, an order with no item lines has no flat
  row, so it is absent from v6. The model starts from whatever rows the query returns.
- An empty id list in the v5 `in :orderIds` query is modelled as selecting nothing. What the
  database does with an empty `in` list is outside the model.
- OrderApiController.OrdersV2: `count` is a Java `int` taken from `List.size()`. The model uses the
  unbounded length. `collect` is the `ArrayList` that `Collectors.toList()` builds, which cannot hold
  more than `Integer.MAX_VALUE` elements, so its `size()` is its exact length.
- OrderApiController.NewOrderDto: an order's member, delivery and item list, and each order
  item's item, are assumed non-null. The Java constructors throw `NullPointerException` otherwise,
  and the v2 request fails; the model's entities have no null references to express that case.
- The entity fields the endpoints do not read, such as ids other than the order's, the delivery
  status, item prices and stock quantities.
- Logging, `System.out` output, Spring annotations and routing.
- The member endpoints, the member service and its duplicate-name check, application bootstrapping
  and the `Book` entity.
