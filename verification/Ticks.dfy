/**
  One price level of the order book.

  The source keeps the open orders of a level in a `BTreeMap` keyed by order id and iterates it in id order.
  Here that map is the sequence of its entries, ids strictly ascending.
 */
module Ticks {
  import opened Wrappers

  type AccountId = nat
  type OrderId = nat

  datatype Order = Order(id: OrderId, owner: AccountId, quantity: nat)

  /** Who was filled, and by how much. */
  datatype Fill = Fill(owner: AccountId, quantity: nat)

  datatype Tick = Tick(openOrders: seq<Order>)

  datatype OrderError = OrderNotExist | NotOwner | Underflow

  // ---------- what a level holds ----------

  ghost predicate Ascending(orders: seq<Order>) {
    forall i, j | 0 <= i < j < |orders| :: orders[i].id < orders[j].id
  }

  /** At most one order has no quantity left, and it is the oldest. */
  ghost predicate Tidy(orders: seq<Order>) {
    forall i | 0 < i < |orders| :: orders[i].quantity > 0
  }

  function Total(orders: seq<Order>): nat {
    if orders == [] then 0 else orders[0].quantity + Total(orders[1..])
  }

  function SumFills(fills: seq<Fill>): nat {
    if fills == [] then 0 else fills[0].quantity + SumFills(fills[1..])
  }

  ghost function Ids(orders: seq<Order>): set<OrderId> {
    set i | 0 <= i < |orders| :: orders[i].id
  }

  // ---------- placing ----------

  /** `BTreeMap::insert`: replaces the entry of `order.id` or adds one in its place. */
  function Placed(orders: seq<Order>, order: Order): seq<Order> {
    if orders == [] || order.id < orders[0].id then [order] + orders
    else if orders[0].id == order.id then [order] + orders[1..]
    else [orders[0]] + Placed(orders[1..], order)
  }

  /** Placing a newer order than all present appends it. */
  lemma {:induction false} PlacedAppends(orders: seq<Order>, order: Order)
    requires forall i | 0 <= i < |orders| :: orders[i].id < order.id
    ensures Placed(orders, order) == orders + [order]
  {
    if orders != [] {
      PlacedAppends(orders[1..], order);
    }
  }

  lemma {:induction false} TotalAppend(s: seq<Order>, t: seq<Order>)
    ensures Total(s + t) == Total(s) + Total(t)
  {
    if s == [] {
      assert s + t == t;
    } else {
      TotalAppend(s[1..], t);
      assert (s + t)[1..] == s[1..] + t;
    }
  }

  lemma {:induction false} SumFillsAppend(s: seq<Fill>, t: seq<Fill>)
    ensures SumFills(s + t) == SumFills(s) + SumFills(t)
  {
    if s == [] {
      assert s + t == t;
    } else {
      SumFillsAppend(s[1..], t);
      assert (s + t)[1..] == s[1..] + t;
    }
  }

  // ---------- filling ----------

  /** The orders left after filling `q` from the oldest on. */
  function Rest(orders: seq<Order>, q: nat): seq<Order> {
    if orders == [] || q == 0 then orders
    else if orders[0].quantity >= q then [orders[0].(quantity := orders[0].quantity - q)] + orders[1..]
    else Rest(orders[1..], q - orders[0].quantity)
  }

  /** The fills made on the way, oldest order first. */
  function Fills(orders: seq<Order>, q: nat): seq<Fill> {
    if orders == [] || q == 0 then []
    else if orders[0].quantity >= q then [Fill(orders[0].owner, q)]
    else [Fill(orders[0].owner, orders[0].quantity)] + Fills(orders[1..], q - orders[0].quantity)
  }

  /** Nothing is lost: the level shrinks by what was filled, which is as much as there was to fill. */
  lemma {:induction false} FillConserves(orders: seq<Order>, q: nat)
    ensures Total(orders) == Total(Rest(orders, q)) + SumFills(Fills(orders, q))
    ensures SumFills(Fills(orders, q)) == if q <= Total(orders) then q else Total(orders)
  {
    if orders != [] && q != 0 {
      var first := orders[0];
      if first.quantity >= q {
        assert Rest(orders, q)[1..] == orders[1..];
        assert Fills(orders, q)[1..] == [];
      } else {
        FillConserves(orders[1..], q - first.quantity);
        assert Fills(orders, q)[1..] == Fills(orders[1..], q - first.quantity);
      }
    }
  }

  /** A level is used up exactly when more than its total is asked for. */
  lemma {:induction false} LevelUsedUp(orders: seq<Order>, q: nat)
    ensures Rest(orders, q) == [] <==> orders == [] || q > Total(orders)
  {
    if orders != [] && q != 0 && orders[0].quantity < q {
      LevelUsedUp(orders[1..], q - orders[0].quantity);
    }
  }

  /**
    Time priority: fill `i` goes to the `i`-th oldest order; every fill but the last takes its order whole and
    the order goes; the last one takes no more than its order holds, and younger orders are not touched.
   */
  lemma {:induction false} FillsOldestFirst(orders: seq<Order>, q: nat)
    ensures var fills := Fills(orders, q);
      && |fills| <= |orders|
      && (forall i | 0 <= i < |fills| :: fills[i].owner == orders[i].owner && fills[i].quantity <= orders[i].quantity)
      && (forall i | 0 <= i < |fills| - 1 :: fills[i].quantity == orders[i].quantity)
      && (if fills == [] then Rest(orders, q) == orders
          else if |Rest(orders, q)| == |orders| - |fills| then
            fills[|fills| - 1].quantity == orders[|fills| - 1].quantity && Rest(orders, q) == orders[|fills|..]
          else
            var last := orders[|fills| - 1];
            Rest(orders, q) == [last.(quantity := last.quantity - fills[|fills| - 1].quantity)] + orders[|fills|..])
  {
    hide Fills, Rest;
    if orders == [] || q == 0 {
      FillNothing(orders, q);
    } else {
      FillFirst(orders, q);
      if orders[0].quantity < q {
        var rest := orders[1..];
        FillsOldestFirst(rest, q - orders[0].quantity);
        var fills := Fills(rest, q - orders[0].quantity);
        assert rest[|fills|..] == orders[|fills| + 1..];
      }
    }
  }

  /** What is left is a tail of the level, its first order possibly smaller. */
  lemma {:induction false} RestIsTail(orders: seq<Order>, q: nat) returns (k: nat)
    ensures k <= |orders| && |Rest(orders, q)| == |orders| - k
    ensures k < |orders| ==> Rest(orders, q)[0].id == orders[k].id && Rest(orders, q)[1..] == orders[k + 1..]
  {
    k := 0;
    if orders != [] && q != 0 && orders[0].quantity < q {
      var j := RestIsTail(orders[1..], q - orders[0].quantity);
      k := j + 1;
      if k < |orders| {
        assert orders[1..][j + 1..] == orders[k + 1..];
      }
    }
  }

  /** Filling keeps ids ascending and leaves at most one spent order, the oldest. */
  lemma RestIds(orders: seq<Order>, q: nat)
    ensures Ids(Rest(orders, q)) <= Ids(orders)
  {
    var k := RestIsTail(orders, q);
    var rest := Rest(orders, q);
    hide Rest;
    forall i | 0 <= i < |rest| ensures rest[i].id in Ids(orders) {
      if i == 0 {
        assert rest[0].id == orders[k].id;
      } else {
        assert rest[1..][i - 1] == orders[k + 1..][i - 1] == orders[i + k];
      }
    }
  }

  lemma FillKeepsOrder(orders: seq<Order>, q: nat)
    requires Ascending(orders) && Tidy(orders)
    ensures Ascending(Rest(orders, q)) && Tidy(Rest(orders, q)) && Ids(Rest(orders, q)) <= Ids(orders)
  {
    var k := RestIsTail(orders, q);
    var rest := Rest(orders, q);
    hide Rest;
    forall i | 0 < i < |rest| ensures rest[i] == orders[i + k] {
      assert rest[1..][i - 1] == orders[k + 1..][i - 1];
    }
    assert forall i | 0 <= i < |rest| :: rest[i].id == orders[i + k].id;
  }

  /** Drop the entry of `id`, as `BTreeMap::remove` does. */
  function Dropped(orders: seq<Order>, id: OrderId): seq<Order> {
    if orders == [] then []
    else if orders[0].id == id then orders[1..]
    else [orders[0]] + Dropped(orders[1..], id)
  }

  /** `Tick::filled`: fill up to `quantity`; `None` when nothing was filled. */
  method Filled(tick: Tick, quantity: nat) returns (tick': Tick, res: Option<seq<Fill>>)
    ensures tick' == Tick(Rest(tick.openOrders, quantity))
    ensures res == if SumFills(Fills(tick.openOrders, quantity)) == 0 then None
                   else Some(Fills(tick.openOrders, quantity))
  {
    hide Rest, Fills, SumFills;
    var filled, toRemove, fills := 0, [], [];
    var orders := tick.openOrders;
    ghost var orders0 := orders;
    NoFills();
    if quantity == 0 {
      FillNothing(orders0, quantity);
    }
    assert [] + Fills(orders0, quantity) == Fills(orders0, quantity);
    var i := 0;
    while i < |orders|
      invariant 0 <= i <= |orders| == |orders0| && |toRemove| <= i
      invariant filled <= quantity && filled == SumFills(fills)
      invariant forall j | 0 <= j < |toRemove| :: toRemove[j] == orders[j].id
      invariant filled < quantity ==> orders == orders0 && |toRemove| == i
      invariant filled < quantity ==> Fills(orders0, quantity) == fills + Fills(orders0[i..], quantity - filled)
      invariant filled < quantity ==> Rest(orders0, quantity) == Rest(orders0[i..], quantity - filled)
      invariant filled == quantity ==> Fills(orders0, quantity) == fills
      invariant filled == quantity ==> Rest(orders0, quantity) == orders[|toRemove|..]
    {
      var order := orders[i];
      var remain := quantity - filled;
      if remain == 0 {
        break;
      }
      FillFirst(orders0[i..], remain);
      assert orders0[i..][1..] == orders0[i + 1..];
      if order.quantity >= remain {
        orders := orders[i := order.(quantity := order.quantity - remain)];
        filled := filled + remain;
        SumFillsPush(fills, Fill(order.owner, remain));
        fills := fills + [Fill(order.owner, remain)];
        assert orders[i..] == [order.(quantity := order.quantity - remain)] + orders0[i + 1..];
      } else {
        filled := filled + order.quantity;
        toRemove := toRemove + [order.id];
        SumFillsPush(fills, Fill(order.owner, order.quantity));
        fills := fills + [Fill(order.owner, order.quantity)];
      }
      i := i + 1;
    }
    if filled < quantity {
      FillNothing(orders0[i..], quantity - filled);
      assert fills + [] == fills;
    }
    orders := DropFront(orders, toRemove);
    tick' := Tick(orders);
    res := if filled == 0 then None else Some(fills);
  }

  lemma NoFills()
    ensures SumFills([]) == 0
  {
  }

  lemma SumFillsPush(fills: seq<Fill>, f: Fill)
    ensures SumFills(fills + [f]) == SumFills(fills) + f.quantity
  {
    SumFillsAppend(fills, [f]);
  }

  /** The second loop of `filled`: the used-up orders go one by one. */
  method DropFront(orders: seq<Order>, ids: seq<OrderId>) returns (left: seq<Order>)
    requires |ids| <= |orders| && forall j | 0 <= j < |ids| :: ids[j] == orders[j].id
    ensures left == orders[|ids|..]
  {
    left := orders;
    for k := 0 to |ids|
      invariant left == orders[k..]
    {
      assert orders[k..][1..] == orders[k + 1..];
      left := Dropped(left, ids[k]);
    }
  }

  lemma FillNothing(orders: seq<Order>, q: nat)
    requires orders == [] || q == 0
    ensures Fills(orders, q) == [] && Rest(orders, q) == orders
  {
  }

  /** One step of filling. */
  lemma FillFirst(orders: seq<Order>, q: nat)
    requires orders != [] && q > 0
    ensures var first := orders[0];
      if first.quantity >= q then
        && Fills(orders, q) == [Fill(first.owner, q)]
        && Rest(orders, q) == [first.(quantity := first.quantity - q)] + orders[1..]
      else
        && Fills(orders, q) == [Fill(first.owner, first.quantity)] + Fills(orders[1..], q - first.quantity)
        && Rest(orders, q) == Rest(orders[1..], q - first.quantity)
  {
  }

  // ---------- cancelling ----------

  /** Where the order with this id is; the length if there is none. */
  function Position(orders: seq<Order>, id: OrderId): (i: nat)
    ensures i <= |orders| && (i < |orders| ==> orders[i].id == id)
    ensures forall j | 0 <= j < i :: orders[j].id != id
  {
    if orders == [] || orders[0].id == id then 0 else 1 + Position(orders[1..], id)
  }

  function Skipping(orders: seq<Order>, i: nat): (left: seq<Order>)
    requires i < |orders|
    ensures |left| == |orders| - 1
    ensures forall j | 0 <= j < |left| :: left[j] == orders[if j < i then j else j + 1]
  {
    orders[..i] + orders[i + 1..]
  }

  /** `Tick::canceled`: take `quantity` off an order; an order left with nothing goes. */
  function Canceled(orders: seq<Order>, owner: AccountId, id: OrderId, quantity: nat): Result<seq<Order>, OrderError> {
    var i := Position(orders, id);
    if i == |orders| then Err(OrderNotExist)
    else if orders[i].owner != owner then Err(NotOwner)
    else if orders[i].quantity < quantity then Err(Underflow)
    else if orders[i].quantity == quantity then Ok(Skipping(orders, i))
    else Ok(orders[i := orders[i].(quantity := orders[i].quantity - quantity)])
  }

  /** Cancelling succeeds exactly for the owner of a present order that holds enough. */
  lemma CancelNeedsOwner(orders: seq<Order>, owner: AccountId, id: OrderId, quantity: nat)
    requires Ascending(orders)
    ensures Canceled(orders, owner, id, quantity).Ok? <==>
      exists i :: 0 <= i < |orders| && orders[i].id == id && orders[i].owner == owner && orders[i].quantity >= quantity
    ensures Canceled(orders, owner, id, quantity) == Err(OrderNotExist) <==> id !in Ids(orders)
  {
  }

  /** A cancellation takes exactly `quantity` off the level. */
  lemma CancelTakesQuantity(orders: seq<Order>, owner: AccountId, id: OrderId, quantity: nat)
    requires Canceled(orders, owner, id, quantity).Ok?
    ensures Total(Canceled(orders, owner, id, quantity).value) == Total(orders) - quantity
  {
    var i := Position(orders, id);
    var left := Canceled(orders, owner, id, quantity).value;
    TotalAppend(orders[..i], orders[i..]);
    assert orders == orders[..i] + orders[i..] && orders[i..][1..] == orders[i + 1..];
    TotalAppend(orders[..i], left[i..]);
    assert left == orders[..i] + left[i..];
    if orders[i].quantity == quantity {
      assert left[i..] == orders[i + 1..];
    } else {
      assert left[i..][1..] == orders[i + 1..];
    }
  }

  /** It touches no other order, and an order left with nothing is not kept. */
  lemma CancelTouchesOwn(orders: seq<Order>, owner: AccountId, id: OrderId, quantity: nat)
    requires Ascending(orders) && Canceled(orders, owner, id, quantity).Ok?
    ensures var left := Canceled(orders, owner, id, quantity).value;
      && (forall o | o in orders && o.id != id :: o in left)
      && (forall o | o in left && o.id != id :: o in orders)
      && (forall o | o in left && o.id == id ::
          o.owner == owner && o.quantity > 0 && o.(quantity := o.quantity + quantity) in orders)
  {
    var i := Position(orders, id);
    var left := Canceled(orders, owner, id, quantity).value;
    if orders[i].quantity == quantity {
      assert forall j | 0 <= j < |left| :: left[j] == orders[if j < i then j else j + 1];
      forall j | 0 <= j < |orders| && j != i ensures orders[j] in left {
        assert orders[j] == left[if j < i then j else j - 1];
      }
    } else {
      assert forall j | 0 <= j < |left| && j != i :: left[j] == orders[j];
    }
  }

  lemma CancelKeepsOrder(orders: seq<Order>, owner: AccountId, id: OrderId, quantity: nat)
    requires Ascending(orders) && Tidy(orders) && Canceled(orders, owner, id, quantity).Ok?
    ensures var left := Canceled(orders, owner, id, quantity).value;
      Ascending(left) && Tidy(left) && Ids(left) <= Ids(orders)
  {
    var i := Position(orders, id);
    var left := Canceled(orders, owner, id, quantity).value;
    if orders[i].quantity == quantity {
      assert forall j | 0 <= j < |left| :: left[j] == orders[if j < i then j else j + 1];
    } else {
      assert forall j | 0 <= j < |left| :: left[j].id == orders[j].id;
    }
  }
}
