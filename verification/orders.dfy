/** The order router: the public menu, admin-only menu additions, paged
    order lists, order creation with its metrics and the chaos flag that
    makes order creation fail on purpose.

    The menu and order tables are sequences in insertion order with an
    auto-increment counter each. `Math.random() < 0.5` is the parameter
    `chaosRoll`; the factory call is the parameter `reply`. Prices are not
    modelled.
 */
module Orders {
  import opened Common
  import Users
  import Auth
  import Metrics
  import Sessions

  const CannotAddMenuItem: Failure := Failure(403, "unable to add menu item")
  const ChaosMonkey: Failure := Failure(500, "Chaos monkey")
  const FactoryFailed: Failure := Failure(500, "Failed to fulfill order at factory")

  /** A row of the `menu` table. */
  datatype MenuItem = MenuItem(id: int, title: string, description: string, image: string)

  /** The body of `PUT /menu`. */
  datatype NewMenuItem = NewMenuItem(title: string, description: string, image: string)

  /** A row of `dinerOrder` together with its `orderItem` rows. */
  datatype DinerOrder = DinerOrder(id: int, dinerId: int, franchiseId: int, storeId: int,
                                   items: seq<Metrics.OrderItem>)

  /** The body of `POST /`. */
  datatype OrderRequest = OrderRequest(franchiseId: int, storeId: int, items: seq<Metrics.OrderItem>)

  /** The tables the router touches and the module-level `enableChaos`. */
  datatype OrderState = OrderState(menu: seq<MenuItem>, nextMenuId: int,
                                   orders: seq<DinerOrder>, nextOrderId: int,
                                   chaos: bool)

  /** The state at start-up: empty tables and the chaos flag off. */
  const Initial: OrderState := OrderState([], 1, [], 1, false)

  /** Auto-increment ids are below the counter and never repeat. */
  ghost predicate Valid(s: OrderState) {
    && (forall i :: 0 <= i < |s.menu| ==> s.menu[i].id < s.nextMenuId)
    && (forall i, j :: 0 <= i < j < |s.menu| ==> s.menu[i].id != s.menu[j].id)
    && (forall i :: 0 <= i < |s.orders| ==> s.orders[i].id < s.nextOrderId)
    && (forall i, j :: 0 <= i < j < |s.orders| ==> s.orders[i].id != s.orders[j].id)
  }

  lemma InitialValid()
    ensures Valid(Initial) && !Initial.chaos
  {
  }

  predicate IsAdmin(u: Auth.Identity) {
    Auth.IsRole(u, Users.Admin)
  }

  // ---------------------------------------------------------------------------
  // menu

  function HasMenuId(menu: seq<MenuItem>, menuId: int): bool {
    exists i :: 0 <= i < |menu| && menu[i].id == menuId
  }

  /** `addMenuItem`: refused with 403 before any write unless the caller is an
      Admin; otherwise the row is inserted and the whole menu returned. */
  function AddMenuItem(s: OrderState, user: Auth.Identity, item: NewMenuItem): (r: (OrderState, Result<seq<MenuItem>>))
    ensures !IsAdmin(user) <==> r.1 == Err(CannotAddMenuItem)
    ensures r.1.Err? ==> r.0 == s
    ensures r.1.Ok? ==>
      && r.1.value == r.0.menu
      && |r.0.menu| == |s.menu| + 1
      && r.0.menu[..|s.menu|] == s.menu
      && r.0.menu[|s.menu|] == MenuItem(s.nextMenuId, item.title, item.description, item.image)
      && r.0.orders == s.orders && r.0.chaos == s.chaos
    ensures Valid(s) ==> Valid(r.0)
  {
    if !IsAdmin(user) then (s, Err(CannotAddMenuItem))
    else
      var row := MenuItem(s.nextMenuId, item.title, item.description, item.image);
      var s' := s.(menu := s.menu + [row], nextMenuId := s.nextMenuId + 1);
      (s', Ok(s'.menu))
  }

  // ---------------------------------------------------------------------------
  // chaos flag

  /** `PUT /chaos/:state`: an Admin sets the flag exactly when `state` is the string "true",
      anyone else leaves it; the reply is the flag after the call. */
  function SetChaos(s: OrderState, user: Auth.Identity, state: string): (r: (OrderState, bool))
    ensures IsAdmin(user) ==> (r.0.chaos <==> state == "true")
    ensures !IsAdmin(user) ==> r.0 == s
    ensures r.1 == r.0.chaos
    ensures r.0.menu == s.menu && r.0.orders == s.orders
    ensures r.0.nextMenuId == s.nextMenuId && r.0.nextOrderId == s.nextOrderId
  {
    var s' := if IsAdmin(user) then s.(chaos := state == "true") else s;
    (s', s'.chaos)
  }

  /** Setting the flag twice to the same state is the same as once. */
  lemma SetChaosIdempotent(s: OrderState, user: Auth.Identity, state: string)
    ensures SetChaos(SetChaos(s, user, state).0, user, state) == SetChaos(s, user, state)
  {
  }

  // ---------------------------------------------------------------------------
  // order lists

  /** The orders of one diner, in table order. */
  function OrdersOf(orders: seq<DinerOrder>, dinerId: int): (r: seq<DinerOrder>)
    ensures forall i :: 0 <= i < |r| ==> r[i].dinerId == dinerId
  {
    if |orders| == 0 then []
    else
      var rest := OrdersOf(orders[1..], dinerId);
      if orders[0].dinerId == dinerId then [orders[0]] + rest else rest
  }

  /** The diner's orders occur as often as in the table, and no other order occurs. */
  lemma {:induction false} OrdersOfCounts(orders: seq<DinerOrder>, dinerId: int)
    ensures forall o :: multiset(OrdersOf(orders, dinerId))[o] == if o.dinerId == dinerId then multiset(orders)[o] else 0
    decreases |orders|
  {
    if |orders| > 0 {
      OrdersOfCounts(orders[1..], dinerId);
      assert orders == [orders[0]] + orders[1..];
    }
  }

  /** Selecting a diner's orders distributes over the table's rows, so they
      keep the table's order. */
  lemma {:induction false} OrdersOfAppend(a: seq<DinerOrder>, b: seq<DinerOrder>, dinerId: int)
    ensures OrdersOf(a + b, dinerId) == OrdersOf(a, dinerId) + OrdersOf(b, dinerId)
    decreases |a|
  {
    if |a| == 0 {
      assert a + b == b;
    } else {
      var head := if a[0].dinerId == dinerId then [a[0]] else [];
      assert (a + b)[0] == a[0] && (a + b)[1..] == a[1..] + b;
      assert OrdersOf(a + b, dinerId) == head + OrdersOf(a[1..] + b, dinerId);
      assert OrdersOf(a, dinerId) == head + OrdersOf(a[1..], dinerId);
      OrdersOfAppend(a[1..], b, dinerId);
      assert head + (OrdersOf(a[1..], dinerId) + OrdersOf(b, dinerId))
          == (head + OrdersOf(a[1..], dinerId)) + OrdersOf(b, dinerId);
    }
  }

  /** `LIMIT offset, count` over a list. */
  function Window<T>(xs: seq<T>, offset: nat, count: nat): (w: seq<T>)
    ensures |w| <= count
    ensures offset + count <= |xs| ==> w == xs[offset..offset + count]
    ensures offset >= |xs| ==> w == []
    ensures forall x :: x in w ==> x in xs
  {
    var lo := if offset <= |xs| then offset else |xs|;
    var hi := if offset + count <= |xs| then offset + count else |xs|;
    xs[lo..hi]
  }

  /** The body of `GET /`. */
  datatype OrderPage = OrderPage(dinerId: int, orders: seq<DinerOrder>, page: int)

  /** `getOrders(user, page)`: the page's window of the caller's orders.
      `None` is a LIMIT clause the database rejects (a negative offset or
      page size), which the service answers with 500. */
  function GetOrders(s: OrderState, user: Auth.Identity, page: Option<int>, perPage: int): (r: Option<OrderPage>)
    ensures perPage >= 0 ==> (r.Some? <==> page.GetOr(1) >= 1 || perPage == 0)
    ensures perPage < 0 ==> r.None?
    ensures r.Some? ==>
      && r.value.dinerId == user.id
      && r.value.page == page.GetOr(1)
      && |r.value.orders| <= perPage
      && forall o :: o in r.value.orders ==> o in s.orders && o.dinerId == user.id
  {
    var offset := Users.GetOffset(page, perPage);
    assert perPage > 0 ==> (offset >= 0 <==> page.GetOr(1) >= 1) by {
      if perPage > 0 {
        Users.MultipleBounds(page.GetOr(1) - 1, perPage);
      }
    }
    OrdersOfCounts(s.orders, user.id);
    if offset < 0 || perPage < 0 then None
    else Some(OrderPage(user.id, Window(OrdersOf(s.orders, user.id), offset, perPage), page.GetOr(1)))
  }

  /** Pages 1..k in turn. */
  function PagesUpTo(s: OrderState, user: Auth.Identity, perPage: nat, k: nat): seq<DinerOrder>
    decreases k
  {
    if k == 0 then []
    else
      var p := GetOrders(s, user, Some(k), perPage);
      PagesUpTo(s, user, perPage, k - 1) + (if p.Some? then p.value.orders else [])
  }

  /** Reading pages 1, 2, …, k lists the caller's orders from the first,
      each exactly once, and nothing else. */
  lemma PagesCover(s: OrderState, user: Auth.Identity, perPage: nat, k: nat)
    requires perPage > 0
    ensures var all := OrdersOf(s.orders, user.id);
      PagesUpTo(s, user, perPage, k) == all[..Min(k * perPage, |all|)]
  {
    PagesAreWindows(s, user, perPage, k);
    WindowsCover(OrdersOf(s.orders, user.id), perPage, k);
  }

  /** Where page k (from 1) starts: after k - 1 full pages. */
  function PageStart(k: nat, perPage: nat): nat
    requires k > 0
  {
    (k - 1) * perPage
  }

  /** The windows of pages 1..k of a list, in turn. */
  function WindowsUpTo<T>(xs: seq<T>, perPage: nat, k: nat): seq<T>
    decreases k
  {
    if k == 0 then [] else WindowsUpTo(xs, perPage, k - 1) + Window(xs, PageStart(k, perPage), perPage)
  }

  /** Each page `getOrders` returns is the window at its start. */
  lemma {:induction false} PagesAreWindows(s: OrderState, user: Auth.Identity, perPage: nat, k: nat)
    requires perPage > 0
    ensures PagesUpTo(s, user, perPage, k) == WindowsUpTo(OrdersOf(s.orders, user.id), perPage, k)
    decreases k
  {
    if k > 0 {
      PagesAreWindows(s, user, perPage, k - 1);
      PageIsWindow(s, user, perPage, k);
    }
  }

  /** The first k windows of `perPage` elements make up the prefix of
      `k * perPage` elements, or all of the list when it is shorter. */
  lemma {:induction false} WindowsCover<T>(xs: seq<T>, perPage: nat, k: nat)
    requires perPage > 0
    ensures WindowsUpTo(xs, perPage, k) == xs[..Min(k * perPage, |xs|)]
    decreases k
  {
    if k > 0 {
      WindowsCover(xs, perPage, k - 1);
      NextMultiple(k, perPage);
      CoverStep(xs, WindowsUpTo(xs, perPage, k - 1), PageStart(k, perPage), perPage, k * perPage);
    }
  }

  /** A prefix of whole pages followed by the next page's window is the longer prefix. */
  lemma CoverStep<T>(xs: seq<T>, prev: seq<T>, before: nat, count: nat, after: int)
    requires prev == xs[..Min(before, |xs|)] && after == before + count
    ensures prev + Window(xs, before, count) == xs[..Min(after, |xs|)]
  {
    PrefixThenWindow(xs, before, count);
  }

  lemma NextMultiple(k: int, n: int)
    ensures k * n == (k - 1) * n + n
  {
  }

  function Min(a: int, b: int): int {
    if a <= b then a else b
  }

  /** Page k (from 1) is the window that starts after k - 1 full pages. */
  lemma PageIsWindow(s: OrderState, user: Auth.Identity, perPage: nat, k: nat)
    requires perPage > 0 && k > 0
    ensures (k - 1) * perPage >= 0
    ensures GetOrders(s, user, Some(k), perPage)
      == Some(OrderPage(user.id, Window(OrdersOf(s.orders, user.id), (k - 1) * perPage, perPage), k))
  {
    Users.MultipleBounds(k - 1, perPage);
  }

  lemma PrefixThenWindow<T>(xs: seq<T>, before: nat, count: nat)
    ensures xs[..Min(before, |xs|)] + Window(xs, before, count) == xs[..Min(before + count, |xs|)]
  {
  }

  // ---------------------------------------------------------------------------
  // order creation

  /** The leading items whose `menuId` names a menu row: `getID` finds them. */
  function KnownPrefix(items: seq<Metrics.OrderItem>, menu: seq<MenuItem>): (n: nat)
    ensures n <= |items|
    ensures forall i :: 0 <= i < n ==> HasMenuId(menu, items[i].menuId)
    ensures n < |items| ==> !HasMenuId(menu, items[n].menuId)
  {
    if |items| == 0 || !HasMenuId(menu, items[0].menuId) then 0
    else 1 + KnownPrefix(items[1..], menu)
  }

  /** `addDinerOrder(user, order)`: the order row is inserted first and its
      item rows one by one; an item naming no menu row stops the loop with
      "No ID found", leaving the rows written so far in place. */
  function AddDinerOrder(s: OrderState, dinerId: int, req: OrderRequest): (r: (OrderState, Result<DinerOrder>))
    ensures |r.0.orders| == |s.orders| + 1 && r.0.orders[..|s.orders|] == s.orders
    ensures r.0.nextOrderId == s.nextOrderId + 1
    ensures r.0.orders[|s.orders|].id == s.nextOrderId
    ensures r.0.orders[|s.orders|].items == req.items[..KnownPrefix(req.items, s.menu)]
    ensures r.1.Ok? <==> forall i :: 0 <= i < |req.items| ==> HasMenuId(s.menu, req.items[i].menuId)
    ensures r.1.Ok? ==> r.1.value == r.0.orders[|s.orders|]
                        && r.1.value == DinerOrder(s.nextOrderId, dinerId, req.franchiseId, req.storeId, req.items)
    ensures r.1.Err? ==> r.1.failure == Users.NoIdFound
    ensures r.0.menu == s.menu && r.0.nextMenuId == s.nextMenuId && r.0.chaos == s.chaos
    ensures Valid(s) ==> Valid(r.0)
  {
    var n := KnownPrefix(req.items, s.menu);
    var row := DinerOrder(s.nextOrderId, dinerId, req.franchiseId, req.storeId, req.items[..n]);
    var s' := s.(orders := s.orders + [row], nextOrderId := s.nextOrderId + 1);
    assert s'.orders[..|s.orders|] == s.orders;
    if n == |req.items| then
      assert req.items[..n] == req.items;
      (s', Ok(row))
    else (s', Err(Users.NoIdFound))
  }

  /** What the factory call comes back with: an `ok` reply, a non-`ok`
      reply, or an exception from `fetch` or `r.json()`. */
  datatype FactoryReply = Fulfilled(reportUrl: string, jwt: string) | Rejected(reportUrl: string) | Unreachable(message: string)

  /** How `createOrder` ends; `StoreFailed` is the "No ID found" error of
      an item naming no menu row. */
  datatype OrderOutcome =
    | Placed(order: DinerOrder, reportUrl: string, jwt: string)
    | ChaosFailure
    | StoreFailed
    | FactoryRejected(reportUrl: string)
    | FactoryUnreachable(message: string)

  /** The status code the service answers each outcome with; a rethrown
      exception carries no `statusCode` and so reads as 500. */
  function OutcomeStatus(o: OrderOutcome): (status: int)
    ensures o.Placed? <==> status == 200
    ensures !o.Placed? ==> status == 500
  {
    match o
    case Placed(_, _, _) => 200
    case ChaosFailure => ChaosMonkey.status
    case StoreFailed => Users.NoIdFound.status
    case FactoryRejected(_) => FactoryFailed.status
    case FactoryUnreachable(_) => 500
  }

  /** `createOrder`: the chaos roll, then the order rows, then the factory.
      Every outcome but a failed store records one pizza order and the
      items' sales, as a success exactly when the factory fulfilled it. */
  function CreateOrder(s: OrderState, m: Metrics.State, user: Auth.Identity, req: OrderRequest,
                       chaosRoll: bool, reply: FactoryReply)
    : (r: (OrderState, Metrics.State, OrderOutcome))
    ensures r.2 == ChaosFailure <==> s.chaos && chaosRoll
    ensures r.2 == ChaosFailure ==> r.0 == s
    ensures r.2 == StoreFailed <==>
      !(s.chaos && chaosRoll) && exists i :: 0 <= i < |req.items| && !HasMenuId(s.menu, req.items[i].menuId)
    ensures r.2 == StoreFailed ==> r.1 == m
    ensures r.2 != StoreFailed ==>
      r.1 == Metrics.TrackSales(Metrics.TrackPizzaOrder(m, r.2.Placed?), Some(req.items), r.2.Placed?)
    ensures r.2.Placed? <==>
      && !(s.chaos && chaosRoll)
      && (forall i :: 0 <= i < |req.items| ==> HasMenuId(s.menu, req.items[i].menuId))
      && reply.Fulfilled?
    ensures r.2.Placed? ==>
      && r.2.order == DinerOrder(s.nextOrderId, user.id, req.franchiseId, req.storeId, req.items)
      && r.2.order in r.0.orders
    ensures r.0.menu == s.menu && r.0.chaos == s.chaos
    ensures Valid(s) ==> Valid(r.0)
    ensures Metrics.Consistent(m) ==> Metrics.Consistent(r.1)
  {
    if s.chaos && chaosRoll then
      (s, Metrics.TrackSales(Metrics.TrackPizzaOrder(m, false), Some(req.items), false), ChaosFailure)
    else
      var (s', stored) := AddDinerOrder(s, user.id, req);
      if stored.Err? then (s', m, StoreFailed)
      else
        var ok := reply.Fulfilled?;
        var m' := Metrics.TrackSales(Metrics.TrackPizzaOrder(m, ok), Some(req.items), ok);
        assert stored.value == s'.orders[|s.orders|];
        match reply
        case Fulfilled(url, jwt) => (s', m', Placed(stored.value, url, jwt))
        case Rejected(url) => (s', m', FactoryRejected(url))
        case Unreachable(msg) => (s', m', FactoryUnreachable(msg))
  }

  /** While the flag is off no order fails on purpose, whatever the roll. */
  lemma ChaosOffNeverFails(s: OrderState, m: Metrics.State, user: Auth.Identity, req: OrderRequest,
                           chaosRoll: bool, reply: FactoryReply)
    requires !s.chaos
    ensures CreateOrder(s, m, user, req, chaosRoll, reply).2 != ChaosFailure
    ensures CreateOrder(s, m, user, req, chaosRoll, reply) == CreateOrder(s, m, user, req, !chaosRoll, reply)
  {
  }

  // ---------------------------------------------------------------------------
  // the router

  datatype Route =
    | GetMenu
    | PutMenu(item: NewMenuItem)
    | ListOrders(page: Option<int>)
    | PostOrder(req: OrderRequest)
    | PutChaos(state: string)

  /** What the router can only learn from outside: the roll, the factory's
      reply and `config.db.listPerPage`. */
  datatype Env = Env(chaosRoll: bool, reply: FactoryReply, perPage: int)

  datatype Response =
    | MenuList(menu: seq<MenuItem>)
    | Orders(page: OrderPage)
    | OrderResult(outcome: OrderOutcome)
    | ChaosState(chaos: bool)
    | Error(failure: Failure)
    | DatabaseError

  /** One request to the order router. `GET /menu` is public; every other
      route runs `authenticateToken` first, under the session check `check`,
      and answers with its denial. The session table does not change while
      orders are handled. */
  function Handle(check: Auth.SessionCheck, s: OrderState, m: Metrics.State, table: Sessions.AuthTable,
                  header: Option<string>, verify: string -> Auth.Verified,
                  route: Route, env: Env)
    : (r: (OrderState, Metrics.State, Response))
    ensures route.GetMenu? ==> r == (s, m, MenuList(s.menu))
    ensures !route.GetMenu? && Auth.AuthenticateWith(check, header, verify, table).Deny? ==>
      r == (s, m, Error(Auth.AuthenticateWith(check, header, verify, table).failure))
    ensures r.0.chaos != s.chaos ==>
      route.PutChaos? && Auth.AuthenticateWith(check, header, verify, table).Allow? && IsAdmin(Auth.AuthenticateWith(check, header, verify, table).user)
    ensures |r.0.menu| != |s.menu| ==>
      route.PutMenu? && Auth.AuthenticateWith(check, header, verify, table).Allow? && IsAdmin(Auth.AuthenticateWith(check, header, verify, table).user)
    ensures !route.GetMenu? && Auth.AuthenticateWith(check, header, verify, table).Allow? ==>
      var user := Auth.AuthenticateWith(check, header, verify, table).user;
      match route
      case PutMenu(item) =>
        var added := AddMenuItem(s, user, item);
        && r.0 == added.0 && r.1 == m
        && r.2 == (if added.1.Ok? then MenuList(added.1.value) else Error(CannotAddMenuItem))
      case ListOrders(page) =>
        var listed := GetOrders(s, user, page, env.perPage);
        && r.0 == s && r.1 == m
        && r.2 == (if listed.Some? then Orders(listed.value) else DatabaseError)
      case PostOrder(req) =>
        r == (CreateOrder(s, m, user, req, env.chaosRoll, env.reply).0,
              CreateOrder(s, m, user, req, env.chaosRoll, env.reply).1,
              OrderResult(CreateOrder(s, m, user, req, env.chaosRoll, env.reply).2))
      case PutChaos(state) =>
        r == (SetChaos(s, user, state).0, m, ChaosState(if IsAdmin(user) then state == "true" else s.chaos))
      case GetMenu => true
    ensures Valid(s) ==> Valid(r.0)
    ensures Metrics.Consistent(m) ==> Metrics.Consistent(r.1)
  {
    if route.GetMenu? then (s, m, MenuList(s.menu))
    else
      match Auth.AuthenticateWith(check, header, verify, table)
      case Deny(f) => (s, m, Error(f))
      case Allow(user) =>
        match route
        case PutMenu(item) =>
          var (s', res) := AddMenuItem(s, user, item);
          (s', m, if res.Ok? then MenuList(res.value) else Error(res.failure))
        case ListOrders(page) =>
          var res := GetOrders(s, user, page, env.perPage);
          (s, m, if res.Some? then Orders(res.value) else DatabaseError)
        case PostOrder(req) =>
          var (s', m', outcome) := CreateOrder(s, m, user, req, env.chaosRoll, env.reply);
          (s', m', OrderResult(outcome))
        case PutChaos(state) =>
          var (s', flag) := SetChaos(s, user, state);
          (s', m, ChaosState(flag))
  }

  /** As written, the session table plays no part in the order routes: a
      logged-out token that still verifies is served exactly as before its
      logout. */
  lemma HandleIgnoresSessions(s: OrderState, m: Metrics.State, table: Sessions.AuthTable,
                              other: Sessions.AuthTable, header: Option<string>,
                              verify: string -> Auth.Verified, route: Route, env: Env)
    ensures Handle(Auth.NotAwaited, s, m, table, header, verify, route, env)
         == Handle(Auth.NotAwaited, s, m, other, header, verify, route, env)
  {
  }

  /** Through the router, an Admin's `PUT /chaos/true` makes the next order
      placed on a hitting roll fail with "Chaos monkey", while a caller
      without Admin can neither switch the flag nor add to the menu. */
  lemma AdminChaosThenOrderFails(check: Auth.SessionCheck, s: OrderState, m: Metrics.State,
                                 table: Sessions.AuthTable, header: Option<string>,
                                 verify: string -> Auth.Verified, req: OrderRequest, env: Env)
    requires Auth.AuthenticateWith(check, header, verify, table).Allow?
    requires IsAdmin(Auth.AuthenticateWith(check, header, verify, table).user)
    ensures var on := Handle(check, s, m, table, header, verify, PutChaos("true"), env);
      && on.2 == ChaosState(true)
      && Handle(check, on.0, on.1, table, header, verify, PostOrder(req), env.(chaosRoll := true)).2
         == OrderResult(ChaosFailure)
  {
  }

  /** A caller without Admin gets 403 on `PUT /menu` and the unchanged flag
      on `/chaos/:state`, and nothing changes. */
  lemma NonAdminRefused(check: Auth.SessionCheck, s: OrderState, m: Metrics.State,
                        table: Sessions.AuthTable, header: Option<string>,
                        verify: string -> Auth.Verified, item: NewMenuItem, state: string, env: Env)
    requires Auth.AuthenticateWith(check, header, verify, table).Allow?
    requires !IsAdmin(Auth.AuthenticateWith(check, header, verify, table).user)
    ensures Handle(check, s, m, table, header, verify, PutMenu(item), env) == (s, m, Error(Failure(403, "unable to add menu item")))
    ensures Handle(check, s, m, table, header, verify, PutChaos(state), env) == (s, m, ChaosState(s.chaos))
  {
  }

  /** Requests in turn, each with its own header and environment. */
  datatype Call = Call(header: Option<string>, route: Route, env: Env)

  function RunCalls(check: Auth.SessionCheck, s: OrderState, m: Metrics.State, table: Sessions.AuthTable,
                    verify: string -> Auth.Verified, calls: seq<Call>)
    : (OrderState, Metrics.State)
    decreases |calls|
  {
    if |calls| == 0 then (s, m)
    else
      var r := Handle(check, s, m, table, calls[0].header, verify, calls[0].route, calls[0].env);
      RunCalls(check, r.0, r.1, table, verify, calls[1..])
  }

  /** A call that an Admin could use to switch chaos on. */
  predicate AdminChaosCall(check: Auth.SessionCheck, c: Call, table: Sessions.AuthTable, verify: string -> Auth.Verified) {
    && c.route.PutChaos?
    && Auth.AuthenticateWith(check, c.header, verify, table).Allow?
    && IsAdmin(Auth.AuthenticateWith(check, c.header, verify, table).user)
  }

  /** Unless some Admin calls `/chaos/:state`, the flag stays off from
      start-up on, so no order ever fails with "Chaos monkey". */
  lemma {:induction false} ChaosStaysOff(check: Auth.SessionCheck, s: OrderState, m: Metrics.State,
                                         table: Sessions.AuthTable, verify: string -> Auth.Verified, calls: seq<Call>)
    requires !s.chaos
    requires forall i :: 0 <= i < |calls| ==> !AdminChaosCall(check, calls[i], table, verify)
    ensures !RunCalls(check, s, m, table, verify, calls).0.chaos
    decreases |calls|
  {
    if |calls| > 0 {
      var r := Handle(check, s, m, table, calls[0].header, verify, calls[0].route, calls[0].env);
      ChaosStaysOff(check, r.0, r.1, table, verify, calls[1..]);
    }
  }

  /** The tables' ids stay unique and the metrics stay balanced over any run. */
  lemma {:induction false} RunCallsKeepsInvariants(check: Auth.SessionCheck, s: OrderState, m: Metrics.State,
                                                   table: Sessions.AuthTable, verify: string -> Auth.Verified, calls: seq<Call>)
    requires Valid(s) && Metrics.Consistent(m)
    ensures Valid(RunCalls(check, s, m, table, verify, calls).0)
    ensures Metrics.Consistent(RunCalls(check, s, m, table, verify, calls).1)
    decreases |calls|
  {
    if |calls| > 0 {
      var r := Handle(check, s, m, table, calls[0].header, verify, calls[0].route, calls[0].env);
      RunCallsKeepsInvariants(check, r.0, r.1, table, verify, calls[1..]);
    }
  }
}
