/** The in-process counters of `metrics.js`: HTTP method counts, per-endpoint
    request counts, authentication and pizza-order tallies, the active-user
    set and pizza sales. Sampling, latency averages, revenue and shipping to
    Grafana are not part of this model.
 */
module Metrics {
  import opened Common
  import opened Text

  // ---------------------------------------------------------------------------
  // method counts

  /** `methodCounts`. */
  datatype MethodCounts = MethodCounts(get: nat, post: nat, put: nat, delete: nat)

  /** The own properties of `methodCounts`. */
  const CountedMethods: set<string> := {"GET", "POST", "PUT", "DELETE"}

  /** `methodCounts[method]` for one of the four counted methods, else 0. */
  function CountOf(c: MethodCounts, verb: string): nat {
    if verb == "GET" then c.get
    else if verb == "POST" then c.post
    else if verb == "PUT" then c.put
    else if verb == "DELETE" then c.delete
    else 0
  }

  /** `incrementMethodCount(method)`. */
  function IncrementMethodCount(c: MethodCounts, verb: string): (r: MethodCounts)
    ensures forall m :: m in CountedMethods ==> CountOf(r, m) == CountOf(c, m) + (if m == verb then 1 else 0)
    ensures verb !in CountedMethods ==> r == c
  {
    match verb
    case "GET" => c.(get := c.get + 1)
    case "POST" => c.(post := c.post + 1)
    case "PUT" => c.(put := c.put + 1)
    case "DELETE" => c.(delete := c.delete + 1)
    case _ => c
  }

  /** `resetMethodCounts()`. */
  function ResetMethodCounts(c: MethodCounts): (r: MethodCounts)
    ensures forall m :: m in CountedMethods ==> CountOf(r, m) == 0
  {
    MethodCounts(0, 0, 0, 0)
  }

  /** `getMethodCounts()`: a snapshot object keyed by method name. Being a
      value, it cannot alias the counters it was taken from. */
  function GetMethodCounts(c: MethodCounts): (snapshot: map<string, nat>)
    ensures snapshot.Keys == CountedMethods
    ensures forall m :: m in snapshot ==> snapshot[m] == CountOf(c, m)
  {
    map["GET" := c.get, "POST" := c.post, "PUT" := c.put, "DELETE" := c.delete]
  }

  // ---------------------------------------------------------------------------
  // success / failure tallies

  /** `authenticationCounts` and `pizzaOrderMetrics` share this shape. */
  datatype Tally = Tally(success: nat, failure: nat, total: nat)

  const EmptyTally: Tally := Tally(0, 0, 0)

  predicate Balanced(t: Tally) {
    t.total == t.success + t.failure
  }

  /** `incrementAuthenticationCount(ok)` / `trackPizzaOrder(ok)`. */
  function Record(t: Tally, ok: bool): (r: Tally)
    ensures r.total == t.total + 1
    ensures ok ==> r.success == t.success + 1 && r.failure == t.failure
    ensures !ok ==> r.failure == t.failure + 1 && r.success == t.success
    ensures Balanced(t) ==> Balanced(r)
  {
    if ok then Tally(t.success + 1, t.failure, t.total + 1)
    else Tally(t.success, t.failure + 1, t.total + 1)
  }

  function RecordAll(t: Tally, oks: seq<bool>): Tally
    decreases |oks|
  {
    if |oks| == 0 then t else RecordAll(Record(t, oks[0]), oks[1..])
  }

  function CountTrue(oks: seq<bool>): nat {
    if |oks| == 0 then 0 else (if oks[0] then 1 else 0) + CountTrue(oks[1..])
  }

  /** After any sequence of calls, total = success + failure, and success
      grew by exactly the number of successful calls. */
  lemma {:induction false} RecordAllBalanced(t: Tally, oks: seq<bool>)
    requires Balanced(t)
    ensures Balanced(RecordAll(t, oks))
    ensures RecordAll(t, oks).total == t.total + |oks|
    ensures RecordAll(t, oks).success == t.success + CountTrue(oks)
    ensures RecordAll(t, oks).failure == t.failure + |oks| - CountTrue(oks)
    decreases |oks|
  {
    if |oks| > 0 {
      RecordAllBalanced(Record(t, oks[0]), oks[1..]);
    }
  }

  // ---------------------------------------------------------------------------
  // active users

  /** `userMetrics`. */
  datatype ActiveUsers = ActiveUsers(ids: set<int>, totalActiveCount: nat)

  predicate CountMatches(a: ActiveUsers) {
    a.totalActiveCount == |a.ids|
  }

  /** `trackUserActivity(userId, isActive)`. */
  function TrackUserActivity(a: ActiveUsers, userId: int, isActive: bool): (r: ActiveUsers)
    ensures isActive ==> r.ids == a.ids + {userId}
    ensures !isActive ==> r.ids == a.ids - {userId}
    ensures CountMatches(r)
  {
    var ids := if isActive then a.ids + {userId} else a.ids - {userId};
    ActiveUsers(ids, |ids|)
  }

  /** Marking a user active twice is the same as once. */
  lemma ActivityIdempotent(a: ActiveUsers, userId: int, isActive: bool)
    ensures TrackUserActivity(TrackUserActivity(a, userId, isActive), userId, isActive)
         == TrackUserActivity(a, userId, isActive)
  {
  }

  // ---------------------------------------------------------------------------
  // pizza sales

  /** An order item as the metrics read it; the price is not modelled. */
  datatype OrderItem = OrderItem(menuId: int, description: Option<string>)

  /** `pizzaMetrics`. */
  datatype PizzaMetrics = PizzaMetrics(totalPizzasSold: nat, pizzaCreationFailures: nat, byType: map<string, nat>)

  function Get(m: map<string, nat>, k: string): nat {
    if k in m then m[k] else 0
  }

  /** Items whose description is the non-empty string `d`. */
  function CountDescribed(items: seq<OrderItem>, d: string): nat {
    if |items| == 0 then 0
    else (if Truthy(items[0].description) && items[0].description.value == d then 1 else 0)
         + CountDescribed(items[1..], d)
  }

  /** The `items.forEach` loop: +1 in the bucket of every truthy description. */
  function AddByType(byType: map<string, nat>, items: seq<OrderItem>): (r: map<string, nat>)
    ensures forall d :: Get(r, d) == Get(byType, d) + CountDescribed(items, d)
    decreases |items|
  {
    if |items| == 0 then byType
    else
      var it := items[0];
      var next := if Truthy(it.description) then byType[it.description.value := Get(byType, it.description.value) + 1] else byType;
      AddByType(next, items[1..])
  }

  /** `trackPizzaSales(items, success)`; `None` is a value that is not an array. */
  function TrackPizzaSales(p: PizzaMetrics, items: Option<seq<OrderItem>>, success: bool): (r: PizzaMetrics)
    ensures items.None? ==> r == p
    ensures items.Some? && success ==>
      && r.totalPizzasSold == p.totalPizzasSold + |items.value|
      && r.pizzaCreationFailures == p.pizzaCreationFailures
      && forall d :: Get(r.byType, d) == Get(p.byType, d) + CountDescribed(items.value, d)
    ensures items.Some? && !success ==>
      && r.pizzaCreationFailures == p.pizzaCreationFailures + |items.value|
      && r.totalPizzasSold == p.totalPizzasSold
      && r.byType == p.byType
  {
    match items
    case None => p
    case Some(xs) =>
      if success then PizzaMetrics(p.totalPizzasSold + |xs|, p.pizzaCreationFailures, AddByType(p.byType, xs))
      else p.(pizzaCreationFailures := p.pizzaCreationFailures + |xs|)
  }

  // ---------------------------------------------------------------------------
  // endpoint counts of the request tracker

  /** The `requests` object's key for the running total. */
  const TotalKey: string := "total"

  /** The endpoint part of `requestTracker`: the third `/`-segment of the path
      (`auth` in `/api/auth`) and the total are raised together. */
  function CountEndpoint(requests: map<string, nat>, path: string): (r: map<string, nat>)
    ensures !Truthy(Segment(path, '/', 2)) ==> r == requests
    ensures Truthy(Segment(path, '/', 2)) ==>
      var seg := Segment(path, '/', 2).value;
      && Get(r, seg) == Get(requests, seg) + (if seg == TotalKey then 2 else 1)
      && Get(r, TotalKey) == Get(requests, TotalKey) + (if seg == TotalKey then 2 else 1)
      && forall k :: k != seg && k != TotalKey ==> Get(r, k) == Get(requests, k)
  {
    var seg := Segment(path, '/', 2);
    if !Truthy(seg) then requests
    else
      var once := requests[seg.value := Get(requests, seg.value) + 1];
      once[TotalKey := Get(once, TotalKey) + 1]
  }

  /** For a path `/api/<endpoint>…` the endpoint counter and the total rise by one. */
  lemma CountApiEndpoint(requests: map<string, nat>, endpoint: string, rest: seq<string>)
    requires endpoint != "" && endpoint != TotalKey && '/' !in endpoint
    requires forall i :: 0 <= i < |rest| ==> '/' !in rest[i]
    ensures Get(CountEndpoint(requests, Join(["", "api", endpoint] + rest, '/')), endpoint) == Get(requests, endpoint) + 1
    ensures Get(CountEndpoint(requests, Join(["", "api", endpoint] + rest, '/')), TotalKey) == Get(requests, TotalKey) + 1
  {
    var parts := ["", "api", endpoint] + rest;
    ApiPrefixFree(endpoint);
    SepFreeConcat(["", "api", endpoint], rest, '/');
    SegmentOfJoin(parts, '/', 2);
    var path := Join(parts, '/');
    assert Segment(path, '/', 2) == Some(endpoint);
  }

  lemma ApiPrefixFree(endpoint: string)
    requires '/' !in endpoint
    ensures forall i :: 0 <= i < 3 ==> '/' !in ["", "api", endpoint][i]
  {
    var head := ["", "api", endpoint];
    assert head[1] == ['a', 'p', 'i'];
  }

  // ---------------------------------------------------------------------------
  // the whole metrics state

  datatype State = State(methods: MethodCounts, requests: map<string, nat>, auth: Tally,
                         orders: Tally, active: ActiveUsers, pizzas: PizzaMetrics)

  const Initial: State :=
    State(MethodCounts(0, 0, 0, 0), map[], EmptyTally, EmptyTally, ActiveUsers({}, 0), PizzaMetrics(0, 0, map[]))

  /** `requestTracker(req)`: the upper-cased method's counter when it is one of
      the four, and the endpoint counters. */
  function TrackRequest(s: State, verb: string, path: string): (r: State)
    ensures r.methods == IncrementMethodCount(s.methods, ToUpper(verb))
    ensures r.requests == CountEndpoint(s.requests, path)
    ensures r.auth == s.auth && r.orders == s.orders && r.active == s.active && r.pizzas == s.pizzas
  {
    s.(methods := IncrementMethodCount(s.methods, ToUpper(verb)), requests := CountEndpoint(s.requests, path))
  }

  predicate Consistent(s: State) {
    Balanced(s.auth) && Balanced(s.orders) && CountMatches(s.active)
  }

  /** `incrementAuthenticationCount(ok)` on the whole state. */
  function IncrementAuthenticationCount(s: State, ok: bool): (r: State)
    ensures r.auth == Record(s.auth, ok)
    ensures r == s.(auth := r.auth)
    ensures Consistent(s) ==> Consistent(r)
  {
    s.(auth := Record(s.auth, ok))
  }

  /** `trackPizzaOrder(ok)` on the whole state. */
  function TrackPizzaOrder(s: State, ok: bool): (r: State)
    ensures r.orders == Record(s.orders, ok)
    ensures r == s.(orders := r.orders)
    ensures Consistent(s) ==> Consistent(r)
  {
    s.(orders := Record(s.orders, ok))
  }

  /** `trackUserActivity(userId, isActive)` on the whole state. */
  function TrackActivity(s: State, userId: int, isActive: bool): (r: State)
    ensures r.active == TrackUserActivity(s.active, userId, isActive)
    ensures r == s.(active := r.active)
    ensures Consistent(s) ==> Consistent(r)
  {
    s.(active := TrackUserActivity(s.active, userId, isActive))
  }

  /** `trackPizzaSales(items, ok)` on the whole state. */
  function TrackSales(s: State, items: Option<seq<OrderItem>>, ok: bool): (r: State)
    ensures r.pizzas == TrackPizzaSales(s.pizzas, items, ok)
    ensures r == s.(pizzas := r.pizzas)
    ensures Consistent(s) ==> Consistent(r)
  {
    s.(pizzas := TrackPizzaSales(s.pizzas, items, ok))
  }
}
