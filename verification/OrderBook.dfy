/** The order book (`crm_service.py`, `routers/crm_orders.py`): denormalised totals, the delivery status graph
    and the history kept in the activity timeline. Prices are exact reals, amounts of money whole cents. */
module OrderBook {
  import opened Options
  import opened Rounding

  type Id = nat
  type UserId = nat

  datatype Status = Pending | Processing | Shipped | Delivered | Cancelled

  datatype Item = Item(id: Id, productId: Option<Id>, name: string, quantity: int, unitPrice: real, lineTotal: int)

  datatype Order = Order(user: UserId, status: Status, items: seq<Item>, total: int)

  datatype Product = Product(user: UserId, name: string, price: real)

  datatype Spec = Spec(productId: Option<Id>, name: Option<string>, quantity: int, unitPrice: Option<real>)

  /** The JSON value under old_status or new_status: one of the five names, or anything else. */
  datatype Label = Known(status: Status) | Other(json: string)

  /** A timeline entry. Only its metadata names an order: the id that its order_id equals, if there is one. */
  datatype Activity = Activity(user: UserId, kind: string, order: Option<Id>, old_: Label, new_: Label)

  const STATUS_CHANGED := "order_status_changed"

  /** What log_order_status_change writes. */
  function Change(user: UserId, order: Id, old_: Status, new_: Status): Activity {
    Activity(user, STATUS_CHANGED, Some(order), Known(old_), Known(new_))
  }

  // ---------- totals ----------

  /** price * quantity in cents, unrounded. */
  function ExactCents(price: real, quantity: int): real {
    price * quantity as real * 100.0
  }

  /** round(price * quantity, 2) in cents. */
  function LineCents(price: real, quantity: int): (r: int)
    ensures -0.5 <= r as real - ExactCents(price, quantity) <= 0.5
    ensures IsCents(r, price, quantity)
  {
    RoundHalfEven(ExactCents(price, quantity))
  }

  /** `cents` is the whole number nearest to a hundred times price times quantity, the even one of two. */
  predicate IsCents(cents: int, price: real, quantity: int) {
    var error := cents as real - price * quantity as real * 100.0;
    -0.5 <= error <= 0.5 && (error == 0.5 || error == -0.5 ==> cents % 2 == 0)
  }

  function LineTotal(item: Item): int {
    LineCents(item.unitPrice, item.quantity)
  }

  function Priced(items: seq<Item>): (r: seq<Item>)
    ensures |r| == |items| && forall i :: 0 <= i < |r| ==> r[i] == items[i].(lineTotal := LineTotal(items[i]))
  {
    seq(|items|, i requires 0 <= i < |items| => items[i].(lineTotal := LineTotal(items[i])))
  }

  function SumLines(items: seq<Item>): int {
    if items == [] then 0 else SumLines(items[..|items| - 1]) + items[|items| - 1].lineTotal
  }

  /** The unrounded value of the items, in cents. */
  function ExactSum(items: seq<Item>): real {
    if items == [] then 0.0
    else
      var last := items[|items| - 1];
      ExactSum(items[..|items| - 1]) + ExactCents(last.unitPrice, last.quantity)
  }

  /** Each line is its price times quantity rounded to cents, and the total is the sum of the lines. */
  predicate TotalsRight(o: Order) {
    && (forall i :: 0 <= i < |o.items| ==> o.items[i].lineTotal == LineTotal(o.items[i]))
    && o.total == SumLines(o.items)
  }

  /** The order after recompute_order_total. */
  function Recomputed(o: Order): Order {
    o.(items := Priced(o.items), total := SumLines(Priced(o.items)))
  }

  lemma RecomputedIsRight(o: Order)
    ensures TotalsRight(Recomputed(o))
    ensures Recomputed(o).status == o.status && Recomputed(o).user == o.user
  {
  }

  lemma {:induction false} SumIsClose(items: seq<Item>)
    requires forall i :: 0 <= i < |items| ==> items[i].lineTotal == LineTotal(items[i])
    ensures -0.5 * |items| as real <= SumLines(items) as real - ExactSum(items) <= 0.5 * |items| as real
    decreases |items|
  {
    hide ExactCents, LineCents;
    if items != [] {
      SumIsClose(items[..|items| - 1]);
      assert items[|items| - 1].lineTotal == LineTotal(items[|items| - 1]);
    }
  }

  /** The total of n items is within n half-cents of their unrounded value. */
  lemma TotalIsClose(o: Order)
    requires TotalsRight(o)
    ensures -0.5 * |o.items| as real <= o.total as real - ExactSum(o.items) <= 0.5 * |o.items| as real
  {
    SumIsClose(o.items);
  }

  lemma RecomputeAgainChangesNothing(o: Order)
    requires TotalsRight(o)
    ensures Recomputed(o) == o
  {
    assert Priced(o.items) == o.items;
  }

  /** Recomputing changes nothing exactly when the totals are right; so a second time it never does. */
  lemma RightIffUnchanged(o: Order)
    ensures Recomputed(o) == o <==> TotalsRight(o)
    ensures Recomputed(Recomputed(o)) == Recomputed(o)
  {
    hide Recomputed, TotalsRight;
    RecomputedIsRight(o);
    RecomputeAgainChangesNothing(Recomputed(o));
    if TotalsRight(o) {
      RecomputeAgainChangesNothing(o);
    }
  }

  /** recompute_order_total. */
  method RecomputeOrderTotal(o: Order) returns (r: Order)
    ensures r == Recomputed(o) && TotalsRight(r)
  {
    hide LineCents;
    var total := 0;
    var items: seq<Item> := [];
    var i := 0;
    while i < |o.items|
      invariant 0 <= i <= |o.items| && |items| == i
      invariant forall k :: 0 <= k < i ==> items[k] == o.items[k].(lineTotal := LineTotal(o.items[k]))
      invariant total == SumLines(items)
    {
      var item := o.items[i].(lineTotal := LineCents(o.items[i].unitPrice, o.items[i].quantity));
      assert (items + [item])[..i] == items;
      items := items + [item];
      total := total + item.lineTotal;
      i := i + 1;
    }
    assert items == Priced(o.items);
    RoundOfInteger(total);
    RecomputedIsRight(o);
    r := o.(items := items, total := RoundHalfEven(total as real));
  }

  // ---------- the status graph ----------

  function AllowedTransitions(s: Status): set<Status> {
    match s
    case Pending => {Processing, Cancelled}
    case Processing => {Shipped, Cancelled}
    case Shipped => {Delivered, Cancelled}
    case Delivered => {}
    case Cancelled => {}
  }

  predicate CanTransition(s: Status, t: Status) {
    t in AllowedTransitions(s)
  }

  /** Falls along every edge. */
  function ChangesLeft(s: Status): nat {
    match s
    case Pending => 3
    case Processing => 2
    case Shipped => 1
    case Delivered => 0
    case Cancelled => 0
  }

  /** Every change moves one stage forward or cancels; from the end of the line there is none. */
  lemma TransitionIff(s: Status, t: Status)
    ensures CanTransition(s, t) <==> ChangesLeft(s) > 0 && (t == Cancelled || ChangesLeft(t) == ChangesLeft(s) - 1)
  {
  }

  /** What order_history selects. */
  predicate About(a: Activity, user: UserId, order: Id) {
    a.user == user && a.kind == STATUS_CHANGED && a.order == Some(order)
  }

  /** A user's entries about one order, oldest first. */
  function HistoryOf(log: seq<Activity>, user: UserId, order: Id): seq<Activity> {
    if log == [] then []
    else
      var last := log[|log| - 1];
      HistoryOf(log[..|log| - 1], user, order) + if About(last, user, order) then [last] else []
  }

  /** Who wrote an entry: a status change of the order created as the n-th, or anybody through the activities
      endpoint (None). */
  type Author = Option<nat>

  /** The entries that status changes of the n-th order created wrote, oldest first. */
  function OwnOf(log: seq<Activity>, authors: seq<Author>, n: nat): seq<Activity>
    requires |authors| == |log|
  {
    if log == [] then []
    else
      var last := |log| - 1;
      OwnOf(log[..last], authors[..last], n) + if authors[last] == Some(n) then [log[last]] else []
  }

  /** The entries lead from one status to another along edges of the graph. */
  predicate IsPath(h: seq<Activity>, start: Status, end: Status) {
    if h == [] then start == end
    else
      var last := h[|h| - 1];
      && last.old_.Known? && last.new_ == Known(end) && CanTransition(last.old_.status, end)
      && IsPath(h[..|h| - 1], start, last.old_.status)
  }

  lemma {:induction false} PathIsBounded(h: seq<Activity>, start: Status, end: Status)
    requires IsPath(h, start, end)
    ensures |h| + ChangesLeft(end) <= ChangesLeft(start) || (|h| <= ChangesLeft(start) && end == Cancelled)
    decreases |h|
  {
    if h != [] {
      var last := h[|h| - 1];
      PathIsBounded(h[..|h| - 1], start, last.old_.status);
    }
  }

  lemma HistoryGrows(log: seq<Activity>, a: Activity, user: UserId, order: Id)
    ensures HistoryOf(log + [a], user, order) == HistoryOf(log, user, order) + if About(a, user, order) then [a] else []
  {
  }

  lemma OwnGrows(log: seq<Activity>, authors: seq<Author>, a: Activity, author: Author, n: nat)
    requires |authors| == |log|
    ensures OwnOf(log + [a], authors + [author], n) == OwnOf(log, authors, n) + if author == Some(n) then [a] else []
  {
    assert (log + [a])[..|log|] == log && (authors + [author])[..|log|] == authors;
  }

  /** Every entry about the order was written by a status change of the n-th order created. */
  predicate AllOwn(log: seq<Activity>, authors: seq<Author>, user: UserId, order: Id, n: nat)
    requires |authors| == |log|
  {
    forall i :: 0 <= i < |log| && About(log[i], user, order) ==> authors[i] == Some(n)
  }

  /** What the n-th order's changes wrote is about it. */
  predicate OwnIsAbout(log: seq<Activity>, authors: seq<Author>, user: UserId, order: Id, n: nat)
    requires |authors| == |log|
  {
    forall i :: 0 <= i < |log| && authors[i] == Some(n) ==> About(log[i], user, order)
  }

  lemma {:induction false} OwnInHistory(log: seq<Activity>, authors: seq<Author>, user: UserId, order: Id, n: nat)
    requires |authors| == |log| && OwnIsAbout(log, authors, user, order, n)
    ensures forall a :: a in OwnOf(log, authors, n) ==> a in HistoryOf(log, user, order)
    decreases |log|
  {
    if log != [] {
      OwnInHistory(log[..|log| - 1], authors[..|log| - 1], user, order, n);
    }
  }

  /** Along a path the statuses reached have fewer and fewer changes left. */
  lemma {:induction false} NotBelowEnd(h: seq<Activity>, start: Status, end: Status, a: Activity)
    requires IsPath(h, start, end) && a in h
    ensures a.new_.Known? && ChangesLeft(a.new_.status) >= ChangesLeft(end)
    decreases |h|
  {
    var front, last := h[..|h| - 1], h[|h| - 1];
    if a != last {
      NotBelowEnd(front, start, last.old_.status, a);
    }
  }

  /** If the order's own entries lead to a status and the newest entry is not among them, the whole history
      does not lead there: what the own entries reached cannot be reached once more. */
  lemma {:induction false} ForeignLastIsNoPath(log: seq<Activity>, authors: seq<Author>, user: UserId, order: Id,
                                               n: nat, status: Status)
    requires |authors| == |log| && OwnIsAbout(log, authors, user, order, n)
    requires log != [] && About(log[|log| - 1], user, order) && authors[|log| - 1] != Some(n)
    requires IsPath(OwnOf(log, authors, n), Pending, status)
    ensures !IsPath(HistoryOf(log, user, order), Pending, status)
  {
    var last := |log| - 1;
    var own, h := OwnOf(log, authors, n), HistoryOf(log, user, order);
    var front := HistoryOf(log[..last], user, order);
    assert own == OwnOf(log[..last], authors[..last], n) && h == front + [log[last]];
    if IsPath(h, Pending, status) && own != [] {
      assert h[..|h| - 1] == front;
      OwnInHistory(log[..last], authors[..last], user, order, n);
      NotBelowEnd(front, Pending, log[last].old_.status, own[|own| - 1]);
    }
  }

  /** An order's own entries lead from pending to its status. Its whole history does exactly when it holds no
      entry of anybody else, wherever that entry stands and whatever it says. */
  lemma {:induction false} HistoryIsPathIff(log: seq<Activity>, authors: seq<Author>, user: UserId, order: Id, n: nat,
                                            status: Status)
    requires |authors| == |log| && OwnIsAbout(log, authors, user, order, n)
    requires IsPath(OwnOf(log, authors, n), Pending, status)
    ensures IsPath(HistoryOf(log, user, order), Pending, status) <==> AllOwn(log, authors, user, order, n)
    decreases |log|
  {
    if log != [] {
      hide HistoryOf, OwnOf, CanTransition;
      var last := |log| - 1;
      LastEntry(log, authors, user, order, n);
      AllOwnLast(log, authors, user, order, n);
      var own, h := OwnOf(log[..last], authors[..last], n), HistoryOf(log[..last], user, order);
      var entry := log[last];
      if authors[last] == Some(n) {
        assert (own + [entry])[..|own|] == own && (h + [entry])[..|h|] == h;
        HistoryIsPathIff(log[..last], authors[..last], user, order, n, entry.old_.status);
      } else if About(entry, user, order) {
        ForeignLastIsNoPath(log, authors, user, order, n, status);
      } else {
        HistoryIsPathIff(log[..last], authors[..last], user, order, n, status);
      }
    }
  }

  lemma LastEntry(log: seq<Activity>, authors: seq<Author>, user: UserId, order: Id, n: nat)
    requires |authors| == |log| > 0
    ensures var last := |log| - 1;
            && HistoryOf(log, user, order)
               == HistoryOf(log[..last], user, order) + (if About(log[last], user, order) then [log[last]] else [])
            && OwnOf(log, authors, n)
               == OwnOf(log[..last], authors[..last], n) + (if authors[last] == Some(n) then [log[last]] else [])
            && OwnOf(log[..last], authors[..last], n) + [] == OwnOf(log[..last], authors[..last], n)
            && HistoryOf(log[..last], user, order) + [] == HistoryOf(log[..last], user, order)
  {
  }

  lemma AllOwnLast(log: seq<Activity>, authors: seq<Author>, user: UserId, order: Id, n: nat)
    requires |authors| == |log| > 0
    ensures var last := |log| - 1;
            AllOwn(log, authors, user, order, n) <==>
              && AllOwn(log[..last], authors[..last], user, order, n)
              && (About(log[last], user, order) ==> authors[last] == Some(n))
  {
    var last := |log| - 1;
    if AllOwn(log[..last], authors[..last], user, order, n) {
      assert forall i :: 0 <= i < last ==> log[..last][i] == log[i] && authors[..last][i] == authors[i];
    }
  }

  // ---------- the endpoints ----------

  datatype Answer = Done | Missing | BadRequest | ServerError

  datatype Built = Built(item: Item) | NoProduct | NoName

  /** name or product.name: an empty name counts as none. */
  function OrName(a: Option<string>, b: string): string {
    if a.Some? && a.value != "" then a.value else b
  }

  /** _build_item. */
  function BuildItem(products: map<Id, Product>, user: UserId, spec: Spec, id: Id): Built {
    if spec.productId.Some? && (spec.productId.value !in products || products[spec.productId.value].user != user)
      then NoProduct
    else
      var product := if spec.productId.Some? then Some(products[spec.productId.value]) else None;
      var name := OrName(spec.name, if product.Some? then product.value.name else "");
      if name == "" then NoName
      else
        var price := if spec.unitPrice.Some? then spec.unitPrice.value
                     else if product.Some? then product.value.price else 0.0;
        var quantity := if spec.quantity != 0 then spec.quantity else 1;
        Built(Item(id, spec.productId, name, quantity, price,
                   LineCents(price, quantity)))
  }

  /** The product that the spec names is missing or another user's. */
  predicate NoSuchProduct(products: map<Id, Product>, user: UserId, spec: Spec) {
    spec.productId.Some? && (spec.productId.value in products ==> products[spec.productId.value].user != user)
  }

  /** Neither the spec nor its product gives a name. */
  predicate Nameless(products: map<Id, Product>, spec: Spec) {
    && (spec.name == None || spec.name == Some(""))
    && (spec.productId.Some? && spec.productId.value in products ==> products[spec.productId.value].name == "")
  }

  /** What an item made from a spec holds: the spec's own name and price before the product's, a quantity of
      one if it gives none, and the line total in cents. */
  predicate ItemFor(products: map<Id, Product>, user: UserId, spec: Spec, item: Item) {
    && item.productId == spec.productId && !NoSuchProduct(products, user, spec) && !Nameless(products, spec)
    && item.name != ""
    && (spec.name == Some(item.name)
        || ((spec.name == None || spec.name == Some(""))
            && spec.productId.Some? && products[spec.productId.value].name == item.name))
    && (match spec.unitPrice
        case Some(price) => item.unitPrice == price
        case None => item.unitPrice == if spec.productId.None? then 0.0 else products[spec.productId.value].price)
    && (spec.quantity != 0 ==> item.quantity == spec.quantity) && (spec.quantity == 0 ==> item.quantity == 1)
    && IsCents(item.lineTotal, item.unitPrice, item.quantity)
  }

  lemma BuildItemMeans(products: map<Id, Product>, user: UserId, spec: Spec, id: Id)
    ensures var b := BuildItem(products, user, spec, id);
            && (b.NoProduct? <==> NoSuchProduct(products, user, spec))
            && (b.NoName? <==> !NoSuchProduct(products, user, spec) && Nameless(products, spec))
            && (b.Built? ==>
                ItemFor(products, user, spec, b.item) && b.item.id == id && b.item.lineTotal == LineTotal(b.item))
  {
    hide IsCents, ExactCents;
  }

  function AnswerOf(b: Built): (a: Answer)
    ensures a == Done <==> b.Built?
  {
    match b
    case Built(_) => Done
    case NoProduct => Missing
    case NoName => BadRequest
  }

  datatype BuiltAll = BuiltAll(items: seq<Item>) | Refused(a: Answer)

  /** The items of a new order, or the answer of the first spec that cannot be built. */
  function BuildAll(products: map<Id, Product>, user: UserId, specs: seq<Spec>, firstId: Id): (r: BuiltAll)
    ensures r.BuiltAll? ==> |r.items| == |specs|
    ensures r.Refused? ==> r.a != Done
    decreases |specs|
  {
    if specs == [] then BuiltAll([])
    else
      var rest := BuildAll(products, user, specs[..|specs| - 1], firstId);
      var last := BuildItem(products, user, specs[|specs| - 1], firstId + |specs| - 1);
      if rest.Refused? then rest
      else if !last.Built? then Refused(AnswerOf(last))
      else BuiltAll(rest.items + [last.item])
  }

  /** What a spec that cannot be built answers: 404 for the product, 400 for the name. */
  predicate RefusedWith(products: map<Id, Product>, user: UserId, spec: Spec, a: Answer) {
    if NoSuchProduct(products, user, spec) then a == Missing else Nameless(products, spec) && a == BadRequest
  }

  /** Either every spec is built, in order, or the answer is that of the first that cannot be. */
  lemma {:induction false} BuildAllMeans(products: map<Id, Product>, user: UserId, specs: seq<Spec>, firstId: Id)
    ensures var r := BuildAll(products, user, specs, firstId);
            && (r.BuiltAll? ==> forall i :: 0 <= i < |specs| ==>
                && ItemFor(products, user, specs[i], r.items[i]) && r.items[i].id == firstId + i
                && r.items[i].lineTotal == LineTotal(r.items[i]))
            && (r.Refused? ==> FirstRefused(products, user, specs, r.a))
    decreases |specs|
  {
    hide BuildItem, ItemFor, NoSuchProduct, Nameless, LineTotal;
    if specs != [] {
      var last := |specs| - 1;
      BuildAllMeans(products, user, specs[..last], firstId);
      BuildItemMeans(products, user, specs[last], firstId + last);
      var r := BuildAll(products, user, specs, firstId);
      if BuildAll(products, user, specs[..last], firstId).Refused? {
        var k: nat :| FirstRefusedAt(products, user, specs[..last], r.a, k);
        assert FirstRefusedAt(products, user, specs, r.a, k);
      } else if r.Refused? {
        assert FirstRefusedAt(products, user, specs, r.a, last) by {
          BuiltNotRefused(products, user, specs[..last], firstId);
        }
      }
    }
  }

  ghost predicate FirstRefused(products: map<Id, Product>, user: UserId, specs: seq<Spec>, a: Answer) {
    exists k: nat :: FirstRefusedAt(products, user, specs, a, k)
  }

  predicate FirstRefusedAt(products: map<Id, Product>, user: UserId, specs: seq<Spec>, a: Answer, k: nat) {
    && k < |specs| && RefusedWith(products, user, specs[k], a)
    && forall i :: 0 <= i < k ==> !NoSuchProduct(products, user, specs[i]) && !Nameless(products, specs[i])
  }

  lemma BuiltNotRefused(products: map<Id, Product>, user: UserId, specs: seq<Spec>, firstId: Id)
    requires BuildAll(products, user, specs, firstId).BuiltAll?
    requires forall i :: 0 <= i < |specs| ==>
      ItemFor(products, user, specs[i], BuildAll(products, user, specs, firstId).items[i])
    ensures forall i :: 0 <= i < |specs| ==> !NoSuchProduct(products, user, specs[i]) && !Nameless(products, specs[i])
  {
    hide BuildAll, NoSuchProduct, Nameless;
  }

  lemma AllBuiltIff(products: map<Id, Product>, user: UserId, specs: seq<Spec>, firstId: Id)
    ensures BuildAll(products, user, specs, firstId).BuiltAll? <==>
      forall i :: 0 <= i < |specs| ==> !NoSuchProduct(products, user, specs[i]) && !Nameless(products, specs[i])
  {
    hide BuildAll, ItemFor, NoSuchProduct, Nameless;
    BuildAllMeans(products, user, specs, firstId);
    if BuildAll(products, user, specs, firstId).BuiltAll? {
      BuiltNotRefused(products, user, specs, firstId);
    }
  }

  predicate Owned(orders: map<Id, Order>, user: UserId, id: Id) {
    id in orders && orders[id].user == user
  }

  predicate HasItem(items: seq<Item>, itemId: Id) {
    exists i :: 0 <= i < |items| && items[i].id == itemId
  }

  /** Lines that are right stay as they are. */
  lemma RightLinesStay(o: Order, items: seq<Item>)
    requires forall i :: 0 <= i < |items| ==> items[i].lineTotal == LineTotal(items[i])
    ensures Recomputed(o.(items := items)) == o.(items := items, total := SumLines(items))
  {
    hide LineTotal;
    assert Priced(items) == items;
  }

  lemma RightLines(o: Order)
    requires TotalsRight(o)
    ensures forall i :: 0 <= i < |o.items| ==> o.items[i].lineTotal == LineTotal(o.items[i])
  {
  }

  class Book {
    var products: map<Id, Product>
    var orders: map<Id, Order>
    var log: seq<Activity>
    var nextItem: Id
    /** Who wrote each entry of the log. */
    ghost var authors: seq<Author>
    /** The serial number each order got when it was created, and the next one. */
    ghost var serials: map<Id, nat>
    ghost var created: nat

    ghost predicate Valid()
      reads this
    {
      && (forall o :: o in orders ==> TotalsRight(orders[o]))
      && |authors| == |log| && (forall i :: 0 <= i < |log| && authors[i].Some? ==> authors[i].value < created)
      && orders.Keys == serials.Keys
      && (forall o :: o in orders ==> serials[o] < created)
      && (forall o, p :: o in orders && p in orders && serials[o] == serials[p] ==> o == p)
      && (forall o :: o in orders ==> HistoryRight(o))
    }

    /** The entries under the order's id that its owner can see. */
    ghost function History(o: Id): seq<Activity>
      reads this
      requires o in orders
    {
      HistoryOf(log, orders[o].user, o)
    }

    /** The entries that the order's own status changes wrote. */
    ghost function Own(o: Id): seq<Activity>
      reads this
      requires |authors| == |log| && o in serials
    {
      OwnOf(log, authors, serials[o])
    }

    /** Its own changes lead the order from pending to its status, and they are in its history. */
    ghost predicate HistoryRight(o: Id)
      reads this
      requires |authors| == |log| && o in orders && o in serials
    {
      && IsPath(Own(o), Pending, orders[o].status)
      && OwnIsAbout(log, authors, orders[o].user, o, serials[o])
    }

    constructor (products: map<Id, Product>)
      ensures Valid() && orders == map[] && log == [] && this.products == products
    {
      this.products := products;
      orders, log, nextItem := map[], [], 0;
      authors, serials, created := [], map[], 0;
    }

    /** create_order. `linksExist` says that the deal and the agent the request names, if any, exist: only
        the commit finds out. `id` is the id the database assigns: any one not in use, possibly that of a
        deleted order. */
    method CreateOrder(user: UserId, ownContact: bool, specs: seq<Spec>, linksExist: bool, id: Id) returns (a: Answer)
      requires Valid() && id !in orders
      modifies this`orders, this`nextItem, this`serials, this`created
      ensures Valid()
      ensures a ==
        if !ownContact then Missing
        else match BuildAll(products, user, specs, old(nextItem))
          case Refused(x) => x case BuiltAll(_) => if linksExist then Done else ServerError
      ensures a == Done ==>
        orders == old(orders)[id :=
          Recomputed(Order(user, Pending, BuildAll(products, user, specs, old(nextItem)).items, 0))]
      ensures a == Done <==>
        && ownContact && linksExist
        && forall i :: 0 <= i < |specs| ==> !NoSuchProduct(products, user, specs[i]) && !Nameless(products, specs[i])
      ensures ownContact && a != Done && a != ServerError ==> FirstRefused(products, user, specs, a)
      ensures a == Done ==>
        && id in orders && orders == old(orders)[id := orders[id]]
        && orders[id].user == user && orders[id].status == Pending && |orders[id].items| == |specs|
        && forall i :: 0 <= i < |specs| ==> ItemFor(products, user, specs[i], orders[id].items[i])
      ensures a == Done ==> serials == old(serials)[id := old(created)] && Own(id) == []
      ensures a != Done ==> orders == old(orders) && serials == old(serials)
    {
      hide LineCents, BuildAll, HistoryOf, OwnOf, OwnIsAbout, Recomputed, TotalsRight;
      hide ItemFor, NoSuchProduct, Nameless, LineTotal, FirstRefused, IsPath, SumLines;
      AllBuiltIff(products, user, specs, nextItem);
      BuildAllMeans(products, user, specs, nextItem);
      if !ownContact {
        return Missing;
      }
      var built := BuildItems(products, user, specs, nextItem);
      if built.Refused? {
        return built.a;
      }
      var items := built.items;
      RightLinesStay(Order(user, Pending, [], 0), items);
      var order := RecomputeOrderTotal(Order(user, Pending, items, 0));
      RecomputedIsRight(Order(user, Pending, items, 0));
      if !linksExist {
        return ServerError;
      }
      nextItem := nextItem + |specs|;
      Insert(id, order);
      a := Done;
    }

    /** A pending order under a new id. */
    method Insert(id: Id, order: Order)
      requires Valid() && id !in orders && order.status == Pending && TotalsRight(order)
      modifies this`orders, this`serials, this`created
      ensures Valid() && orders == old(orders)[id := order]
      ensures serials == old(serials)[id := old(created)] && Own(id) == []
    {
      hide HistoryOf, OwnOf, OwnIsAbout, IsPath, TotalsRight;
      orders := orders[id := order];
      serials := serials[id := created];
      NothingOwn(log, authors, order.user, id, created);
      created := created + 1;
      forall o | o in orders
        ensures HistoryRight(o)
      {
        assert o != id ==> old(HistoryRight(o));
      }
    }

    /** Replaces the items of one order and recomputes. */
    method StoreItems(id: Id, items: seq<Item>)
      requires Valid() && id in orders
      modifies this`orders
      ensures Valid() && orders == old(orders)[id := Recomputed(old(orders)[id].(items := items))]
    {
      hide LineCents, IsPath, HistoryOf, OwnOf, OwnIsAbout;
      var order := RecomputeOrderTotal(orders[id].(items := items));
      orders := orders[id := order];
      forall o | o in orders
        ensures HistoryRight(o)
      {
        assert old(HistoryRight(o));
      }
    }

    method AddOrderItem(user: UserId, id: Id, spec: Spec) returns (a: Answer)
      requires Valid()
      modifies this`orders, this`nextItem
      ensures Valid()
      ensures a ==
        if id !in old(orders) || old(orders)[id].user != user || NoSuchProduct(products, user, spec) then Missing
        else if Nameless(products, spec) then BadRequest
        else Done
      ensures a == Done ==> exists item ::
        && ItemFor(products, user, spec, item)
        && orders == old(orders)[id := old(orders)[id].(
          items := old(orders)[id].items + [item], total := SumLines(old(orders)[id].items + [item]))]
      ensures a != Done ==> orders == old(orders)
    {
      hide BuildItem, Recomputed, TotalsRight, IsPath, HistoryOf, OwnOf, OwnIsAbout, ItemFor, NoSuchProduct, Nameless;
      hide LineTotal;
      BuildItemMeans(products, user, spec, nextItem);
      if !Owned(orders, user, id) {
        return Missing;
      }
      var b := BuildItem(products, user, spec, nextItem);
      if !b.Built? {
        return AnswerOf(b);
      }
      RightLines(orders[id]);
      RightLinesStay(orders[id], orders[id].items + [b.item]);
      StoreItems(id, orders[id].items + [b.item]);
      nextItem := nextItem + 1;
      a := Done;
    }

    /** next((i for i in order.items if i.id == item_id), None) */
    method FindItem(items: seq<Item>, itemId: Id) returns (i: int)
      ensures i == -1 <==> !HasItem(items, itemId)
      ensures i != -1 ==> 0 <= i < |items| && items[i].id == itemId && forall k :: 0 <= k < i ==> items[k].id != itemId
    {
      i := 0;
      while i < |items|
        invariant 0 <= i <= |items| && forall k :: 0 <= k < i ==> items[k].id != itemId
      {
        if items[i].id == itemId {
          return;
        }
        i := i + 1;
      }
      i := -1;
    }

    method UpdateOrderItem(user: UserId, id: Id, itemId: Id, spec: Spec) returns (a: Answer, at: int)
      requires Valid()
      modifies this`orders
      ensures Valid()
      ensures a ==
        if id !in old(orders) || old(orders)[id].user != user then Missing
        else if forall i :: 0 <= i < |old(orders)[id].items| ==> old(orders)[id].items[i].id != itemId then Missing
        else if NoSuchProduct(products, user, spec) then Missing
        else if Nameless(products, spec) then BadRequest
        else Done
      ensures a == Done ==> 0 <= at < |old(orders)[id].items| && old(orders)[id].items[at].id == itemId
      ensures a == Done ==> exists item ::
        && ItemFor(products, user, spec, item) && item.id == itemId
        && orders == old(orders)[id := old(orders)[id].(
          items := old(orders)[id].items[at := item], total := SumLines(old(orders)[id].items[at := item]))]
      ensures a != Done ==> orders == old(orders)
    {
      hide BuildItem, Recomputed, TotalsRight, IsPath, HistoryOf, OwnOf, OwnIsAbout, ItemFor, NoSuchProduct, Nameless;
      hide LineTotal;
      BuildItemMeans(products, user, spec, itemId);
      at := -1;
      if !Owned(orders, user, id) {
        return Missing, at;
      }
      at := FindItem(orders[id].items, itemId);
      if at == -1 {
        return Missing, at;
      }
      var b := BuildItem(products, user, spec, itemId);
      if !b.Built? {
        return AnswerOf(b), at;
      }
      RightLines(orders[id]);
      RightLinesStay(orders[id], orders[id].items[at := b.item]);
      StoreItems(id, orders[id].items[at := b.item]);
      a := Done;
    }

    method DeleteOrderItem(user: UserId, id: Id, itemId: Id) returns (a: Answer, at: int)
      requires Valid()
      modifies this`orders
      ensures Valid()
      ensures a ==
        if id !in old(orders) || old(orders)[id].user != user then Missing
        else if forall i :: 0 <= i < |old(orders)[id].items| ==> old(orders)[id].items[i].id != itemId then Missing
        else Done
      ensures a == Done ==> 0 <= at < |old(orders)[id].items| && old(orders)[id].items[at].id == itemId
      ensures a == Done ==>
        var items := old(orders)[id].items[..at] + old(orders)[id].items[at + 1..];
        orders == old(orders)[id := old(orders)[id].(items := items, total := SumLines(items))]
      ensures a != Done ==> orders == old(orders)
    {
      hide Recomputed, TotalsRight, IsPath, HistoryOf, OwnOf, OwnIsAbout, LineTotal;
      at := -1;
      if !Owned(orders, user, id) {
        return Missing, at;
      }
      at := FindItem(orders[id].items, itemId);
      if at == -1 {
        return Missing, at;
      }
      RightLines(orders[id]);
      RightLinesStay(orders[id], orders[id].items[..at] + orders[id].items[at + 1..]);
      StoreItems(id, orders[id].items[..at] + orders[id].items[at + 1..]);
      a := Done;
    }

    /** delete_order: the timeline keeps its entries. */
    method DeleteOrder(user: UserId, id: Id) returns (a: Answer)
      requires Valid()
      modifies this`orders, this`serials
      ensures Valid()
      ensures a == if id in old(orders) && old(orders)[id].user == user then Done else Missing
      ensures orders == if a == Done then old(orders) - {id} else old(orders)
      ensures forall o :: o in orders ==> o in serials && o in old(serials) && serials[o] == old(serials)[o]
    {
      hide TotalsRight, IsPath, HistoryOf, OwnOf, OwnIsAbout;
      if !Owned(orders, user, id) {
        return Missing;
      }
      orders := orders - {id};
      serials := serials - {id};
      forall o | o in orders
        ensures HistoryRight(o)
      {
        assert old(HistoryRight(o));
      }
      a := Done;
    }

    /** update_order_status; None is a status the graph does not know. */
    method UpdateOrderStatus(user: UserId, id: Id, status: Option<Status>) returns (a: Answer)
      requires Valid()
      modifies this`orders, this`log, this`authors
      ensures Valid()
      ensures a ==
        if status.None? then BadRequest
        else if id !in old(orders) || old(orders)[id].user != user then Missing
        else if status.value == old(orders)[id].status then Done
        else if !CanTransition(old(orders)[id].status, status.value) then BadRequest
        else Done
      ensures a == Done && status.value != old(orders)[id].status ==>
        && orders == old(orders)[id := old(orders)[id].(status := status.value)]
        && log == old(log) + [Activity(user, "order_status_changed", Some(id), Known(old(orders)[id].status),
                                       Known(status.value))]
        && Own(id) == old(Own(id)) + [log[|log| - 1]]
      ensures a != Done || status.value == old(orders)[id].status ==> orders == old(orders) && log == old(log)
    {
      hide TotalsRight, IsPath, HistoryOf, OwnOf, OwnIsAbout, AllowedTransitions;
      if status.None? {
        return BadRequest;
      }
      if !Owned(orders, user, id) {
        return Missing;
      }
      var oldStatus := orders[id].status;
      if status.value == oldStatus {
        return Done;
      }
      if !CanTransition(oldStatus, status.value) {
        return BadRequest;
      }
      var entry := Change(user, id, oldStatus, status.value);
      orders := orders[id := orders[id].(status := status.value)];
      log := log + [entry];
      authors := authors + [Some(serials[id])];
      TotalsKeep(old(orders)[id], status.value);
      EntryKeepsHistories(old(log), old(authors), entry, Some(serials[id]));
      a := Done;
    }

    /** One more entry leaves the histories of the other orders right, and that of its author. */
    lemma EntryKeepsHistories(before: seq<Activity>, beforeAuthors: seq<Author>, entry: Activity, author: Author)
      requires |beforeAuthors| == |before| && log == before + [entry] && authors == beforeAuthors + [author]
      requires orders.Keys == serials.Keys
      requires forall o :: o in orders ==>
        && OwnIsAbout(before, beforeAuthors, orders[o].user, o, serials[o])
        && if author == Some(serials[o])
           then About(entry, orders[o].user, o) && entry.old_.Known? && entry.new_ == Known(orders[o].status)
                && CanTransition(entry.old_.status, orders[o].status)
                && IsPath(OwnOf(before, beforeAuthors, serials[o]), Pending, entry.old_.status)
           else IsPath(OwnOf(before, beforeAuthors, serials[o]), Pending, orders[o].status)
      ensures forall o :: o in orders ==> HistoryRight(o)
      ensures forall o :: o in orders ==>
        Own(o) == OwnOf(before, beforeAuthors, serials[o]) + if author == Some(serials[o]) then [entry] else []
    {
      hide OwnOf;
      forall o | o in orders
        ensures HistoryRight(o)
        ensures Own(o) == OwnOf(before, beforeAuthors, serials[o]) + if author == Some(serials[o]) then [entry] else []
      {
        var own := OwnOf(before, beforeAuthors, serials[o]);
        OwnGrows(before, beforeAuthors, entry, author, serials[o]);
        assert own + [] == own && (own + [entry])[..|own|] == own;
      }
    }

    /** create_activity: any type and any metadata. `linksExist` says that the contact and the deal it names,
        if any, exist: only the commit finds out. */
    method PostActivity(user: UserId, kind: string, order: Option<Id>, old_: Label, new_: Label, linksExist: bool)
      returns (a: Answer)
      requires Valid()
      modifies this`log, this`authors
      ensures Valid() && a == if linksExist then Done else ServerError
      ensures log == old(log) + if a == Done then [Activity(user, kind, order, old_, new_)] else []
      ensures forall o :: o in orders ==> Own(o) == old(Own(o))
    {
      hide TotalsRight, IsPath, HistoryOf, OwnOf, OwnIsAbout;
      if !linksExist {
        return ServerError;
      }
      var entry := Activity(user, kind, order, old_, new_);
      forall o | o in orders
        ensures HistoryRight(o)
      {
      }
      log := log + [entry];
      authors := authors + [None];
      EntryKeepsHistories(old(log), old(authors), entry, None);
      a := Done;
    }

    /** order_history, newest first. */
    method OrderHistory(user: UserId, id: Id) returns (a: Answer, h: seq<Activity>)
      requires Valid()
      ensures a == if id in orders && orders[id].user == user then Done else Missing
      ensures a == Done ==> h == Reversed(HistoryOf(log, user, id)) && exists at :: NewestEntries(log, user, id, h, at)
    {
      h := [];
      if !Owned(orders, user, id) {
        return Missing, h;
      }
      h := NewestFirst(log, user, id);
      ghost var at := HistoryAt(log, user, id);
      a := Done;
    }

    /** In every reachable state: an order's own entries are a path of at most three changes from pending to
        its status. Its whole history, as its owner sees it, is such a path exactly when every entry under
        its id is its own: none is left from an earlier order with that id, none was posted. */
    lemma HistoryOfOrder(id: Id)
      requires Valid() && id in orders
      ensures id in serials && IsPath(Own(id), Pending, orders[id].status) && |Own(id)| <= 3
      ensures IsPath(History(id), Pending, orders[id].status) <==>
        AllOwn(log, authors, orders[id].user, id, serials[id])
    {
      assert HistoryRight(id);
      PathIsBounded(Own(id), Pending, orders[id].status);
      HistoryIsPathIff(log, authors, orders[id].user, id, serials[id], orders[id].status);
    }
  }

  /** Of an order that is only just created no entry is its own. */
  lemma {:induction false} NothingOwn(log: seq<Activity>, authors: seq<Author>, user: UserId, order: Id, n: nat)
    requires |authors| == |log| && forall i :: 0 <= i < |log| && authors[i].Some? ==> authors[i].value < n
    ensures OwnOf(log, authors, n) == [] && OwnIsAbout(log, authors, user, order, n)
    ensures IsPath([], Pending, Pending)
    decreases |log|
  {
    if log != [] {
      NothingOwn(log[..|log| - 1], authors[..|log| - 1], user, order, n);
    }
  }

  function Reversed(h: seq<Activity>): seq<Activity> {
    if h == [] then [] else [h[|h| - 1]] + Reversed(h[..|h| - 1])
  }

  lemma ReversedAppend(h: seq<Activity>, a: Activity)
    ensures Reversed(h + [a]) == [a] + Reversed(h)
  {
  }

  /** An entry of the user's that says the order's status changed. */
  predicate Names(a: Activity, user: UserId, order: Id) {
    a.user == user && a.kind == "order_status_changed" && a.order == Some(order)
  }

  predicate Falling(at: seq<nat>) {
    forall j, k :: 0 <= j < k < |at| ==> at[j] > at[k]
  }

  predicate Listed(log: seq<Activity>, h: seq<Activity>, at: seq<nat>) {
    |at| == |h| && forall k :: 0 <= k < |at| ==> at[k] < |log| && h[k] == log[at[k]]
  }

  /** `h` holds, newest first, exactly the entries that name the order; `at` says where. */
  predicate NewestEntries(log: seq<Activity>, user: UserId, order: Id, h: seq<Activity>, at: seq<nat>) {
    && Falling(at) && Listed(log, h, at)
    && forall i: nat :: i < |log| ==> (i in at <==> Names(log[i], user, order))
  }

  lemma OneMoreListed(log: seq<Activity>, h: seq<Activity>, at: seq<nat>, a: Activity)
    requires Listed(log, h, at) && Falling(at)
    ensures Listed(log + [a], h, at)
    ensures Listed(log + [a], [a] + h, [|log|] + at) && Falling([|log|] + at)
    ensures |log| !in at && forall i :: i in [|log|] + at <==> i == |log| || i in at
  {
  }

  lemma OneMoreEntry(log: seq<Activity>, user: UserId, order: Id, h: seq<Activity>, at: seq<nat>, a: Activity)
    requires NewestEntries(log, user, order, h, at)
    ensures if Names(a, user, order) then NewestEntries(log + [a], user, order, [a] + h, [|log|] + at)
            else NewestEntries(log + [a], user, order, h, at)
  {
    hide Names, Listed, Falling;
    OneMoreListed(log, h, at, a);
  }

  lemma AboutNames(a: Activity, user: UserId, order: Id)
    ensures About(a, user, order) <==> Names(a, user, order)
  {
  }

  lemma NoEntries(user: UserId, order: Id)
    ensures NewestEntries([], user, order, Reversed(HistoryOf([], user, order)), [])
  {
  }

  /** The history is what the query is for. */
  lemma {:induction false} HistoryAt(log: seq<Activity>, user: UserId, order: Id) returns (at: seq<nat>)
    ensures NewestEntries(log, user, order, Reversed(HistoryOf(log, user, order)), at)
    decreases |log|
  {
    hide NewestEntries, HistoryOf, Reversed, About, Names;
    at := [];
    if log == [] {
      NoEntries(user, order);
    } else {
      var front, last := log[..|log| - 1], log[|log| - 1];
      at := HistoryAt(front, user, order);
      var h := Reversed(HistoryOf(front, user, order));
      AboutNames(last, user, order);
      OneMoreEntry(front, user, order, h, at, last);
      HistoryFront(log, user, order);
      if Names(last, user, order) {
        at := [|front|] + at;
      }
    }
  }

  lemma HistoryFront(log: seq<Activity>, user: UserId, order: Id)
    requires log != []
    ensures var front, last := log[..|log| - 1], log[|log| - 1];
            && front + [last] == log
            && Reversed(HistoryOf(log, user, order))
               == (if About(last, user, order) then [last] else []) + Reversed(HistoryOf(front, user, order))
            && [] + Reversed(HistoryOf(front, user, order)) == Reversed(HistoryOf(front, user, order))
  {
    hide HistoryOf, Reversed, About;
    assert log[..|log| - 1 + 1] == log;
    ReversedGrows(log, |log| - 1, user, order);
  }

  /** A step of the loop below keeps its invariant. */
  lemma ReversedGrows(log: seq<Activity>, i: nat, user: UserId, order: Id)
    requires i < |log|
    ensures Reversed(HistoryOf(log[..i + 1], user, order)) ==
      if About(log[i], user, order) then [log[i]] + Reversed(HistoryOf(log[..i], user, order))
      else Reversed(HistoryOf(log[..i], user, order))
  {
    hide HistoryOf, Reversed;
    var h := HistoryOf(log[..i], user, order);
    assert log[..i + 1] == log[..i] + [log[i]];
    HistoryGrows(log[..i], log[i], user, order);
    ReversedAppend(h, log[i]);
    assert h + [] == h;
  }

  /** The query of order_history. */
  method NewestFirst(log: seq<Activity>, user: UserId, order: Id) returns (h: seq<Activity>)
    ensures h == Reversed(HistoryOf(log, user, order))
  {
    h := [];
    var i := 0;
    while i < |log|
      invariant 0 <= i <= |log| && h == Reversed(HistoryOf(log[..i], user, order))
    {
      hide HistoryOf, Reversed;
      ReversedGrows(log, i, user, order);
      h := (if About(log[i], user, order) then [log[i]] else []) + h;
      i := i + 1;
    }
    assert log[..i] == log;
  }

  lemma TotalsKeep(o: Order, status: Status)
    requires TotalsRight(o)
    ensures TotalsRight(o.(status := status))
  {
  }

  lemma {:induction false} BuildStops(products: map<Id, Product>, user: UserId, specs: seq<Spec>, i: nat, firstId: Id)
    requires i <= |specs| && BuildAll(products, user, specs[..i], firstId).Refused?
    ensures BuildAll(products, user, specs, firstId) == BuildAll(products, user, specs[..i], firstId)
    decreases |specs|
  {
    if i == |specs| {
      assert specs[..i] == specs;
    } else {
      assert specs[..|specs| - 1][..i] == specs[..i];
      BuildStops(products, user, specs[..|specs| - 1], i, firstId);
    }
  }

  /** The loop of create_order over the item specs. */
  method BuildItems(products: map<Id, Product>, user: UserId, specs: seq<Spec>, firstId: Id) returns (r: BuiltAll)
    ensures r == BuildAll(products, user, specs, firstId)
  {
    hide BuildItem;
    var items: seq<Item> := [];
    var i := 0;
    while i < |specs|
      invariant 0 <= i <= |specs| && BuildAll(products, user, specs[..i], firstId) == BuiltAll(items)
    {
      assert specs[..i + 1][..i] == specs[..i];
      var b := BuildItem(products, user, specs[i], firstId + i);
      if !b.Built? {
        BuildStops(products, user, specs, i + 1, firstId);
        return Refused(AnswerOf(b));
      }
      items := items + [b.item];
      i := i + 1;
    }
    assert specs[..i] == specs;
    r := BuiltAll(items);
  }

  /** Two equal changes in a row are no path, though the second alone is one. */
  lemma ReusedIdBreaksHistory()
    ensures var h := [Change(1, 7, Pending, Processing), Change(1, 7, Pending, Processing)];
            IsPath(h[1..], Pending, Processing) && !IsPath(h, Pending, Processing)
  {
  }

  /** A run of the endpoints that leaves an order with that history: the first order moves to processing
      and is deleted; a new order gets its id and moves to processing. */
  method ReuseId() returns (book: Book)
    ensures book.Valid() && 7 in book.orders && book.orders[7].status == Processing
    ensures book.History(7) == [Change(1, 7, Pending, Processing), Change(1, 7, Pending, Processing)]
    ensures !IsPath(book.History(7), Pending, book.orders[7].status)
  {
    hide TotalsRight, Recomputed, HistoryOf, OwnOf, OwnIsAbout, IsPath, BuildAll;
    book := new Book(map[]);
    var a := PlaceAndProcess(book, []);
    a := book.DeleteOrder(1, 7);
    a := PlaceAndProcess(book, [Change(1, 7, Pending, Processing)]);
    var entry := Change(1, 7, Pending, Processing);
    assert book.log == [entry] + [entry];
    HistoryGrows([], entry, 1, 7);
    HistoryGrows([entry], entry, 1, 7);
    assert [] + [entry] == [entry];
    NoHistory(1, 7);
    ReusedIdBreaksHistory();
  }

  lemma NoHistory(user: UserId, order: Id)
    ensures HistoryOf([], user, order) == []
  {
  }

  /** User 1 creates the empty order 7 and moves it to processing. */
  method PlaceAndProcess(book: Book, ghost before: seq<Activity>) returns (a: Answer)
    requires book.Valid() && 7 !in book.orders && book.log == before
    modifies book
    ensures book.Valid() && 7 in book.orders && book.orders[7].user == 1 && book.orders[7].status == Processing
    ensures book.log == before + [Change(1, 7, Pending, Processing)]
  {
    hide TotalsRight, Recomputed, HistoryOf, OwnOf, OwnIsAbout, IsPath;
    a := book.CreateOrder(1, true, [], true, 7);
    RecomputedIsRight(Order(1, Pending, [], 0));
    a := book.UpdateOrderStatus(1, 7, Some(Processing));
  }

  /** The other way to break a history: an order under a fresh id, then `n` posted entries that say it went
      from delivered back to pending. The order never moved; its history has n entries and is no path. */
  method PostForged(n: nat) returns (book: Book)
    ensures book.Valid() && 7 in book.orders && book.orders[7].status == Pending
    ensures |book.History(7)| == n && book.Own(7) == []
    ensures n > 0 ==> !IsPath(book.History(7), Pending, book.orders[7].status)
  {
    hide TotalsRight, Recomputed, HistoryOf, OwnOf, OwnIsAbout;
    book := new Book(map[]);
    var a := book.CreateOrder(1, true, [], true, 7);
    RecomputedIsRight(Order(1, Pending, [], 0));
    NoHistory(1, 7);
    var i := 0;
    while i < n
      invariant 0 <= i <= n && fresh(book) && Forged(book, i)
    {
      Forge(book, i);
      i := i + 1;
    }
  }

  const FORGED: Activity := Activity(1, STATUS_CHANGED, Some(7), Known(Delivered), Known(Pending))

  /** Order 7 never moved, and its history holds `n` entries, the newest of them forged. */
  ghost predicate Forged(book: Book, n: nat)
    reads book
  {
    && book.Valid() && 7 in book.orders && book.orders[7].user == 1 && book.orders[7].status == Pending
    && book.Own(7) == [] && |book.History(7)| == n && (n > 0 ==> book.History(7)[n - 1] == FORGED)
  }

  method Forge(book: Book, ghost n: nat)
    requires Forged(book, n)
    modifies book
    ensures Forged(book, n + 1)
  {
    hide TotalsRight, HistoryOf, OwnOf, OwnIsAbout;
    HistoryGrows(book.log, FORGED, 1, 7);
    var a := book.PostActivity(1, STATUS_CHANGED, Some(7), Known(Delivered), Known(Pending), true);
  }
}
