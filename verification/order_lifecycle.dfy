/** The purchase-order status lifecycle of UpdateEstadoOrdenCompra: the table
    of allowed next statuses, the transition guard, the close-then-append
    write on the order's status sub-collection, and the stock update with its
    reorder-point warning when an order reaches Finalizada. */
module OrderLifecycle {
  import opened Documents

  const PENDIENTE := "Pendiente"
  const ENVIADA := "Enviada"
  const FINALIZADA := "Finalizada"
  const CANCELADA := "Cancelada"
  /** The inventory model kind (fixed lot size) whose reorder point is checked. */
  const MODELO1 := "modelo1"

  /** The four status names of the lifecycle. */
  predicate IsKnownStatus(name: string) {
    name == PENDIENTE || name == ENVIADA || name == FINALIZADA || name == CANCELADA
  }

  /** How far along the lifecycle a known status is. */
  function Stage(name: string): nat
    requires IsKnownStatus(name)
  {
    if name == PENDIENTE then 0 else if name == ENVIADA then 1 else 2
  }

  /** getEstadosValidos: the targets offered for the current status. */
  function ValidTargets(current: Option<string>): (r: seq<string>)
    ensures current == Some(PENDIENTE) ==> r == [ENVIADA, CANCELADA]
    ensures current == Some(ENVIADA) ==> r == [FINALIZADA]
    ensures r != [] <==> current == Some(PENDIENTE) || current == Some(ENVIADA)
    ensures forall k :: 0 <= k < |r| ==>
      current.Some? && IsKnownStatus(r[k]) && Stage(current.value) < Stage(r[k])
  {
    match current
    case None => []
    case Some(name) =>
      if name == PENDIENTE then [ENVIADA, CANCELADA]
      else if name == ENVIADA then [FINALIZADA]
      else []
  }

  /** The transition guard of handleActualizarEstado, as written: it only
      rejects from the four known statuses. */
  predicate Rejects(current: string, target: string)
    ensures Rejects(current, target) ==> IsKnownStatus(current)
    ensures Rejects(current, target) ==> target !in ValidTargets(Some(current))
  {
    || (current == PENDIENTE && !(target in [ENVIADA, CANCELADA]))
    || (current == ENVIADA && target != FINALIZADA)
    || current in [FINALIZADA, CANCELADA]
  }

  /** What the handler does with a request: return silently (no target or no
      current status), reject with a message, or perform the transition. */
  datatype Decision = Ignore | Reject | Accept

  function Decide(current: Option<string>, target: string): (d: Decision)
    ensures d == Ignore <==> target == "" || current.None?
  {
    if target == "" || current.None? then Ignore
    else if Rejects(current.value, target) then Reject
    else Accept
  }

  /** For the four known statuses the guard accepts exactly the targets the
      table offers. */
  lemma GuardAgreesWithTable(current: string, target: string)
    requires IsKnownStatus(current)
    ensures Decide(Some(current), target) == Accept <==> target in ValidTargets(Some(current))
  {
  }

  /** Finalizada and Cancelada are terminal: every non-empty target is rejected. */
  lemma TerminalStatusesRejectAll(current: string, target: string)
    requires current == FINALIZADA || current == CANCELADA
    requires target != ""
    ensures Decide(Some(current), target) == Reject
    ensures ValidTargets(Some(current)) == []
  {
  }

  /** A current name outside the lifecycle is not guarded at all: every
      non-empty target is accepted, although the table offers none. */
  lemma UnknownStatusIsNotGuarded(current: string, target: string)
    requires !IsKnownStatus(current) && target != ""
    ensures Decide(Some(current), target) == Accept
    ensures ValidTargets(Some(current)) == []
  {
  }

  /** From a known status, every accepted transition leads to a known status
      strictly later in the lifecycle, so the lifecycle has no cycles. */
  lemma AcceptedTransitionsMoveForward(current: string, target: string)
    requires IsKnownStatus(current) && Decide(Some(current), target) == Accept
    ensures IsKnownStatus(target) && Stage(current) < Stage(target)
  {
  }

  /** The current status as loaded for the handler: the first record whose
      fechaHoraBajaEstadoCompra is null, none when no order is selected. */
  function FirstActive(docs: seq<StatusDoc>): (r: Option<nat>)
    ensures r.Some? ==> r.value < |docs| && docs[r.value].Active()
    ensures r.Some? ==> forall k :: 0 <= k < r.value ==> !docs[k].Active()
    ensures r.None? <==> forall k :: 0 <= k < |docs| ==> !docs[k].Active()
  {
    if docs == [] then None
    else if docs[0].Active() then Some(0)
    else
      match FirstActive(docs[1..])
      case None => None
      case Some(k) => Some(k + 1)
  }

  function LoadedStatus(orderId: string, docs: seq<StatusDoc>): (r: Option<nat>)
    ensures r.Some? ==> orderId != "" && r.value < |docs| && docs[r.value].Active()
    ensures r.None? ==> orderId == "" || forall k :: 0 <= k < |docs| ==> !docs[k].Active()
  {
    if orderId == "" then None else FirstActive(docs)
  }

  /** The name of the loaded current status, if any. */
  function LoadedName(orderId: string, docs: seq<StatusDoc>): Option<string> {
    match LoadedStatus(orderId, docs)
    case None => None
    case Some(i) => Some(docs[i].name)
  }

  /** The record written for the target status at time `at`. */
  function OpenRecord(target: string, at: int): StatusDoc {
    StatusDoc(target, target, at, None)
  }

  /** The status sub-collection after a transition: the current record `i` is
      closed at `at`, then the document whose id is the target name is set to
      an active record of the target. */
  function CloseThenAppend(docs: seq<StatusDoc>, i: nat, target: string, at: int): (r: seq<StatusDoc>)
    requires UniqueIds(docs) && i < |docs|
    ensures UniqueIds(r)
    ensures |docs| <= |r| <= |docs| + 1
    ensures forall k :: 0 <= k < |docs| ==> r[k].id == docs[k].id
    ensures forall k :: 0 <= k < |docs| && k != i && docs[k].id != target ==> r[k] == docs[k]
    ensures docs[i].id != target ==> r[i] == docs[i].(deactivatedAt := Some(at))
    ensures forall k :: |docs| <= k < |r| ==> r[k] == OpenRecord(target, at)
    ensures exists k :: 0 <= k < |r| && r[k] == OpenRecord(target, at)
  {
    var closed := docs[i := docs[i].(deactivatedAt := Some(at))];
    assert UniqueIds(closed) by {
      assert forall k :: 0 <= k < |docs| ==> closed[k].id == docs[k].id;
    }
    var r := SetDoc(closed, OpenRecord(target, at));
    assert exists k :: 0 <= k < |r| && r[k] == OpenRecord(target, at) by {
      var found := IndexOfId(closed, target);
      if found.Some? {
        assert r[found.value] == OpenRecord(target, at);
      } else {
        assert r[|closed|] == OpenRecord(target, at);
      }
    }
    r
  }

  /** The active-status invariant is kept: if the current record was the only
      active one, then after the transition exactly one record is active, it
      is the new record of the target, and the handler's next load finds it. */
  lemma {:induction false} TransitionKeepsOneActive(docs: seq<StatusDoc>, i: nat, target: string, at: int)
    requires UniqueIds(docs) && i < |docs| && docs[i].Active()
    requires ActiveCount(docs) == 1
    ensures var r := CloseThenAppend(docs, i, target, at);
            && ActiveCount(r) == 1
            && FirstActive(r).Some?
            && r[FirstActive(r).value] == OpenRecord(target, at)
  {
    ActiveCountOne(docs, i);
    var r := CloseThenAppend(docs, i, target, at);
    var k :| 0 <= k < |r| && r[k] == OpenRecord(target, at);
    forall j | 0 <= j < |r| && j != k
      ensures !r[j].Active()
    {
      assert r[j].id != target;
    }
    ActiveCountOne(r, k);
  }

  /** A reorder warning: the article's name, its new stock and the model's
      puntoPedido as stored. */
  datatype ReorderWarning = ReorderWarning(articleName: string, newStock: int, reorderPoint: Option<int>)

  /** The outcome of actualizarInventarioAlFinalizar. */
  datatype FinalizeOutcome =
    | OrderNotFound
    | OrderIncomplete
    | ArticleNotFound
    | StockUpdated(articleId: string, newStock: int, warning: Option<ReorderWarning>)

  /** The first inventory model listed for the article. */
  function FirstModelFor(models: seq<InventoryModel>, articleId: string): (r: Option<nat>)
    ensures r.Some? ==> r.value < |models| && models[r.value].articleId == articleId
    ensures r.Some? ==> forall k :: 0 <= k < r.value ==> models[k].articleId != articleId
    ensures r.None? <==> forall k :: 0 <= k < |models| ==> models[k].articleId != articleId
  {
    if models == [] then None
    else if models[0].articleId == articleId then Some(0)
    else
      match FirstModelFor(models[1..], articleId)
      case None => None
      case Some(k) => Some(k + 1)
  }

  /** The reorder-point check made after the stock write. */
  function ReorderCheck(models: seq<InventoryModel>, articleId: string, articleName: string, newStock: int)
    : (r: Option<ReorderWarning>)
    ensures FirstModelFor(models, articleId).None? ==> r.None?
    ensures r.Some? ==> var k := FirstModelFor(models, articleId).value;
      && models[k].modelType == MODELO1
      && r.value == ReorderWarning(articleName, newStock, models[k].reorderPoint)
      && newStock <= OrZero(r.value.reorderPoint)
  {
    match FirstModelFor(models, articleId)
    case None => None
    case Some(k) =>
      if models[k].modelType == MODELO1 && newStock <= OrZero(models[k].reorderPoint)
      then Some(ReorderWarning(articleName, newStock, models[k].reorderPoint))
      else None
  }

  /** A warning is raised exactly when the first model listed for the article
      is of kind modelo1 and the new stock is at or below its reorder point
      (an absent reorder point counting as 0). */
  lemma ReorderWarningIff(models: seq<InventoryModel>, articleId: string, articleName: string, newStock: int)
    ensures ReorderCheck(models, articleId, articleName, newStock).Some? <==>
      exists k :: 0 <= k < |models| && models[k].articleId == articleId
        && (forall j :: 0 <= j < k ==> models[j].articleId != articleId)
        && models[k].modelType == MODELO1 && newStock <= OrZero(models[k].reorderPoint)
  {
    var m := FirstModelFor(models, articleId);
    if m.Some? && models[m.value].modelType == MODELO1 && newStock <= OrZero(models[m.value].reorderPoint) {
      assert 0 <= m.value < |models| && models[m.value].articleId == articleId;
    }
  }

  /** Whether the order carries both an article code and a purchased quantity
      (an empty code and a zero quantity count as missing). */
  predicate HasArticleAndQuantity(o: Order) {
    o.articleId.Some? && o.articleId.value != "" && o.quantity.Some? && o.quantity.value != 0
  }

  /** What finalizing an order does to the stock, read from the store before
      the write. */
  function Finalization(orders: map<string, Order>, articles: map<string, Article>, models: seq<InventoryModel>,
                        orderId: string): (r: FinalizeOutcome)
    ensures r == OrderNotFound <==> orderId !in orders
    ensures r == OrderIncomplete <==> orderId in orders && !HasArticleAndQuantity(orders[orderId])
    ensures r == ArticleNotFound <==>
      orderId in orders && HasArticleAndQuantity(orders[orderId]) && orders[orderId].articleId.value !in articles
    ensures r.StockUpdated? ==>
      && orderId in orders && HasArticleAndQuantity(orders[orderId])
      && orders[orderId].articleId == Some(r.articleId) && r.articleId in articles
      && r.newStock == OrZero(articles[r.articleId].stock) + orders[orderId].quantity.value
      && r.warning == ReorderCheck(models, r.articleId, articles[r.articleId].name, r.newStock)
  {
    if orderId !in orders then OrderNotFound
    else if !HasArticleAndQuantity(orders[orderId]) then OrderIncomplete
    else
      var articleId := orders[orderId].articleId.value;
      if articleId !in articles then ArticleNotFound
      else
        var newStock := OrZero(articles[articleId].stock) + orders[orderId].quantity.value;
        StockUpdated(articleId, newStock, ReorderCheck(models, articleId, articles[articleId].name, newStock))
  }

  /** The stock is updated exactly when the order, its article code, a non-zero
      quantity and the article are all present; the new stock is the old stock
      (absent counting as 0) plus the quantity. */
  lemma FinalizationAddsQuantity(orders: map<string, Order>, articles: map<string, Article>,
                                 models: seq<InventoryModel>, orderId: string)
    ensures var r := Finalization(orders, articles, models, orderId);
      && (r.StockUpdated? <==>
            orderId in orders && HasArticleAndQuantity(orders[orderId]) && orders[orderId].articleId.value in articles)
      && (r.StockUpdated? ==>
            && r.articleId == orders[orderId].articleId.value
            && r.newStock == OrZero(articles[r.articleId].stock) + orders[orderId].quantity.value)
  {
  }

  /** The warning never blocks the stock write: the inventory models decide
      only whether a warning accompanies it. */
  lemma WarningNeverBlocksStock(orders: map<string, Order>, articles: map<string, Article>,
                                models: seq<InventoryModel>, otherModels: seq<InventoryModel>, orderId: string)
    ensures var r := Finalization(orders, articles, models, orderId);
            var s := Finalization(orders, articles, otherModels, orderId);
            && r.StockUpdated? == s.StockUpdated?
            && (r.StockUpdated? ==> r.articleId == s.articleId && r.newStock == s.newStock)
            && (!r.StockUpdated? ==> r == s)
  {
  }

  /** The article collection after a finalization outcome: only the updated
      article's stock field changes. */
  function ApplyStock(articles: map<string, Article>, r: FinalizeOutcome): map<string, Article> {
    if r.StockUpdated? && r.articleId in articles
    then articles[r.articleId := articles[r.articleId].(stock := Some(r.newStock))]
    else articles
  }

  /** Finalizing writes one field of one article: the same articles exist
      afterwards, every other article is untouched, and the updated one keeps
      its name, soft-delete stamp and supplier links. */
  lemma ApplyStockWritesOnlyStock(articles: map<string, Article>, r: FinalizeOutcome)
    ensures var a := ApplyStock(articles, r);
      && a.Keys == articles.Keys
      && (forall id :: id in articles ==>
            && a[id].name == articles[id].name && a[id].deactivatedAt == articles[id].deactivatedAt
            && a[id].links == articles[id].links)
      && (forall id :: id in articles && !(r.StockUpdated? && id == r.articleId) ==> a[id] == articles[id])
      && (r.StockUpdated? && r.articleId in articles ==> a[r.articleId].stock == Some(r.newStock))
  {
  }

  /** actualizarInventarioAlFinalizar: read the order, then the article, write
      the new stock, then look up the article's inventory model. */
  method FinalizeInventory(store: Store, orderId: string) returns (r: FinalizeOutcome)
    modifies store`articles
    ensures r == Finalization(store.orders, old(store.articles), store.models, orderId)
    ensures store.articles == ApplyStock(old(store.articles), r)
  {
    if orderId !in store.orders {
      return OrderNotFound;
    }
    var order := store.orders[orderId];
    if !HasArticleAndQuantity(order) {
      return OrderIncomplete;
    }
    var articleId := order.articleId.value;
    if articleId !in store.articles {
      return ArticleNotFound;
    }
    var article := store.articles[articleId];
    var newStock := OrZero(article.stock) + order.quantity.value;
    store.articles := store.articles[articleId := article.(stock := Some(newStock))];
    var warning := ReorderCheck(store.models, articleId, article.name, newStock);
    r := StockUpdated(articleId, newStock, warning);
  }

  /** The outcome of handleActualizarEstado: nothing to do, a refusal naming
      the attempted transition, or the new record with the finalization
      outcome when the target is Finalizada. */
  datatype UpdateOutcome =
    | NothingToDo
    | Refused(from: string, to: string)
    | Updated(record: StatusDoc, inventory: Option<FinalizeOutcome>)

  /** handleActualizarEstado for the order `orderId`, the requested target and
      the transition time `at`: guard, close the current record, set the
      target's record, then finalize the inventory on Finalizada. */
  method UpdateStatus(store: Store, orderId: string, target: string, at: int) returns (out: UpdateOutcome)
    requires store.Valid()
    modifies store`statuses, store`articles
    ensures store.Valid()
    ensures var d := Decide(LoadedName(orderId, old(store.StatusesOf(orderId))), target);
            && (out.NothingToDo? <==> d == Ignore)
            && (out.Refused? <==> d == Reject)
            && (out.Updated? <==> d == Accept)
    ensures out.Refused? ==> out == Refused(LoadedName(orderId, old(store.StatusesOf(orderId))).value, target)
    ensures !out.Updated? ==> store.statuses == old(store.statuses) && store.articles == old(store.articles)
    ensures out.Updated? ==>
              && LoadedStatus(orderId, old(store.StatusesOf(orderId))).Some?
              && store.statuses == old(store.statuses)[orderId :=
                   CloseThenAppend(old(store.StatusesOf(orderId)),
                                   LoadedStatus(orderId, old(store.StatusesOf(orderId))).value, target, at)]
              && out.record == OpenRecord(target, at)
              && (out.inventory.Some? <==> target == FINALIZADA)
    ensures out.Updated? && target == FINALIZADA ==>
              && out.inventory == Some(Finalization(store.orders, old(store.articles), store.models, orderId))
              && store.articles == ApplyStock(old(store.articles), out.inventory.value)
    ensures out.Updated? && target != FINALIZADA ==> store.articles == old(store.articles)
  {
    var docs := store.StatusesOf(orderId);
    var current := LoadedStatus(orderId, docs);
    if target == "" || current.None? {
      return NothingToDo;
    }
    var i := current.value;
    if Rejects(docs[i].name, target) {
      return Refused(docs[i].name, target);
    }
    // 1. close the current record
    var closed := docs[i := docs[i].(deactivatedAt := Some(at))];
    assert forall k :: 0 <= k < |docs| ==> closed[k].id == docs[k].id;
    store.statuses := store.statuses[orderId := closed];
    // 2. create (or replace) the record named after the target
    var record := OpenRecord(target, at);
    store.statuses := store.statuses[orderId := SetDoc(closed, record)];
    // 3. finalization runs only after both status writes
    var inventory := None;
    if target == FINALIZADA {
      var f := FinalizeInventory(store, orderId);
      inventory := Some(f);
    }
    out := Updated(record, inventory);
  }

  /** The lifecycle scenario of an order whose only active record is Enviada:
      a request for Pendiente is refused and writes nothing; a request for
      Finalizada closes the Enviada record, opens a Finalizada one and runs the
      inventory finalization. */
  method EnviadaScenario(store: Store, orderId: string, at: int) returns (refused: UpdateOutcome, accepted: UpdateOutcome)
    requires store.Valid() && orderId != ""
    requires store.StatusesOf(orderId) == [StatusDoc("e1", ENVIADA, 0, None)]
    modifies store`statuses, store`articles
    ensures refused == Refused(ENVIADA, PENDIENTE)
    ensures accepted.Updated? && accepted.record == OpenRecord(FINALIZADA, at) && accepted.inventory.Some?
    ensures store.StatusesOf(orderId) == [StatusDoc("e1", ENVIADA, 0, Some(at)), OpenRecord(FINALIZADA, at)]
  {
    refused := UpdateStatus(store, orderId, PENDIENTE, at);
    accepted := UpdateStatus(store, orderId, FINALIZADA, at);
    assert store.StatusesOf(orderId) == SetDoc([StatusDoc("e1", ENVIADA, 0, Some(at))], OpenRecord(FINALIZADA, at));
  }
}
