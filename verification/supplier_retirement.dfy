/** Supplier retirement of DeleteProveedor: the list of active suppliers, the
    two disqualifying checks of the validator (default supplier of an active
    article, then an order whose current status is still open), and the
    soft-delete of the selected supplier. */
module SupplierRetirement {
  import opened Documents
  import OrderLifecycle

  /** One document of the Proveedor snapshot, in listing order. */
  datatype SupplierDoc = SupplierDoc(id: string, supplier: Supplier)

  /** An entry of the component's supplier list: id, nombre and baja. */
  datatype ListedSupplier = ListedSupplier(id: string, name: string, deactivatedAt: Option<int>)

  function Listing(d: SupplierDoc): ListedSupplier {
    ListedSupplier(d.id, d.supplier.name, d.supplier.deactivatedAt)
  }

  /** The initial fetch: every supplier mapped to its list entry, keeping only
      those without fechaHoraBajaProveedor, in snapshot order. */
  function ActiveSuppliers(snapshot: seq<SupplierDoc>): (r: seq<ListedSupplier>)
    ensures |r| <= |snapshot|
    ensures forall p :: p in r ==> p.deactivatedAt.None?
    ensures forall p :: p in r ==> exists k :: 0 <= k < |snapshot| && Listing(snapshot[k]) == p
    ensures forall k :: 0 <= k < |snapshot| ==>
              (Listing(snapshot[k]) in r <==> snapshot[k].supplier.deactivatedAt.None?)
  {
    if snapshot == [] then []
    else
      var rest := ActiveSuppliers(snapshot[1..]);
      assert forall p :: p in rest ==> exists k :: 0 <= k < |snapshot| && Listing(snapshot[k]) == p by {
        forall p | p in rest
          ensures exists k :: 0 <= k < |snapshot| && Listing(snapshot[k]) == p
        {
          var k :| 0 <= k < |snapshot[1..]| && Listing(snapshot[1..][k]) == p;
          assert Listing(snapshot[k + 1]) == p;
        }
      }
      assert forall k :: 1 <= k < |snapshot| ==> snapshot[k] == snapshot[1..][k - 1];
      if snapshot[0].supplier.deactivatedAt.None? then [Listing(snapshot[0])] + rest else rest
  }

  /** The local list after a retirement: every entry but the retired id's, in
      the same order. */
  function Without(listed: seq<ListedSupplier>, id: string): (r: seq<ListedSupplier>)
    ensures |r| <= |listed|
    ensures forall p :: p in r <==> p in listed && p.id != id
  {
    if listed == [] then []
    else
      var rest := Without(listed[1..], id);
      assert forall p :: p in listed <==> p == listed[0] || p in listed[1..];
      if listed[0].id != id then [listed[0]] + rest else rest
  }

  /** The supplier snapshot after the soft-delete of `id` at time `at`. */
  function MarkRetired(snapshot: seq<SupplierDoc>, id: string, at: int): (r: seq<SupplierDoc>)
    ensures |r| == |snapshot|
    ensures forall k :: 0 <= k < |snapshot| ==>
              r[k] == if snapshot[k].id == id
                      then snapshot[k].(supplier := snapshot[k].supplier.(deactivatedAt := Some(at)))
                      else snapshot[k]
  {
    if snapshot == [] then []
    else
      var d := snapshot[0];
      [if d.id == id then d.(supplier := d.supplier.(deactivatedAt := Some(at))) else d]
        + MarkRetired(snapshot[1..], id, at)
  }

  /** Removing the retired id from the list gives exactly the list a fresh
      fetch would show after the soft-delete, order included. */
  lemma {:induction false} RetiredListMatchesRefetch(snapshot: seq<SupplierDoc>, id: string, at: int)
    ensures Without(ActiveSuppliers(snapshot), id) == ActiveSuppliers(MarkRetired(snapshot, id, at))
  {
    if snapshot != [] {
      var marked := MarkRetired(snapshot, id, at);
      assert marked[1..] == MarkRetired(snapshot[1..], id, at);
      RetiredListMatchesRefetch(snapshot[1..], id, at);
      var rest := ActiveSuppliers(snapshot[1..]);
      if snapshot[0].supplier.deactivatedAt.None? {
        assert ActiveSuppliers(snapshot) == [Listing(snapshot[0])] + rest;
        assert ([Listing(snapshot[0])] + rest)[1..] == rest;
      }
    }
  }

  /** Index `i` is the record the validator takes as current: the last element
      after a stable ascending sort of the active records by activation time,
      that is, an active record with the greatest activation time and, among
      those, the one listed last. */
  predicate IsStableSortLast(docs: seq<StatusDoc>, i: nat) {
    && i < |docs| && docs[i].Active()
    && (forall k :: 0 <= k < |docs| && docs[k].Active() ==> docs[k].activatedAt <= docs[i].activatedAt)
    && (forall k :: i < k < |docs| && docs[k].Active() ==> docs[k].activatedAt < docs[i].activatedAt)
  }

  /** The current status of an order for the validator; none when the order
      has no active record. */
  function LatestActive(docs: seq<StatusDoc>): (r: Option<nat>)
    ensures r.Some? ==> IsStableSortLast(docs, r.value)
    ensures r.None? <==> forall k :: 0 <= k < |docs| ==> !docs[k].Active()
  {
    if docs == [] then None
    else
      var n := |docs| - 1;
      var p := LatestActive(docs[..n]);
      assert forall k :: 0 <= k < n ==> docs[..n][k] == docs[k];
      if docs[n].Active() && (p.None? || docs[p.value].activatedAt <= docs[n].activatedAt) then Some(n) else p
  }

  /** At most one record satisfies IsStableSortLast, so the selection is
      determined by the records alone. */
  lemma StableSortLastIsUnique(docs: seq<StatusDoc>, i: nat, j: nat)
    requires IsStableSortLast(docs, i) && IsStableSortLast(docs, j)
    ensures i == j
  {
  }

  /** On a status sub-collection that keeps the active-status invariant, the
      validator's selection and the status handler's selection coincide. */
  lemma SelectionsAgree(docs: seq<StatusDoc>)
    requires ActiveCount(docs) == 1
    ensures LatestActive(docs) == OrderLifecycle.FirstActive(docs)
    ensures LatestActive(docs).Some?
  {
    ActiveCountZero(docs);
    var j := OrderLifecycle.FirstActive(docs).value;
    ActiveCountOne(docs, j);
  }

  /** The two status names that keep an order open. */
  predicate IsOpenStatus(name: string) {
    name == OrderLifecycle.PENDIENTE || name == OrderLifecycle.ENVIADA
  }

  /** An order whose current status is open, judged on its status records. */
  predicate HasOpenStatus(docs: seq<StatusDoc>) {
    var c := LatestActive(docs);
    c.Some? && IsOpenStatus(docs[c.value].name)
  }

  /** After a transition to a status that is not open, on an order that kept
      the active-status invariant, the order no longer blocks retirement. */
  lemma {:induction false} ClosingTransitionUnblocks(docs: seq<StatusDoc>, i: nat, target: string, at: int)
    requires UniqueIds(docs) && i < |docs| && docs[i].Active() && ActiveCount(docs) == 1
    requires !IsOpenStatus(target)
    ensures var r := OrderLifecycle.CloseThenAppend(docs, i, target, at);
            && LatestActive(r).Some?
            && r[LatestActive(r).value] == OrderLifecycle.OpenRecord(target, at)
            && !HasOpenStatus(r)
  {
    OrderLifecycle.TransitionKeepsOneActive(docs, i, target, at);
    SelectionsAgree(OrderLifecycle.CloseThenAppend(docs, i, target, at));
  }

  /** Check A's test on one article's links: some link whose id is the
      supplier has esProveedorPredeterminado exactly true. */
  predicate HasDefaultLink(links: seq<SupplierLink>, supplierId: string) {
    exists k :: 0 <= k < |links| && links[k].supplierId == supplierId && links[k].isDefault == Some(true)
  }

  /** Check A: an article that is not deactivated and names the supplier as
      its default. */
  predicate BlocksAsDefault(a: Article, supplierId: string) {
    a.deactivatedAt.None? && HasDefaultLink(a.links, supplierId)
  }

  /** Check B: an order of the supplier whose current status is open. */
  predicate BlocksAsOpenOrder(o: Order, docs: seq<StatusDoc>, supplierId: string) {
    o.supplierId == supplierId && HasOpenStatus(docs)
  }

  /** The validator's answer; each refusal names the check that fired. */
  datatype Verdict = Allowed | DefaultSupplierInUse | OpenOrderExists

  /** Check A fires: some article disqualifies the supplier. */
  predicate DefaultCheckFires(articles: map<string, Article>, supplierId: string) {
    exists a :: a in articles && BlocksAsDefault(articles[a], supplierId)
  }

  /** Check B fires: some order of the supplier is still open. */
  predicate OpenOrderCheckFires(orders: map<string, Order>, statuses: map<string, seq<StatusDoc>>, supplierId: string) {
    exists o :: o in orders && BlocksAsOpenOrder(orders[o], StatusesIn(statuses, o), supplierId)
  }

  /** The verdict of validarBaja: Check A first, then Check B. */
  function RetirementVerdict(articles: map<string, Article>, orders: map<string, Order>,
                             statuses: map<string, seq<StatusDoc>>, supplierId: string): (v: Verdict)
    ensures v == DefaultSupplierInUse <==> DefaultCheckFires(articles, supplierId)
    ensures v == OpenOrderExists <==>
      !DefaultCheckFires(articles, supplierId) && OpenOrderCheckFires(orders, statuses, supplierId)
    ensures v == Allowed <==>
      !DefaultCheckFires(articles, supplierId) && !OpenOrderCheckFires(orders, statuses, supplierId)
  {
    if DefaultCheckFires(articles, supplierId) then DefaultSupplierInUse
    else if OpenOrderCheckFires(orders, statuses, supplierId) then OpenOrderExists
    else Allowed
  }

  /** validarBaja: scan the articles, skipping deactivated ones, and stop at
      the first that has the supplier as default; then scan the supplier's
      orders and stop at the first whose current status is open. It writes
      nothing. */
  method ValidateRetirement(store: Store, supplierId: string) returns (v: Verdict)
    ensures v == RetirementVerdict(store.articles, store.orders, store.statuses, supplierId)
  {
    var articlesLeft := store.articles.Keys;
    while articlesLeft != {}
      invariant articlesLeft <= store.articles.Keys
      invariant forall a :: a in store.articles && a !in articlesLeft ==> !BlocksAsDefault(store.articles[a], supplierId)
      decreases articlesLeft
    {
      var a :| a in articlesLeft;
      var article := store.articles[a];
      if article.deactivatedAt.None? && HasDefaultLink(article.links, supplierId) {
        return DefaultSupplierInUse;
      }
      articlesLeft := articlesLeft - {a};
    }
    var ordersLeft := set o | o in store.orders && store.orders[o].supplierId == supplierId;
    while ordersLeft != {}
      invariant forall o :: o in ordersLeft ==> o in store.orders && store.orders[o].supplierId == supplierId
      invariant forall o :: o in store.orders && o !in ordersLeft ==>
                  !BlocksAsOpenOrder(store.orders[o], StatusesIn(store.statuses, o), supplierId)
      decreases ordersLeft
    {
      var o :| o in ordersLeft;
      var docs := StatusesIn(store.statuses, o);
      var current := LatestActive(docs);
      if current.Some? && IsOpenStatus(docs[current.value].name) {
        return OpenOrderExists;
      }
      ordersLeft := ordersLeft - {o};
    }
    return Allowed;
  }

  /** Check A takes precedence: a supplier that is the default of an active
      article is refused for that reason whatever its orders are. */
  lemma DefaultCheckComesFirst(articles: map<string, Article>, orders: map<string, Order>,
                               statuses: map<string, seq<StatusDoc>>, supplierId: string, a: string)
    requires a in articles && BlocksAsDefault(articles[a], supplierId)
    ensures RetirementVerdict(articles, orders, statuses, supplierId) == DefaultSupplierInUse
  {
  }

  /** A deactivated article never disqualifies: the verdict is the same as
      without that article. */
  lemma DeactivatedArticlesNeverBlock(articles: map<string, Article>, orders: map<string, Order>,
                                      statuses: map<string, seq<StatusDoc>>, supplierId: string,
                                      a: string, article: Article)
    requires article.deactivatedAt.Some?
    ensures RetirementVerdict(articles[a := article], orders, statuses, supplierId)
         == RetirementVerdict(articles - {a}, orders, statuses, supplierId)
  {
    var with := articles[a := article];
    var without := articles - {a};
    if DefaultCheckFires(with, supplierId) {
      var b :| b in with && BlocksAsDefault(with[b], supplierId);
      assert b != a && b in without;
    }
    if DefaultCheckFires(without, supplierId) {
      var b :| b in without && BlocksAsDefault(without[b], supplierId);
      assert b in with;
    }
  }

  /** Check B does not exclude soft-deleted orders: the order's own
      fechaHoraBajaOrdenCompra has no effect on the verdict. */
  lemma SoftDeletedOrdersStillCount(articles: map<string, Article>, orders: map<string, Order>,
                                    statuses: map<string, seq<StatusDoc>>, supplierId: string,
                                    o: string, stamp: Option<int>)
    requires o in orders
    ensures RetirementVerdict(articles, orders[o := orders[o].(deactivatedAt := stamp)], statuses, supplierId)
         == RetirementVerdict(articles, orders, statuses, supplierId)
  {
    var changed := orders[o := orders[o].(deactivatedAt := stamp)];
    if OpenOrderCheckFires(orders, statuses, supplierId) {
      var p :| p in orders && BlocksAsOpenOrder(orders[p], StatusesIn(statuses, p), supplierId);
      assert p in changed && BlocksAsOpenOrder(changed[p], StatusesIn(statuses, p), supplierId);
    }
    if OpenOrderCheckFires(changed, statuses, supplierId) {
      var p :| p in changed && BlocksAsOpenOrder(changed[p], StatusesIn(statuses, p), supplierId);
      assert p in orders && BlocksAsOpenOrder(orders[p], StatusesIn(statuses, p), supplierId);
    }
  }

  /** Retirement is allowed when no active article has the supplier as default
      and each of the supplier's orders has no active status or a current
      status that is not open (Finalizada, Cancelada or any other name). */
  lemma ClosedOrdersNeverBlock(articles: map<string, Article>, orders: map<string, Order>,
                               statuses: map<string, seq<StatusDoc>>, supplierId: string)
    requires forall a :: a in articles ==> !BlocksAsDefault(articles[a], supplierId)
    requires forall o :: o in orders && orders[o].supplierId == supplierId ==>
               var docs := StatusesIn(statuses, o);
               var c := LatestActive(docs);
               c.None? || !IsOpenStatus(docs[c.value].name)
    ensures RetirementVerdict(articles, orders, statuses, supplierId) == Allowed
  {
  }

  /** The document ids of a snapshot. */
  function Ids(snapshot: seq<SupplierDoc>): set<string> {
    if snapshot == [] then {} else {snapshot[0].id} + Ids(snapshot[1..])
  }

  /** A snapshot of the Proveedor collection lists exactly the stored
      suppliers, each once. */
  predicate IsSnapshotOf(snapshot: seq<SupplierDoc>, suppliers: map<string, Supplier>) {
    && (forall i, j :: 0 <= i < j < |snapshot| ==> snapshot[i].id != snapshot[j].id)
    && (forall k :: 0 <= k < |snapshot| ==>
          snapshot[k].id in suppliers && suppliers[snapshot[k].id] == snapshot[k].supplier)
    && suppliers.Keys <= Ids(snapshot)
  }

  lemma {:induction false} MarkRetiredKeepsIds(snapshot: seq<SupplierDoc>, id: string, at: int)
    ensures Ids(MarkRetired(snapshot, id, at)) == Ids(snapshot)
  {
    if snapshot != [] {
      MarkRetiredKeepsIds(snapshot[1..], id, at);
      assert MarkRetired(snapshot, id, at)[1..] == MarkRetired(snapshot[1..], id, at);
    }
  }

  /** The soft-delete write and MarkRetired describe the same change. */
  lemma RetireKeepsSnapshot(snapshot: seq<SupplierDoc>, suppliers: map<string, Supplier>, id: string, at: int)
    requires IsSnapshotOf(snapshot, suppliers) && id in suppliers
    ensures IsSnapshotOf(MarkRetired(snapshot, id, at),
                         suppliers[id := suppliers[id].(deactivatedAt := Some(at))])
  {
    var marked := MarkRetired(snapshot, id, at);
    var updated := suppliers[id := suppliers[id].(deactivatedAt := Some(at))];
    forall k | 0 <= k < |marked|
      ensures marked[k].id == snapshot[k].id
      ensures marked[k].id in updated && updated[marked[k].id] == marked[k].supplier
    {
      if snapshot[k].id == id {
        assert marked[k].supplier == suppliers[id].(deactivatedAt := Some(at));
      } else {
        assert marked[k] == snapshot[k];
      }
    }
    assert updated.Keys == suppliers.Keys;
    MarkRetiredKeepsIds(snapshot, id, at);
  }

  /** The outcome of handleDelete. */
  datatype DeleteOutcome = NoSelection | NotConfirmed | Refused(reason: Verdict) | SupplierNotFound | Retired

  /** The DeleteProveedor component's state: the list it shows and the
      selected id, beside the supplier snapshot the list was derived from. */
  class SupplierPanel {
    var listed: seq<ListedSupplier>
    var selectedId: string
    /** The supplier documents as the list last reflected them. */
    ghost var snapshot: seq<SupplierDoc>

    /** The list shown is what a fetch of the store would show. */
    ghost predicate Valid(store: Store)
      reads this, store
    {
      listed == ActiveSuppliers(snapshot) && IsSnapshotOf(snapshot, store.suppliers)
    }

    /** The initial fetch of the Proveedor collection. */
    constructor Load(store: Store, fetched: seq<SupplierDoc>)
      requires IsSnapshotOf(fetched, store.suppliers)
      ensures Valid(store)
      ensures listed == ActiveSuppliers(fetched) && selectedId == ""
    {
      listed := ActiveSuppliers(fetched);
      selectedId := "";
      snapshot := fetched;
    }

    /** The selection control's change handler. */
    method Select(id: string)
      modifies this`selectedId
      ensures selectedId == id
    {
      selectedId := id;
    }

    /** handleDelete: nothing without a selection or a confirmation; otherwise
        validate, and on success stamp fechaHoraBajaProveedor with `now`, drop
        the supplier from the list and clear the selection. A supplier missing
        from the store makes the update fail before the list changes. */
    method HandleDelete(store: Store, confirmed: bool, now: int) returns (out: DeleteOutcome)
      requires Valid(store)
      modifies this, store`suppliers
      ensures Valid(store)
      ensures var v := RetirementVerdict(store.articles, store.orders, store.statuses, old(selectedId));
              out == if old(selectedId) == "" then NoSelection
                     else if !confirmed then NotConfirmed
                     else if v != Allowed then Refused(v)
                     else if old(selectedId) !in old(store.suppliers) then SupplierNotFound
                     else Retired
      ensures !out.Retired? ==>
                store.suppliers == old(store.suppliers) && listed == old(listed) && selectedId == old(selectedId)
      ensures out.Retired? ==>
                && old(selectedId) in old(store.suppliers)
                && store.suppliers == old(store.suppliers)[old(selectedId) :=
                     old(store.suppliers)[old(selectedId)].(deactivatedAt := Some(now))]
                && listed == Without(old(listed), old(selectedId))
                && selectedId == ""
    {
      if selectedId == "" {
        return NoSelection;
      }
      if !confirmed {
        return NotConfirmed;
      }
      var v := ValidateRetirement(store, selectedId);
      if v != Allowed {
        return Refused(v);
      }
      if selectedId !in store.suppliers {
        return SupplierNotFound;
      }
      var id := selectedId;
      store.suppliers := store.suppliers[id := store.suppliers[id].(deactivatedAt := Some(now))];
      RetiredListMatchesRefetch(snapshot, id, now);
      RetireKeepsSnapshot(snapshot, old(store.suppliers), id, now);
      listed := Without(listed, id);
      snapshot := MarkRetired(snapshot, id, now);
      selectedId := "";
      out := Retired;
    }
  }
}
