/** The document store shared by the purchase-order and supplier components,
    held in memory: each collection is a map from document id to the
    document's fields, and each order's EstadoOrdenCompra sub-collection is a
    sequence of documents in listing order. Timestamps are integers; a field
    that is null or absent is `None`. */
module Documents {

  datatype Option<T> = None | Some(value: T)

  /** `x || 0` on an optional number: absent (and zero) reads as 0. */
  function OrZero(x: Option<int>): int {
    if x.Some? then x.value else 0
  }

  /** One document of an order's EstadoOrdenCompra sub-collection: `id` is the
      document id, `name` is nombreEstadoCompra, `activatedAt` is
      fechaHoraAltaEstadoCompra (in seconds) and `deactivatedAt` is
      fechaHoraBajaEstadoCompra. */
  datatype StatusDoc = StatusDoc(id: string, name: string, activatedAt: int, deactivatedAt: Option<int>)
  {
    /** A status record is active while it has no fechaHoraBajaEstadoCompra. */
    predicate Active() {
      deactivatedAt.None?
    }
  }

  /** An OrdenCompra document: codProveedor, codArticulo, cantidadComprada and
      the soft-delete stamp fechaHoraBajaOrdenCompra. */
  datatype Order = Order(supplierId: string, articleId: Option<string>, quantity: Option<int>, deactivatedAt: Option<int>)

  /** A document of an article's ArticuloProveedor sub-collection: its id is the
      supplier's id; `isDefault` is esProveedorPredeterminado, absent when unset. */
  datatype SupplierLink = SupplierLink(supplierId: string, isDefault: Option<bool>)

  /** An Articulo document: nombreArticulo, stockActualArticulo,
      fechaHoraBajaArticulo and its ArticuloProveedor sub-collection. */
  datatype Article = Article(name: string, stock: Option<int>, deactivatedAt: Option<int>, links: seq<SupplierLink>)

  /** A Proveedor document: nombreProveedor and fechaHoraBajaProveedor. */
  datatype Supplier = Supplier(name: string, deactivatedAt: Option<int>)

  /** A ModeloInventario document: codArticulo, tipoModeloId and puntoPedido. */
  datatype InventoryModel = InventoryModel(articleId: string, modelType: string, reorderPoint: Option<int>)

  /** Document ids are unique within a collection. */
  predicate UniqueIds(docs: seq<StatusDoc>) {
    forall i, j :: 0 <= i < j < |docs| ==> docs[i].id != docs[j].id
  }

  /** The position of the document with the given id, if there is one. */
  function IndexOfId(docs: seq<StatusDoc>, id: string): (r: Option<nat>)
    ensures r.Some? ==> r.value < |docs| && docs[r.value].id == id
    ensures r.None? ==> forall k :: 0 <= k < |docs| ==> docs[k].id != id
  {
    if docs == [] then None
    else if docs[0].id == id then Some(0)
    else
      match IndexOfId(docs[1..], id)
      case None => None
      case Some(k) => Some(k + 1)
  }

  /** Firestore's setDoc on a sub-collection: create the document `d.id` with
      the given fields, or replace every field of the existing document with
      that id. A new document is listed after the existing ones. */
  function SetDoc(docs: seq<StatusDoc>, d: StatusDoc): (r: seq<StatusDoc>)
    requires UniqueIds(docs)
    ensures UniqueIds(r)
    ensures (exists k :: 0 <= k < |docs| && docs[k].id == d.id) ==> |r| == |docs|
    ensures (forall k :: 0 <= k < |docs| ==> docs[k].id != d.id) ==> r == docs + [d]
    ensures forall k :: 0 <= k < |docs| ==> r[k] == if docs[k].id == d.id then d else docs[k]
  {
    match IndexOfId(docs, d.id)
    case Some(k) => docs[k := d]
    case None => docs + [d]
  }

  /** The number of active records in a status sub-collection. */
  function ActiveCount(docs: seq<StatusDoc>): nat {
    if docs == [] then 0
    else ActiveCount(docs[..|docs| - 1]) + (if docs[|docs| - 1].Active() then 1 else 0)
  }

  lemma {:induction false} ActiveCountZero(docs: seq<StatusDoc>)
    ensures ActiveCount(docs) == 0 <==> forall k :: 0 <= k < |docs| ==> !docs[k].Active()
  {
    if docs != [] {
      var n := |docs| - 1;
      ActiveCountZero(docs[..n]);
      assert forall k :: 0 <= k < n ==> docs[..n][k] == docs[k];
    }
  }

  /** "Exactly one active record" by count is the same as "the active record
      at `i` is the only active one". */
  lemma {:induction false} ActiveCountOne(docs: seq<StatusDoc>, i: nat)
    requires i < |docs| && docs[i].Active()
    ensures ActiveCount(docs) == 1 <==> forall k :: 0 <= k < |docs| && k != i ==> !docs[k].Active()
  {
    var n := |docs| - 1;
    var prefix := docs[..n];
    assert forall k :: 0 <= k < n ==> prefix[k] == docs[k];
    if i == n {
      ActiveCountZero(prefix);
    } else {
      ActiveCountOne(prefix, i);
      ActiveCountZero(prefix);
    }
  }

  /** The status sub-collection of an order; empty when it has none. */
  function StatusesIn(statuses: map<string, seq<StatusDoc>>, orderId: string): seq<StatusDoc> {
    if orderId in statuses then statuses[orderId] else []
  }

  /** The in-memory document store. */
  class Store {
    /** Proveedor collection. */
    var suppliers: map<string, Supplier>
    /** Articulo collection, each with its ArticuloProveedor links. */
    var articles: map<string, Article>
    /** OrdenCompra collection. */
    var orders: map<string, Order>
    /** The EstadoOrdenCompra sub-collection of each order id. */
    var statuses: map<string, seq<StatusDoc>>
    /** ModeloInventario collection, in listing order. */
    var models: seq<InventoryModel>

    /** Every status sub-collection has unique document ids. */
    ghost predicate Valid()
      reads this
    {
      forall o :: o in statuses ==> UniqueIds(statuses[o])
    }

    constructor (suppliers: map<string, Supplier>, articles: map<string, Article>, orders: map<string, Order>,
                 statuses: map<string, seq<StatusDoc>>, models: seq<InventoryModel>)
      requires forall o :: o in statuses ==> UniqueIds(statuses[o])
      ensures Valid()
      ensures this.suppliers == suppliers && this.articles == articles && this.orders == orders
      ensures this.statuses == statuses && this.models == models
    {
      this.suppliers := suppliers;
      this.articles := articles;
      this.orders := orders;
      this.statuses := statuses;
      this.models := models;
    }

    /** The status sub-collection of an order in this store. */
    function StatusesOf(orderId: string): (docs: seq<StatusDoc>)
      reads this
      ensures Valid() ==> UniqueIds(docs)
    {
      StatusesIn(statuses, orderId)
    }
  }
}
