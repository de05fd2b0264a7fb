# Purchase-order lifecycle and supplier retirement, in Dafny

This project models the two rule engines of the stockmaster procurement
screens, with the Firestore document store replaced by in-memory maps and
sequences and every timestamp by an integer.

- **Order status lifecycle** (`UpdateEstadoOrdenCompra.js`, module
  `OrderLifecycle`). An order's statuses live in its EstadoOrdenCompra
  sub-collection. The lifecycle is Pendiente → Enviada | Cancelada and
  Enviada → Finalizada. A status change never edits a record in place. It
  closes the current record by stamping `fechaHoraBajaEstadoCompra`. It then
  sets the document named after the target to an active record of the
  target. Reaching Finalizada adds the order's purchased quantity to its
  article's stock. It raises a reorder warning when the article's first
  inventory model is `modelo1` and the new stock is at or below its reorder
  point.
- **Supplier retirement** (`DeleteProveedor.js`, module
  `SupplierRetirement`). The component lists the suppliers that are not
  soft-deleted. Before a soft-delete it checks, in this order:
  - Check A: no active article has the supplier as default supplier.
  - Check B: none of the supplier's orders has a current status of
    Pendiente or Enviada. The current status is the active record with the
    latest activation time; on a tie, the record listed later wins.

  If both checks pass, only `fechaHoraBajaProveedor` is written, and the
  supplier leaves the local list.

`documents.dfy` (module `Documents`) holds the document shapes and the
`Store` class, whose fields are the collections. `order_lifecycle.dfy` and
`supplier_retirement.dfy` hold one module per source file. The status
handler `UpdateStatus` and `FinalizeInventory` are module-level methods that
take the `Store` as a parameter. The delete handler `HandleDelete` is a
method of the `SupplierPanel` class, which holds the component's list and
selection. The status methods have field-level `modifies` clauses; `HandleDelete` modifies its own panel and the store's supplier collection. The table, the
guard, the current-status selections and the validator's verdict are
functions. The lemmas relate them.

Some behaviours of the code, kept as written:
- A request with no target, or with no loaded current status, returns
  silently and writes nothing.
- The guard only rejects from the four known status names. From any other
  name every non-empty target is accepted, although `getEstadosValidos`
  offers none (`UnknownStatusIsNotGuarded`).
- An empty article code and a zero quantity count as missing, just like
  absent ones.
- Soft-deleted orders are not excluded from Check B.
- `TransitionKeepsOneActive` proves the one-active-record invariant without
  assuming that the current record's id differs from the target name. When
  the two ids coincide, the write replaces the closed record with the new
  active one.

## Model

| member | source | states |
|---|---|---|
| `Documents.SetDoc` | src/components/Ordencompra/UpdateEstadoOrdenCompra.js:98-110 | Writing a document creates it, or replaces every field of the document with that id. Document ids stay unique and every other document is unchanged. A new document is listed last. |
| `Documents.ActiveCountOne` | src/components/Ordencompra/UpdateEstadoOrdenCompra.js:57-61 | "Exactly one active status record" by count is equivalent to "the active record at `i` is the only active one". |
| `OrderLifecycle.ValidTargets` | src/components/Ordencompra/UpdateEstadoOrdenCompra.js:238-245 | `getEstadosValidos`' table. Pendiente offers [Enviada, Cancelada] and Enviada offers [Finalizada]. Every other name, and no current status, offers []. Every offered target is a known status at a later stage than the current one. |
| `OrderLifecycle.Rejects` | src/components/Ordencompra/UpdateEstadoOrdenCompra.js:73-77 | The guard rejects only from one of the four known statuses, and it never rejects a target the table offers. |
| `OrderLifecycle.Decide` | src/components/Ordencompra/UpdateEstadoOrdenCompra.js:70-81 | The handler does nothing exactly when the target is empty or there is no current status. |
| `OrderLifecycle.GuardAgreesWithTable` | src/components/Ordencompra/UpdateEstadoOrdenCompra.js:73-81 | From Pendiente, Enviada, Finalizada or Cancelada, a target is accepted if and only if it is in `getEstadosValidos`' list for that status. |
| `OrderLifecycle.TerminalStatusesRejectAll` | src/components/Ordencompra/UpdateEstadoOrdenCompra.js:73-81 | From Finalizada or Cancelada, every non-empty target is rejected and the table offers nothing. |
| `OrderLifecycle.UnknownStatusIsNotGuarded` | src/components/Ordencompra/UpdateEstadoOrdenCompra.js:73-81 | From a name outside the four statuses, every non-empty target is accepted, while the table offers none. |
| `OrderLifecycle.AcceptedTransitionsMoveForward` | src/components/Ordencompra/UpdateEstadoOrdenCompra.js:73-81 | From a known status, an accepted target is a known status at a strictly later stage, so the lifecycle has no cycles. |
| `OrderLifecycle.FirstActive` | src/components/Ordencompra/UpdateEstadoOrdenCompra.js:57-64 | Returns the first record without a baja, with no active record before it. Returns none if and only if no record is active. |
| `OrderLifecycle.LoadedStatus` | src/components/Ordencompra/UpdateEstadoOrdenCompra.js:49-64 | The loaded current status is an active record of the selected order. There is none when no order is selected or no record is active. |
| `OrderLifecycle.CloseThenAppend` | src/components/Ordencompra/UpdateEstadoOrdenCompra.js:86-110 | A transition never removes or renames a record. It closes the current record at `fecha` and leaves every other record untouched, except the one whose id is the target. A record `{target, fecha, null}` is present afterwards. Ids stay unique. |
| `OrderLifecycle.TransitionKeepsOneActive` | src/components/Ordencompra/UpdateEstadoOrdenCompra.js:94-110 | If exactly one record was active, then after the transition exactly one is active. That record is the new target record, and it is the one the handler loads next. |
| `OrderLifecycle.FirstModelFor` | src/components/Ordencompra/UpdateEstadoOrdenCompra.js:213-221 | Returns the first inventory model listed for the article, or none if and only if the article has no model. |
| `OrderLifecycle.ReorderCheck` | src/components/Ordencompra/UpdateEstadoOrdenCompra.js:213-230 | There is no warning when the article has no inventory model. A warning requires that the article's first model be `modelo1` and the new stock be at most its `puntoPedido` (absent counts as 0). The warning carries the article name, the new stock and that model's reorder point. |
| `OrderLifecycle.ReorderWarningIff` | src/components/Ordencompra/UpdateEstadoOrdenCompra.js:220-230 | A warning is raised if and only if the first model for the article has type `modelo1` and the new stock is at most `puntoPedido` (absent counts as 0). |
| `OrderLifecycle.Finalization` | src/components/Ordencompra/UpdateEstadoOrdenCompra.js:180-230 | The outcome is OrderNotFound if and only if the order does not exist. It is OrderIncomplete if and only if the order exists but its article code or quantity is absent, empty or zero. It is ArticleNotFound if and only if the order is complete but its article does not exist. A stock update names the order's own article, which exists, and the order has a code and a non-zero quantity. The new stock is the old stock (absent counts as 0) plus the quantity, and the warning is the reorder check for that stock. |
| `OrderLifecycle.ApplyStockWritesOnlyStock` | src/components/Ordencompra/UpdateEstadoOrdenCompra.js:207-210 | The stock write keeps the set of articles. Every article other than the updated one is unchanged. The updated article keeps its name, soft-delete stamp and supplier links, and its `stockActualArticulo` becomes the new stock. |
| `OrderLifecycle.FinalizationAddsQuantity` | src/components/Ordencompra/UpdateEstadoOrdenCompra.js:180-210 | The stock is updated if and only if the order, a non-empty article code, a non-zero quantity and the article all exist. The new stock is the old stock (absent counts as 0) plus the quantity. |
| `OrderLifecycle.WarningNeverBlocksStock` | src/components/Ordencompra/UpdateEstadoOrdenCompra.js:207-234 | The inventory models affect only the warning. The stock outcome and the new stock are the same whatever the models are. |
| `OrderLifecycle.FinalizeInventory` | src/components/Ordencompra/UpdateEstadoOrdenCompra.js:179-235 | Returns the finalization outcome for the order. It changes only the updated article's `stockActualArticulo`, and nothing at all in the three failure cases. |
| `OrderLifecycle.UpdateStatus` | src/components/Ordencompra/UpdateEstadoOrdenCompra.js:69-115 | Ignores, refuses (naming the from and to statuses) or performs the transition as the guard decides. On refusal or ignore nothing is written. On acceptance the order's statuses become `CloseThenAppend` of the old ones. Finalization runs if and only if the target is Finalizada, and only that changes the stock. |
| `OrderLifecycle.EnviadaScenario` | src/components/Ordencompra/UpdateEstadoOrdenCompra.js:73-115 | For an order whose only record is an active Enviada, a request for Pendiente is refused. A request for Finalizada closes the Enviada record, opens a Finalizada record and runs finalization. |
| `SupplierRetirement.ActiveSuppliers` | src/components/Proveedor/DeleteProveedor.js:20-26 | A supplier appears in the list if and only if it has no `fechaHoraBajaProveedor`. Every entry comes from the snapshot. |
| `SupplierRetirement.Without` | src/components/Proveedor/DeleteProveedor.js:107 | The new list holds exactly the old entries whose id is not the retired one. |
| `SupplierRetirement.MarkRetired` | src/components/Proveedor/DeleteProveedor.js:103-105 | After the soft-delete, only the retired supplier's baja changes, and it becomes the given time. |
| `SupplierRetirement.RetiredListMatchesRefetch` | src/components/Proveedor/DeleteProveedor.js:103-107 | Filtering the retired id out of the list gives exactly the list a fresh fetch would show after the write, in the same order. |
| `SupplierRetirement.RetireKeepsSnapshot` | src/components/Proveedor/DeleteProveedor.js:103-105 | The soft-delete write on the store and the retired snapshot still describe the same suppliers. |
| `SupplierRetirement.LatestActive` | src/components/Proveedor/DeleteProveedor.js:70-81 | Returns the active record that is last after a stable ascending sort by activation time: it has the greatest activation time, and every later-listed active record has a strictly smaller one. Returns none if and only if no record is active. |
| `SupplierRetirement.StableSortLastIsUnique` | src/components/Proveedor/DeleteProveedor.js:79-81 | That selection rule picks at most one record. |
| `SupplierRetirement.SelectionsAgree` | src/components/Proveedor/DeleteProveedor.js:79-81 | When exactly one record is active, the validator's selection equals the status handler's first-active selection. |
| `SupplierRetirement.ClosingTransitionUnblocks` | src/components/Proveedor/DeleteProveedor.js:83-86 | After a transition to a status other than Pendiente or Enviada, on an order that had one active record, the order's current status is the new record and the order does not block retirement. |
| `SupplierRetirement.RetirementVerdict` | src/components/Proveedor/DeleteProveedor.js:32-91 | The verdict is DefaultSupplierInUse if and only if Check A fires. It is OpenOrderExists if and only if Check A does not fire and Check B does. It is Allowed if and only if neither check fires. |
| `SupplierRetirement.ValidateRetirement` | src/components/Proveedor/DeleteProveedor.js:32-92 | Returns DefaultSupplierInUse if and only if Check A fires. Otherwise it returns OpenOrderExists if and only if Check B fires, and Allowed in every other case. It writes nothing. |
| `SupplierRetirement.DefaultCheckComesFirst` | src/components/Proveedor/DeleteProveedor.js:54-57 | A supplier that is the default of an active article is refused for that reason, whatever its orders are. |
| `SupplierRetirement.DeactivatedArticlesNeverBlock` | src/components/Proveedor/DeleteProveedor.js:38-39 | A deactivated article leaves the verdict unchanged: the verdict is the same with or without it. |
| `SupplierRetirement.SoftDeletedOrdersStillCount` | src/components/Proveedor/DeleteProveedor.js:61-63 | An order's own soft-delete stamp has no effect on the verdict. |
| `SupplierRetirement.ClosedOrdersNeverBlock` | src/components/Proveedor/DeleteProveedor.js:74-91 | With no active default-supplier link, retirement is allowed when each of the supplier's orders either has no active record or a current status other than Pendiente or Enviada. |
| `SupplierRetirement.SupplierPanel.Load` | src/components/Proveedor/DeleteProveedor.js:17-30 | The initial list is `ActiveSuppliers` of the fetched snapshot, and nothing is selected. |
| `SupplierRetirement.SupplierPanel.Select` | src/components/Proveedor/DeleteProveedor.js:117-121 | The selection becomes the chosen id. |
| `SupplierRetirement.SupplierPanel.HandleDelete` | src/components/Proveedor/DeleteProveedor.js:94-110 | The outcome is, in this order: no selection, not confirmed, refused with the validator's reason, or supplier missing. In those cases nothing changes. Otherwise only the supplier's `fechaHoraBajaProveedor` is set, the list loses that id, the selection clears, and the list still equals a fresh fetch. |

## Left out

- The Firestore SDK: `getDocs`, `getDoc`, `updateDoc`, `setDoc`, `query` and `where` become reads and writes of the `Store` fields. Store failures are not modelled, except that updating a missing supplier fails before the list changes.
- React state, effects and rendering. After a transition the code also resets `estadoActual`, `nuevoEstado` and the selection and refetches the orders; the model leaves these out. The handler reads the current status from the store at call time, as the loading effect does.
- `alert` and `window.confirm`. Confirmation is a boolean input. Refusals and warnings are returned values, and at most one reorder warning exists, so the message list becomes an `Option`.
- `fetchOrdenes` (UpdateEstadoOrdenCompra.js:22-42). Its loop body is truncated and never fills the list it returns.
- The commented-out line-item version of finalization (UpdateEstadoOrdenCompra.js:132-178). It is disabled code.
- `TablaOrdenesCompra.js`: display aggregation, text filtering and date sorting, with no rule logic.
- `parseInt` coercion, `new Date()` and `Timestamp.now()`. Stock, quantity and timestamps are integer inputs, and the activation time is its `.seconds` value. A record without an activation time, which makes the source's sort comparator fail, is not modelled.
- Null versus absent fields. The source's `where(... == null)` query matches only an explicit null; the model treats an absent stamp as null.
- JavaScript truthiness beyond absence, `""` and `0`. Values such as `NaN` or a non-boolean `esProveedorPredeterminado` are not modelled; the flag is true, false or absent.
- Listing order. Firestore lists documents by id. The model lists them in insertion order, with a newly created status document listed last. Two choices depend on this order. The first is Check B's tie-break between active records with equal activation times. The second is the status handler's choice of current record (`FirstActive`, `LoadedStatus`, `UpdateStatus`), which takes the first active record in insertion order, not in id order. When two or more records are active, the model can therefore load a different current status than the code. An example is an active Pendiente record listed before an active Enviada one. Both choices matter only on data that already breaks the one-active-record invariant, which `TransitionKeepsOneActive` shows every transition preserves.
- Iteration order of the two validator scans. The model picks articles and orders in an unspecified order; the verdict depends only on which check fires, so the order is irrelevant.
- Concurrency and the non-atomic sequence of writes. Each handler is one sequential run with no interleaving.
