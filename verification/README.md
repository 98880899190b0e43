# Product listing screen: a Dafny model of its view state

The repository is a React admin screen for a product catalog kept on a REST
backend. Its logic lives in two components:

- the product list (`src/components/AllFunctionalProducts.tsx`), which holds
  the rows, the checkbox selection, the select-all flag and the side panel's
  association (open flag, bound product, mode), and whose event handlers
  select, delete, open the panel and fold saved products back into the rows;
- the side panel (`src/components/reusable/Sidebar.tsx`), which holds a form
  buffer, fills it when its mode or product changes, updates it field by
  field, and on save decides whether to send a PUT or a POST, what to hand to
  the list's save callback and whether to close.

This project models each handler as a pure function from the state before
the event to the state after it. The outcome of each request a handler waits
for is a parameter; the single delete never looks at its outcome.

- `wrappers.dfy`: `Option`, standing for the code's nullable values.
- `sequences.dfy`: order-preserving filtering (`Array.prototype.filter`). It
  gives a specification, `IsFilterOf`: multiplicities kept or dropped and
  relative order kept. It proves that the filter meets it and is its only
  solution.
- `products.dfy`: the `Product` record with its nested `Rating`, the panel
  `Mode`, and the replace-by-id merge (`map(p => p.id === x.id ? x : p)`).
- `selection.dfy`: the selection list and its toggle (remove every copy of
  the id, or append it).
- `product_list.dfy`: the list's state record and its nine handlers.
- `sidebar.dfy`: the buffer reset effect, the field setter and the save
  decision, which returns a (request, save callback, close callback) outcome.
- `screen.dfy`: the two components wired together the way the list renders
  the panel, with end-to-end properties of a save.

A single delete (`src/components/AllFunctionalProducts.tsx:71-76`) does not
touch `selected`. `ProductList.DeleteKeepsStaleSelection` shows the deleted id
staying selected.

Other behaviour kept as written:

- A single delete removes the row whatever the server answers. The request is
  not awaited, so the `if (res)` test is on a promise, which is always truthy.
- The select-all flag is toggled blindly. `ProductList.SelectAllFlagCanDesync`
  shows it checked over an empty selection.
- The list's save handler closes the panel in add mode but leaves
  `sidebarMode` set. It leaves the panel open in edit mode. The panel's own
  close callback, which runs right after, clears both (`Screen` lemmas).
- Opening a row for edit merges it into the rows before any request.
  `ProductList.EditFromRowKeepsRows` shows that this merge changes nothing
  when the ids are unique.

## Model

| member | source | states |
|---|---|---|
| `Selection.Toggle` | src/components/AllFunctionalProducts.tsx:49-53 | the clicked id is selected afterwards exactly when it was not before; every other id's membership is unchanged |
| `Selection.ToggleKeepsOthersInOrder` | src/components/AllFunctionalProducts.tsx:49-53 | ignoring the clicked id, the selection is the same list: other ids keep their order and number of copies |
| `Selection.ToggleKeepsNoDup` | src/components/AllFunctionalProducts.tsx:49-53 | a selection without duplicates has none after a toggle |
| `Selection.ToggleTwiceRestores` | src/components/AllFunctionalProducts.tsx:49-53 | toggling an unselected id twice gives back exactly the original list |
| `Selection.ToggleManyParity` | src/components/AllFunctionalProducts.tsx:49-53 | after any run of toggles, an id is selected iff its initial membership differs from whether it was toggled an odd number of times |
| `Selection.ToggleManyKeepsNoDup` | src/components/AllFunctionalProducts.tsx:49-53 | a duplicate-free selection stays duplicate-free under any run of toggles |
| `ProductList.InitialPanelConsistent` | src/components/AllFunctionalProducts.tsx:23-30 | the initial state has a consistent panel association: closed, no mode, no bound product |
| `ProductList.HandleSelect` | src/components/AllFunctionalProducts.tsx:49-53 | only the selection changes; the clicked id's membership flips, no other's does; no duplicates are introduced; panel consistency is kept |
| `ProductList.ClickRowsOnlySelection` | src/components/AllFunctionalProducts.tsx:49-53 | a run of row clicks changes only the selection, as the list-level toggles do, never the select-all flag |
| `ProductList.ClickRowsParity` | src/components/AllFunctionalProducts.tsx:49-53 | after a run of row clicks, a row is selected iff its initial membership differs from the parity of its clicks |
| `ProductList.HandleSelectAll` | src/components/AllFunctionalProducts.tsx:55-62 | with the flag set the selection becomes empty, otherwise exactly the rows' ids in row order; the flag is negated; nothing else changes |
| `ProductList.SelectAllIgnoresRowClicks` | src/components/AllFunctionalProducts.tsx:55-62 | select-all selects every row's id, and the next select-all clears the selection whatever row clicks came in between |
| `ProductList.SelectAllFlagCanDesync` | src/components/AllFunctionalProducts.tsx:55-62 | select all, then unclick the only row: the flag is still set over an empty selection |
| `ProductList.HandleEdit` | src/components/AllFunctionalProducts.tsx:64-69 | every row with the product's id is replaced by it, others untouched, length and order kept; the panel is open in edit mode bound to the product; the selection is untouched |
| `Products.ReplaceById` | src/components/AllFunctionalProducts.tsx:68 | the merge `prev.map(p => p.id === x.id ? x : p)` keeps the row count and the id column, turns every row carrying the product's id into the product and leaves every other row as it was; the product is in the result iff some row already carried its id, so a fresh id is never inserted |
| `Products.ReplaceWithOwnRow` | src/components/AllFunctionalProducts.tsx:68 | on a list with unique ids, merging one of its own rows returns the list unchanged |
| `Sequences.Filter` | src/components/AllFunctionalProducts.tsx:74 | `Array.prototype.filter`: never longer than its input, and an element is in the result iff it is in the input and passes the callback |
| `Selection.Without` | src/components/AllFunctionalProducts.tsx:51 | `prev.filter(item => item !== id)`: the id is absent from the result and every other id is present iff it was before |
| `Products.ReplaceKeepsIds` | src/components/AllFunctionalProducts.tsx:68 | the replace-by-id merge never changes the id column |
| `Products.ReplaceMembership` | src/components/AllFunctionalProducts.tsx:68 | the merged product is in the result iff some row had its id; a product with a new id is not inserted |
| `Products.ReplaceIdempotent` | src/components/AllFunctionalProducts.tsx:68 | merging the same product twice is merging it once |
| `ProductList.EditFromRowKeepsRows` | src/components/AllFunctionalProducts.tsx:64-69 | on a list with unique ids, the optimistic merge of a row's own product leaves the rows as they were |
| `ProductList.HandleDelete` | src/components/AllFunctionalProducts.tsx:71-76 | one DELETE is sent for the id; the rows become exactly the rows with another id, order and copies kept, whatever the server answers; nothing else changes |
| `ProductList.DeleteKeepsStaleSelection` | src/components/AllFunctionalProducts.tsx:71-76 | deleting a selected row leaves its id in the selection |
| `ProductList.HandleView` | src/components/AllFunctionalProducts.tsx:78-82 | the panel opens in view mode bound to the product; rows, selection and flag are untouched |
| `ProductList.HandleAddProduct` | src/components/AllFunctionalProducts.tsx:84-88 | the panel opens in add mode with no bound product; rows, selection and flag are untouched |
| `ProductList.HandleRemoveSelected` | src/components/AllFunctionalProducts.tsx:90-109 | one DELETE per selected id; an empty selection or any failed delete leaves the state unchanged; if all succeed, the rows keep exactly those whose id is not selected, in order, and the selection and flag are cleared |
| `Sequences.FilterMeetsSpec` | src/components/AllFunctionalProducts.tsx:74 | the filter keeps every passing row with all its copies, drops every other row, and keeps the original order |
| `Sequences.FilterUnique` | src/components/AllFunctionalProducts.tsx:104 | a list that keeps exactly the passing rows with their multiplicities, in original order, is the filter's result and nothing else |
| `ProductList.HandleSidebarClose` | src/components/AllFunctionalProducts.tsx:111-115 | the panel is closed with no mode and no bound product; rows, selection and flag are untouched |
| `ProductList.HandleSave` | src/components/AllFunctionalProducts.tsx:117-129 | in edit mode the saved product replaces rows by id and the panel stays as it is; in add mode a non-null product is put first with the old rows as the tail, the panel is closed and the mode kept; in any other mode nothing changes |
| `Sidebar.ResetBuffer` | src/components/reusable/Sidebar.tsx:27-41 | add mode gives a blank buffer (empty strings, price 0, rating 0/0) with the generated id; another mode with a bound product copies it; otherwise the buffer is kept |
| `Sidebar.PriceInput` | src/components/reusable/Sidebar.tsx:49 | an unparseable price becomes 0, a parsed one is taken as is |
| `Sidebar.SetField` | src/components/reusable/Sidebar.tsx:43-51 | only the named field changes; text fields take the raw string, the price takes the parsed value or 0 |
| `Sidebar.EditsKeepIdAndRating` | src/components/reusable/Sidebar.tsx:43-51 | no run of keystrokes changes the buffer's id or rating |
| `Sidebar.NegativePriceNeedsNegativeParse` | src/components/reusable/Sidebar.tsx:49 | the buffer price becomes negative iff the parser returned a negative number |
| `Sidebar.DecideSave` | src/components/reusable/Sidebar.tsx:53-77 | negative price with a request due: nothing sent, nothing called; edit sends PUT to the bound product's id and reports the buffer; add sends POST and reports the response body; a failure calls neither callback; no request due: only close; the save callback runs iff a sent request succeeded, and is always followed by close |
| `Screen.SaveFromPanel` | src/components/AllFunctionalProducts.tsx:253-259 | a save through the panel keeps the selection, the flag and panel consistency |
| `Screen.NegativePriceKeepsScreen` | src/components/reusable/Sidebar.tsx:55-67 | with a request due and a negative price, a save sends nothing and the screen, panel included, is unchanged |
| `Screen.FailedSaveKeepsScreen` | src/components/reusable/Sidebar.tsx:73-76 | a failed request leaves the screen unchanged, panel still open |
| `Screen.NothingToSendCloses` | src/components/reusable/Sidebar.tsx:55-72 | in view mode, with no mode, or editing with nothing bound, a save sends nothing and only closes the panel |
| `Screen.AddSavePrepends` | src/components/reusable/Sidebar.tsx:63-72 | a successful add posts the buffer, puts the server's record first and leaves the panel closed with no mode |
| `Screen.EditSaveMergesBuffer` | src/components/reusable/Sidebar.tsx:55-62 | a successful edit sends PUT to the bound id, merges the buffer (not the response) by id and closes the panel |
| `Screen.EditRoundTrip` | src/components/reusable/Sidebar.tsx:38-62 | opening a row for edit, typing and saving sends the PUT to that row's id, and the buffer still carries that id, so the row the list overwrites is the one updated |
| `Screen.AddRoundTrip` | src/components/reusable/Sidebar.tsx:27-37 | opening add and saving at once posts the blank buffer (price 0 passes the check) and prepends the server's record |
| `Screen.SelectThenRemoveExample` | src/components/AllFunctionalProducts.tsx:90-109 | rows [id 1], select 1, remove selected with success: rows, selection and flag all empty |

## Left out

- Fetching the list on mount (`fetchProducts` and its effect): a network fetch. It only replaces the rows on success.
- The HTTP client setup in `src/utils/AxiosInstance.ts`: base URL, timeout, the interceptor that unwraps `response.data`, and the error-message derivation. A request is modelled only by its outcome.
- Concurrency: `Promise.all` and async suspension. Bulk delete takes one boolean per selected id. A response that lands after the panel was closed is not modelled.
- Stale closures (`products` in `handleDelete`, `selected` in `handleRemoveSelected`) coincide with the current state in a sequential model.
- Floating point: prices and rates are exact reals. `parseFloat` is an abstract parameter returning `None` for NaN. `Infinity` is not representable. `toFixed` is display only.
- The placeholder id `Number(uuidv4())` (NaN at run time) is an abstract integer parameter.
- Rendering, MUI components, toasts and console logging. This includes the inputs being disabled for title and category in edit mode: the setter is modelled for every input field.
- `src/App.tsx` and `src/pages/ProductPage.tsx`: composition only.
- Sidebar.DecideSave: an exception thrown by the save or close callback itself would also be caught and shown as a save failure. The callbacks modelled here cannot fail.
- ProductList.HandleSave: requires a product in edit mode. The panel always passes its buffer there; with null and at least one row, the state updater at line 121 would throw.
