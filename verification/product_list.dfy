/** The product list screen's view state and its event handlers, each a pure
    transition from the state before the event to the state after it.
    Network results that a handler waits for are parameters. */
module ProductList {

  import opened Wrappers
  import opened Sequences
  import opened Products
  import opened Selection

  /** The six pieces of component state. */
  datatype ListState = ListState(
    products: seq<Product>,
    selected: seq<int>,
    selectAll: bool,
    sidebarOpen: bool,
    selectedProduct: Option<Product>,
    sidebarMode: Option<Mode>
  )

  /** The state on first render, before the list arrives. */
  const Initial: ListState := ListState([], [], false, false, None, None)

  /** A handler that issues DELETE requests: the ids it sends them for, in
      order, and the state it leaves behind. */
  datatype Deletion = Deletion(requests: seq<int>, next: ListState)

  /** The panel association is one of: nothing (closed, no mode, no product),
      viewing or editing a bound product, or adding with no bound product.
      An open panel always has a mode. */
  ghost predicate PanelConsistent(s: ListState)
  {
    && (s.sidebarOpen ==> s.sidebarMode.Some?)
    && (s.sidebarMode.None? ==> s.selectedProduct.None?)
    && (s.sidebarMode == Some(Add) ==> s.selectedProduct.None?)
    && (s.sidebarMode == Some(View) || s.sidebarMode == Some(Edit) ==> s.selectedProduct.Some?)
  }

  lemma InitialPanelConsistent()
    ensures PanelConsistent(Initial)
  {
  }

  /** The filter callback `p => !ids.includes(p.id)`. */
  function IdNotIn(ids: seq<int>): Product -> bool
  {
    (p: Product) => p.id !in ids
  }

  /** Clicking the checkbox of the row with id `id`. */
  function HandleSelect(s: ListState, id: int): (t: ListState)
    ensures t.(selected := s.selected) == s
    ensures id in t.selected <==> id !in s.selected
    ensures forall y :: y != id ==> (y in t.selected <==> y in s.selected)
    ensures NoDup(s.selected) ==> NoDup(t.selected)
    ensures PanelConsistent(s) ==> PanelConsistent(t)
  {
    ToggleKeepsNoDup(s.selected, id);
    s.(selected := Toggle(s.selected, id))
  }

  /** Clicking the header checkbox. The decision reads only the `selectAll`
      flag, never compares the selection with the rows. */
  function HandleSelectAll(s: ListState): (t: ListState)
    ensures t.selectAll == !s.selectAll
    ensures s.selectAll ==> t.selected == []
    ensures !s.selectAll ==> t.selected == Ids(s.products)
    ensures t.(selected := s.selected, selectAll := s.selectAll) == s
    ensures PanelConsistent(s) ==> PanelConsistent(t)
  {
    var chosen := if s.selectAll then [] else Ids(s.products);
    s.(selected := chosen, selectAll := !s.selectAll)
  }

  /** Clicking Edit on a row: bind the panel to the product in edit mode and
      merge the product into the list before any server round trip. */
  function HandleEdit(s: ListState, p: Product): (t: ListState)
    ensures ReplacedById(s.products, t.products, p)
    ensures t.sidebarOpen && t.sidebarMode == Some(Edit) && t.selectedProduct == Some(p)
    ensures t.selected == s.selected && t.selectAll == s.selectAll
    ensures PanelConsistent(t)
  {
    ListState(ReplaceById(s.products, p), s.selected, s.selectAll, true, Some(p), Some(Edit))
  }

  /** Clicking Delete on a row. The request is not awaited and its result is
      a promise, which is always truthy, so the row goes whatever the server
      answers. The selection is not touched. */
  function HandleDelete(s: ListState, id: int): (d: Deletion)
    ensures d.requests == [id]
    ensures IsFilterOf(d.next.products, s.products, IdNotIn([id]))
    ensures forall q :: q in d.next.products <==> q in s.products && q.id != id
    ensures d.next.(products := s.products) == s
    ensures PanelConsistent(s) ==> PanelConsistent(d.next)
  {
    FilterMeetsSpec(s.products, IdNotIn([id]));
    Deletion([id], s.(products := Filter(s.products, IdNotIn([id]))))
  }

  /** Clicking View on a row. */
  function HandleView(s: ListState, p: Product): (t: ListState)
    ensures t.sidebarOpen && t.sidebarMode == Some(View) && t.selectedProduct == Some(p)
    ensures t.products == s.products && t.selected == s.selected && t.selectAll == s.selectAll
    ensures PanelConsistent(t)
  {
    s.(selectedProduct := Some(p), sidebarMode := Some(View), sidebarOpen := true)
  }

  /** Clicking Add Product. */
  function HandleAddProduct(s: ListState): (t: ListState)
    ensures t.sidebarOpen && t.sidebarMode == Some(Add) && t.selectedProduct.None?
    ensures t.products == s.products && t.selected == s.selected && t.selectAll == s.selectAll
    ensures PanelConsistent(t)
  {
    s.(selectedProduct := None, sidebarMode := Some(Add), sidebarOpen := true)
  }

  /** Clicking Remove Selected. `outcomes[i]` says whether the DELETE for
      `selected[i]` succeeded. Every request is issued before any is awaited;
      one failure rejects the whole batch and the list is left as it was. */
  function HandleRemoveSelected(s: ListState, outcomes: seq<bool>): (d: Deletion)
    requires |outcomes| == |s.selected|
    ensures d.requests == s.selected
    ensures s.selected == [] ==> d.next == s
    ensures false in outcomes ==> d.next == s
    ensures s.selected != [] && false !in outcomes ==>
      && IsFilterOf(d.next.products, s.products, IdNotIn(s.selected))
      && d.next.selected == []
      && !d.next.selectAll
      && d.next.(products := s.products, selected := s.selected, selectAll := s.selectAll) == s
    ensures PanelConsistent(s) ==> PanelConsistent(d.next)
  {
    if s.selected == [] then Deletion([], s)
    else if false in outcomes then Deletion(s.selected, s)
    else
      var kept := Filter(s.products, IdNotIn(s.selected));
      FilterMeetsSpec(s.products, IdNotIn(s.selected));
      Deletion(s.selected, s.(selected := [], selectAll := false, products := kept))
  }

  /** The panel's close callback. */
  function HandleSidebarClose(s: ListState): (t: ListState)
    ensures !t.sidebarOpen && t.selectedProduct.None? && t.sidebarMode.None?
    ensures t.products == s.products && t.selected == s.selected && t.selectAll == s.selectAll
    ensures PanelConsistent(t)
  {
    s.(sidebarOpen := false, selectedProduct := None, sidebarMode := None)
  }

  /** The panel's save callback. `saved` is what the panel hands over; `None`
      stands for a falsy value (an empty response body). In edit mode the
      panel always hands over its buffer. */
  function HandleSave(s: ListState, saved: Option<Product>): (t: ListState)
    requires s.sidebarMode == Some(Edit) ==> saved.Some?
    ensures s.sidebarMode == Some(Edit) ==>
      ReplacedById(s.products, t.products, saved.value) && t.(products := s.products) == s
    ensures s.sidebarMode == Some(Add) && saved.Some? ==>
      |t.products| == |s.products| + 1 && t.products[0] == saved.value && t.products[1..] == s.products
    ensures s.sidebarMode == Some(Add) && saved.None? ==> t.products == s.products
    ensures s.sidebarMode == Some(Add) ==>
      t.(products := s.products, sidebarOpen := true) == s.(sidebarOpen := true) && !t.sidebarOpen
    ensures s.sidebarMode != Some(Edit) && s.sidebarMode != Some(Add) ==> t == s
    ensures PanelConsistent(s) ==> PanelConsistent(t)
  {
    if s.sidebarMode == Some(Edit) then
      s.(products := ReplaceById(s.products, saved.value))
    else if s.sidebarMode == Some(Add) then
      var rows := if saved.Some? then [saved.value] + s.products else s.products;
      s.(products := rows, sidebarOpen := false)
    else s
  }

  /** The state after the checkboxes of rows `ts` are clicked in turn. */
  function ClickRows(s: ListState, ts: seq<int>): ListState
    decreases |ts|
  {
    if ts == [] then s else ClickRows(HandleSelect(s, ts[0]), ts[1..])
  }

  /** Row clicks change only the selection, exactly as the list-level toggles
      do; in particular they never touch the `selectAll` flag. */
  lemma {:induction false} ClickRowsOnlySelection(s: ListState, ts: seq<int>)
    ensures ClickRows(s, ts) == s.(selected := ToggleMany(s.selected, ts))
    decreases |ts|
  {
    if ts != [] {
      ClickRowsOnlySelection(HandleSelect(s, ts[0]), ts[1..]);
    }
  }

  /** After a run of row clicks, a row is selected iff its initial
      membership differs from the parity of its clicks. */
  lemma ClickRowsParity(s: ListState, ts: seq<int>, y: int)
    ensures y in ClickRows(s, ts).selected <==> (y in s.selected) != (multiset(ts)[y] % 2 == 1)
  {
    ClickRowsOnlySelection(s, ts);
    ToggleManyParity(s.selected, ts, y);
  }

  /** The header checkbox selects every row once and clears the selection the
      next time, whatever row clicks happened in between. */
  lemma SelectAllIgnoresRowClicks(s: ListState, ts: seq<int>)
    requires !s.selectAll
    ensures HandleSelectAll(s).selected == Ids(s.products)
    ensures HandleSelectAll(ClickRows(HandleSelectAll(s), ts)).selected == []
    ensures !HandleSelectAll(ClickRows(HandleSelectAll(s), ts)).selectAll
  {
    ClickRowsOnlySelection(HandleSelectAll(s), ts);
  }

  /** The flag and the selection can disagree: select all, then unclick the
      only row, and the header checkbox still shows checked over an empty
      selection. */
  lemma SelectAllFlagCanDesync(p: Product)
    ensures var t := ClickRows(HandleSelectAll(Initial.(products := [p])), [p.id]);
      t.selectAll && t.selected == [] && t.products == [p]
  {
  }

  /** A single delete leaves the deleted id in the selection: the selection
      is not pruned when the row goes. */
  lemma DeleteKeepsStaleSelection(p: Product)
    ensures var s := Initial.(products := [p], selected := [p.id]);
      var t := HandleDelete(s, p.id).next;
      t.products == [] && p.id in t.selected
  {
  }

  /** The Edit button passes the row itself, so on a list with unique ids its
      optimistic merge leaves the rows exactly as they were. */
  lemma EditFromRowKeepsRows(s: ListState, k: int)
    requires UniqueIds(s.products)
    requires 0 <= k < |s.products|
    ensures HandleEdit(s, s.products[k]).products == s.products
  {
    ReplaceWithOwnRow(s.products, k);
  }
}
