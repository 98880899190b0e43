/** The list screen and its side panel wired together the way the list
    renders the panel: the panel's `product` and `mode` are the list's bound
    product and panel mode, its save callback is the list's save handler and
    its close callback the list's close handler. */
module Screen {

  import opened Wrappers
  import opened Sequences
  import opened Products
  import opened ProductList
  import opened Sidebar

  /** What one click on the panel's save button does to the screen: the
      request sent, if any, and the list state once the callbacks ran. */
  datatype SaveStep = SaveStep(request: Option<Request>, next: ListState)

  /** The panel's save decision followed by the callbacks it chose, save
      before close. */
  function SaveFromPanel(s: ListState, buffer: Product, response: Response): (r: SaveStep)
    ensures PanelConsistent(s) ==> PanelConsistent(r.next)
    ensures r.next.selected == s.selected && r.next.selectAll == s.selectAll
  {
    var o := DecideSave(s.sidebarMode, s.selectedProduct, buffer, response);
    var afterSave := match o.onSave
      case NotCalled => s
      case CalledWith(arg) => HandleSave(s, arg);
    var afterClose := if o.onClose then HandleSidebarClose(afterSave) else afterSave;
    SaveStep(o.request, afterClose)
  }

  /** A negative price sends nothing and changes nothing: the panel stays
      open with its mode, its bound product and the rows as they were. */
  lemma NegativePriceKeepsScreen(s: ListState, buffer: Product, response: Response)
    requires SendsRequest(s.sidebarMode, s.selectedProduct)
    requires buffer.price < 0.0
    ensures SaveFromPanel(s, buffer, response) == SaveStep(None, s)
  {
  }

  /** A failed request leaves the screen as it was; the panel stays open. */
  lemma FailedSaveKeepsScreen(s: ListState, buffer: Product)
    requires SendsRequest(s.sidebarMode, s.selectedProduct)
    ensures SaveFromPanel(s, buffer, Failed).next == s
  {
  }

  /** Saving in view mode, with no mode, or in edit mode with nothing bound,
      sends nothing and just closes the panel. */
  lemma NothingToSendCloses(s: ListState, buffer: Product, response: Response)
    requires !SendsRequest(s.sidebarMode, s.selectedProduct)
    ensures SaveFromPanel(s, buffer, response).request.None?
    ensures SaveFromPanel(s, buffer, response).next == HandleSidebarClose(s)
  {
  }

  /** A successful add posts the buffer, puts the server's record in front
      of the rows and closes the panel. */
  lemma AddSavePrepends(s: ListState, buffer: Product, created: Product)
    requires s.sidebarMode == Some(Add)
    requires buffer.price >= 0.0
    ensures var r := SaveFromPanel(s, buffer, Succeeded(Some(created)));
      && r.request == Some(Post(buffer))
      && r.next.products == [created] + s.products
      && !r.next.sidebarOpen && r.next.sidebarMode.None? && r.next.selectedProduct.None?
  {
  }

  /** A successful edit puts the bound product's id in the request, merges
      the local buffer (not the response) into the rows and closes the
      panel. */
  lemma EditSaveMergesBuffer(s: ListState, buffer: Product, response: Response)
    requires s.sidebarMode == Some(Edit) && s.selectedProduct.Some?
    requires buffer.price >= 0.0
    requires response.Succeeded?
    ensures var r := SaveFromPanel(s, buffer, response);
      && r.request == Some(Put(s.selectedProduct.value.id, buffer))
      && ReplacedById(s.products, r.next.products, buffer)
      && !r.next.sidebarOpen && r.next.sidebarMode.None? && r.next.selectedProduct.None?
  {
  }

  /** Open the panel on a row with Edit, type, and save successfully: the
      buffer still carries the row's id, so the PUT goes to the row that the
      list then overwrites with the buffer. */
  lemma EditRoundTrip(
    s: ListState, p: Product, previous: Product, placeholderId: int,
    edits: seq<Keystroke>, parseFloat: string -> Option<real>, response: Response)
    requires response.Succeeded?
    requires ApplyEdits(p, edits, parseFloat).price >= 0.0
    ensures var panel := HandleEdit(s, p);
      var buffer := ApplyEdits(ResetBuffer(panel.sidebarMode, panel.selectedProduct, previous, placeholderId), edits, parseFloat);
      var r := SaveFromPanel(panel, buffer, response);
      && buffer.id == p.id
      && r.request == Some(Put(p.id, buffer))
      && ReplacedById(panel.products, r.next.products, buffer)
      && !r.next.sidebarOpen
  {
    var panel := HandleEdit(s, p);
    assert ResetBuffer(panel.sidebarMode, panel.selectedProduct, previous, placeholderId) == p;
    var buffer := ApplyEdits(p, edits, parseFloat);
    EditsKeepIdAndRating(p, edits, parseFloat);
    EditSaveMergesBuffer(panel, buffer, response);
  }

  /** Open the panel with Add Product and save at once: the blank buffer has
      price 0, so it passes the price check and is posted, and the server's
      record becomes the first row. */
  lemma AddRoundTrip(s: ListState, previous: Product, placeholderId: int, created: Product)
    ensures var panel := HandleAddProduct(s);
      var buffer := ResetBuffer(panel.sidebarMode, panel.selectedProduct, previous, placeholderId);
      var r := SaveFromPanel(panel, buffer, Succeeded(Some(created)));
      && r.request == Some(Post(buffer))
      && r.next.products == [created] + s.products
      && r.next.sidebarMode.None?
  {
  }

  /** Select the only row and remove the selection with the delete
      succeeding: the table, the selection and the header flag all end up
      empty. */
  lemma SelectThenRemoveExample(p: Product)
    requires p.id == 1
    ensures var s := Initial.(products := [p]);
      var picked := HandleSelect(s, 1);
      var d := HandleRemoveSelected(picked, [true]);
      && picked.selected == [1]
      && d.requests == [1]
      && d.next.products == [] && d.next.selected == [] && !d.next.selectAll
  {
  }
}
