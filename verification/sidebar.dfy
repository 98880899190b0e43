/** The side panel: its form buffer, the effect that fills the buffer when
    the panel's inputs change, the generic field setter, and the save
    decision. The save decision is a pure function of the mode, the bound
    product, the buffer and the server's answer, returning which request is
    sent, what the save callback receives and whether the close callback
    runs. */
module Sidebar {

  import opened Wrappers
  import opened Products

  /** The fields the panel has inputs for, by their `name` attribute. */
  datatype Field = Title | Price | Description | Category | Image

  /** A request the panel sends to the backing store. */
  datatype Request =
    | Put(id: int, body: Product)   // PUT /products/{id}
    | Post(body: Product)           // POST /products

  /** How the request ended. A successful response carries its unwrapped
      body, `None` when the body is falsy. */
  datatype Response = Failed | Succeeded(body: Option<Product>)

  /** Whether the save callback ran, and with what argument. */
  datatype SaveCall = NotCalled | CalledWith(arg: Option<Product>)

  /** Everything a save click does outside the panel's own buffer. */
  datatype SaveOutcome = SaveOutcome(request: Option<Request>, onSave: SaveCall, onClose: bool)

  /** A blank product in add mode. The placeholder id is whatever the id
      generator produced; nothing here depends on its value. */
  ghost predicate IsBlank(b: Product)
  {
    && b.title == "" && b.description == "" && b.category == "" && b.image == ""
    && b.price == 0.0
    && b.rating == Rating(0.0, 0)
  }

  /** The effect that runs whenever the bound product or the mode changes:
      add mode resets the buffer to a blank product, another mode with a
      bound product copies it, and otherwise the buffer is kept. */
  function ResetBuffer(mode: Option<Mode>, bound: Option<Product>, buffer: Product, placeholderId: int): (b: Product)
    ensures mode == Some(Add) ==> IsBlank(b) && b.id == placeholderId
    ensures mode != Some(Add) && bound.Some? ==> b == bound.value
    ensures mode != Some(Add) && bound.None? ==> b == buffer
  {
    if mode == Some(Add) then Product(placeholderId, "", 0.0, "", "", "", Rating(0.0, 0))
    else if bound.Some? then bound.value
    else buffer
  }

  /** `parseFloat(value) || 0`: the parser's result, or 0 when it yields NaN
      (`None`) or zero. */
  function PriceInput(parsed: Option<real>): (price: real)
    ensures parsed.None? ==> price == 0.0
    ensures parsed.Some? ==> price == parsed.value
  {
    match parsed
    case None => 0.0
    case Some(v) => if v == 0.0 then 0.0 else v
  }

  /** `a` and `b` agree on every field except possibly `f`; in particular on
      the id and the rating, which have no inputs. */
  ghost predicate SameExcept(a: Product, b: Product, f: Field)
  {
    && a.id == b.id
    && a.rating == b.rating
    && (f != Title ==> a.title == b.title)
    && (f != Price ==> a.price == b.price)
    && (f != Description ==> a.description == b.description)
    && (f != Category ==> a.category == b.category)
    && (f != Image ==> a.image == b.image)
  }

  /** The change handler shared by all inputs: the named field takes the raw
      string, except `price`, which takes the parsed number. */
  function SetField(buffer: Product, f: Field, value: string, parseFloat: string -> Option<real>): (b: Product)
    ensures SameExcept(buffer, b, f)
    ensures f == Title ==> b.title == value
    ensures f == Description ==> b.description == value
    ensures f == Category ==> b.category == value
    ensures f == Image ==> b.image == value
    ensures f == Price ==> b.price == PriceInput(parseFloat(value))
  {
    match f
    case Title => buffer.(title := value)
    case Price => buffer.(price := PriceInput(parseFloat(value)))
    case Description => buffer.(description := value)
    case Category => buffer.(category := value)
    case Image => buffer.(image := value)
  }

  /** One keystroke: a field and the input's new value. */
  datatype Keystroke = Keystroke(field: Field, value: string)

  /** The buffer after a run of keystrokes. */
  function ApplyEdits(buffer: Product, edits: seq<Keystroke>, parseFloat: string -> Option<real>): Product
    decreases |edits|
  {
    if edits == [] then buffer
    else ApplyEdits(SetField(buffer, edits[0].field, edits[0].value, parseFloat), edits[1..], parseFloat)
  }

  /** No keystroke reaches the id or the rating. */
  lemma {:induction false} EditsKeepIdAndRating(buffer: Product, edits: seq<Keystroke>, parseFloat: string -> Option<real>)
    ensures ApplyEdits(buffer, edits, parseFloat).id == buffer.id
    ensures ApplyEdits(buffer, edits, parseFloat).rating == buffer.rating
    decreases |edits|
  {
    if edits != [] {
      EditsKeepIdAndRating(SetField(buffer, edits[0].field, edits[0].value, parseFloat), edits[1..], parseFloat);
    }
  }

  /** A price typed into the form is negative only when the parser itself
      returned a negative number. */
  lemma NegativePriceNeedsNegativeParse(buffer: Product, value: string, parseFloat: string -> Option<real>)
    ensures SetField(buffer, Price, value, parseFloat).price < 0.0 <==>
      parseFloat(value).Some? && parseFloat(value).value < 0.0
  {
  }

  /** Whether the mode and the binding lead to a request at all: edit mode
      with a bound product, or add mode. */
  predicate SendsRequest(mode: Option<Mode>, bound: Option<Product>)
  {
    (mode == Some(Edit) && bound.Some?) || mode == Some(Add)
  }

  /** The save button. `response` is how the request would end if one is
      sent; it is ignored otherwise. */
  function DecideSave(mode: Option<Mode>, bound: Option<Product>, buffer: Product, response: Response): (o: SaveOutcome)
    // a negative price is rejected before anything leaves the panel
    ensures SendsRequest(mode, bound) && buffer.price < 0.0 ==> o == SaveOutcome(None, NotCalled, false)
    // an edit is sent to the bound product's id, with the whole buffer
    ensures mode == Some(Edit) && bound.Some? && buffer.price >= 0.0 ==>
      o.request == Some(Put(bound.value.id, buffer))
    // a successful edit reports the local buffer, not the response
    ensures mode == Some(Edit) && bound.Some? && buffer.price >= 0.0 && response.Succeeded? ==>
      o.onSave == CalledWith(Some(buffer)) && o.onClose
    // an add sends the whole buffer
    ensures mode == Some(Add) && buffer.price >= 0.0 ==> o.request == Some(Post(buffer))
    // a successful add reports the response body, not the buffer
    ensures mode == Some(Add) && buffer.price >= 0.0 && response.Succeeded? ==>
      o.onSave == CalledWith(response.body) && o.onClose
    // a failed request reports nothing and keeps the panel open
    ensures o.request.Some? && response.Failed? ==> o.onSave == NotCalled && !o.onClose
    // nothing to send: no request, no report, but the panel closes
    ensures !SendsRequest(mode, bound) ==> o == SaveOutcome(None, NotCalled, true)
    // the save callback runs only after a request that succeeded, and is
    // always followed by the close callback
    ensures o.onSave.CalledWith? <==> o.request.Some? && response.Succeeded?
    ensures o.onSave.CalledWith? ==> o.onClose
  {
    if mode == Some(Edit) && bound.Some? then
      if buffer.price < 0.0 then SaveOutcome(None, NotCalled, false)
      else
        var request := Some(Put(bound.value.id, buffer));
        match response
        case Failed => SaveOutcome(request, NotCalled, false)
        case Succeeded(_) => SaveOutcome(request, CalledWith(Some(buffer)), true)
    else if mode == Some(Add) then
      if buffer.price < 0.0 then SaveOutcome(None, NotCalled, false)
      else
        var request := Some(Post(buffer));
        match response
        case Failed => SaveOutcome(request, NotCalled, false)
        case Succeeded(body) => SaveOutcome(request, CalledWith(body), true)
    else SaveOutcome(None, NotCalled, true)
  }
}
