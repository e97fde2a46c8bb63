/** The counter arithmetic and button handling of `addToCart`
    (assets/theme.js). The network request is reduced to whether the
    awaited `fetch` resolved or rejected. */
module Cart {
  import opened Wrappers
  import opened Storage
  import opened Page

  /** An `.add-to-cart-btn`: its label and its `disabled` flag. */
  datatype Button = Button(text: string, disabled: bool)

  /** Label shown while the request is in flight. */
  const BusyText: string := "Adding..."

  /** `button.dataset.variantId` passes the `if (!variantId) return` guard:
      an absent attribute (`undefined`) and the empty string are falsy, every
      other string is truthy. */
  function HasVariant(variantId: Option<string>): (r: bool)
    ensures r <==> variantId.Some? && |variantId.value| > 0
  {
    match variantId
    case None => false
    case Some(v) => v != ""
  }

  /** The call suspended at `await fetch(...)`: the busy button and the
      label saved before it was replaced. The page is not part of it: the
      store is read only after the request settles. */
  datatype Pending = Pending(button: Option<Button>, originalText: string)

  datatype CartResult = CartResult(page: Page, button: Option<Button>, notice: Option<Notice>)

  /** Everything before the `await`: the label is saved and the button, if
      any, shows the busy label and is disabled. Nothing is read or stored. */
  function BeginAddToCart(button: Option<Button>): (r: Pending)
    ensures r.button.Some? <==> button.Some?
    ensures r.button.Some? ==> r.button.value == Button(BusyText, true)
    ensures button.Some? ==> r.originalText == button.value.text
  {
    match button
    case None => Pending(None, "")
    case Some(b) => Pending(Some(b.(text := BusyText, disabled := true)), b.text)
  }

  /** Everything after the `await`, on the page as it is when the request
      settles. When the request resolved, the stored counter (absent read as
      0) goes up by one and the cart badge is refreshed; when it rejected,
      the page is left alone and an error toast is shown. In both cases the
      `finally` block puts the saved label back and enables the button. */
  function FinishAddToCart(p: Page, pending: Pending, resolved: bool): (r: CartResult)
    ensures r.button.Some? <==> pending.button.Some?
    ensures r.button.Some? ==> r.button.value == Button(pending.originalText, false)
    ensures resolved ==>
              && ReadCounter(r.page.store, CartCountKey) == ReadCounter(p.store, CartCountKey) + 1
              && r.notice == Some(Notice("Added to cart", Success))
              && (r.page.cartBadge.Some? <==> p.cartBadge.Some?)
              && (r.page.cartBadge.Some? ==> r.page.cartBadge.value == ReadCounter(r.page.store, CartCountKey))
    ensures !resolved ==>
              r.page == p && r.notice == Some(Notice("Failed to add to cart", Error))
    ensures r.page.store.lists == p.store.lists
    ensures r.page.wishlistBadge == p.wishlistBadge
    ensures forall k :: k != CartCountKey ==>
              ReadCounter(r.page.store, k) == ReadCounter(p.store, k)
  {
    var restored := match pending.button
      case None => None
      case Some(b) => Some(b.(text := pending.originalText, disabled := false));
    if resolved then
      var current := ReadCounter(p.store, CartCountKey);
      var written := p.(store := WriteCounter(p.store, CartCountKey, current + 1));
      CartResult(UpdateCartCount(written), restored, Some(Notice("Added to cart", Success)))
    else
      CartResult(p, restored, Some(Notice("Failed to add to cart", Error)))
  }

  /** `addToCart(variantId, 1, button)` run to completion with no other
      call settling in between, given how the request ended. Without a
      variant id nothing changes at all. */
  function AddToCart(p: Page, variantId: Option<string>, button: Option<Button>, resolved: bool): (r: CartResult)
    ensures !HasVariant(variantId) ==> r == CartResult(p, button, None)
    ensures HasVariant(variantId) && resolved ==>
              ReadCounter(r.page.store, CartCountKey) == ReadCounter(p.store, CartCountKey) + 1
    ensures HasVariant(variantId) && !resolved ==> r.page == p
    ensures HasVariant(variantId) ==>
              (r.button.Some? <==> button.Some?) &&
              (r.button.Some? ==> r.button.value == Button(button.value.text, false))
    ensures r.page.store.lists == p.store.lists
  {
    if !HasVariant(variantId) then CartResult(p, button, None)
    else FinishAddToCart(p, BeginAddToCart(button), resolved)
  }

  /** The `finally` block undoes what the busy state did to an enabled
      button: its label text and its enabled flag come back, whatever the
      request did. */
  lemma ButtonRestored(p: Page, variantId: Option<string>, b: Button, resolved: bool)
    requires !b.disabled
    ensures AddToCart(p, variantId, Some(b), resolved).button == Some(b)
  {
  }

  /** Number of resolved requests in a run. */
  function ResolvedCount(outcomes: seq<bool>): nat
  {
    if |outcomes| == 0 then 0
    else (if outcomes[0] then 1 else 0) + ResolvedCount(outcomes[1..])
  }

  /** Clicking the same button once per outcome, each call finishing before
      the next starts. */
  function AddToCartRun(p: Page, variantId: Option<string>, button: Option<Button>, outcomes: seq<bool>): CartResult
    decreases |outcomes|
  {
    if |outcomes| == 0 then CartResult(p, button, None)
    else
      var first := AddToCart(p, variantId, button, outcomes[0]);
      AddToCartRun(first.page, variantId, first.button, outcomes[1..])
  }

  /** Over a run of clicks the counter grows by exactly the number of
      requests that resolved; rejected ones leave no trace in it. */
  lemma {:induction false} CounterCountsResolved(p: Page, variantId: Option<string>, button: Option<Button>, outcomes: seq<bool>)
    requires HasVariant(variantId)
    ensures ReadCounter(AddToCartRun(p, variantId, button, outcomes).page.store, CartCountKey) ==
            ReadCounter(p.store, CartCountKey) + ResolvedCount(outcomes)
    decreases |outcomes|
  {
    if |outcomes| > 0 {
      var first := AddToCart(p, variantId, button, outcomes[0]);
      CounterCountsResolved(first.page, variantId, first.button, outcomes[1..]);
    }
  }

  /** One request settling: the suspended call and how its `fetch` ended. */
  datatype Settlement = Settlement(pending: Pending, resolved: bool)

  /** Several requests in flight at once (one per `.add-to-cart-btn`, each
      disabled only on its own) settling in the given order. Each settlement
      reads the counter as it is when it resumes; the read and the write have
      no `await` between them, so no other settlement can come in between. */
  function SettleAll(p: Page, settlements: seq<Settlement>): Page
    decreases |settlements|
  {
    if |settlements| == 0 then p
    else
      var s := settlements[0];
      SettleAll(FinishAddToCart(p, s.pending, s.resolved).page, settlements[1..])
  }

  /** Number of settlements whose request resolved. */
  function ResolvedSettlements(settlements: seq<Settlement>): nat
  {
    if |settlements| == 0 then 0
    else (if settlements[0].resolved then 1 else 0) + ResolvedSettlements(settlements[1..])
  }

  /** Overlapping requests lose no increment: whatever order they settle in,
      the counter grows by exactly the number that resolved. */
  lemma {:induction false} CounterCountsSettled(p: Page, settlements: seq<Settlement>)
    ensures ReadCounter(SettleAll(p, settlements).store, CartCountKey) ==
            ReadCounter(p.store, CartCountKey) + ResolvedSettlements(settlements)
    ensures SettleAll(p, settlements).store.lists == p.store.lists
    decreases |settlements|
  {
    if |settlements| > 0 {
      var s := settlements[0];
      CounterCountsSettled(FinishAddToCart(p, s.pending, s.resolved).page, settlements[1..]);
    }
  }

  /** Three resolved adds starting from a profile with no counter leave the
      counter at 3. */
  lemma ThreeAddsFromEmpty(variantId: string, button: Option<Button>)
    requires variantId != ""
    ensures ReadCounter(AddToCartRun(Page(Empty, None, None), Some(variantId), button, [true, true, true]).page.store,
                        CartCountKey) == 3
  {
  }
}
