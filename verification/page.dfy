/** What one open tab of the storefront holds besides its script: the shared
    store and the two header badges (`.wishlist-count`, `.cart-count`), each
    of which may be missing from the page. */
module Page {
  import opened Wrappers
  import opened Entries
  import opened Storage

  datatype Page = Page(store: Store, wishlistBadge: Option<nat>, cartBadge: Option<int>)

  datatype NoticeKind = Success | Error

  /** The toast passed to `showNotification`; its timers are not modelled. */
  datatype Notice = Notice(message: string, kind: NoticeKind)

  /** `updateWishlistCount`: a present badge shows the raw length of the
      stored wishlist array, records and duplicates included; a missing
      badge leaves the page as it is. The store is only read. */
  function UpdateWishlistCount(p: Page): (r: Page)
    ensures r.store == p.store && r.cartBadge == p.cartBadge
    ensures r.wishlistBadge.Some? <==> p.wishlistBadge.Some?
    ensures r.wishlistBadge.Some? ==> r.wishlistBadge.value == |ReadList(p.store, WishlistKey)|
  {
    if p.wishlistBadge.None? then p
    else p.(wishlistBadge := Some(|ReadList(p.store, WishlistKey)|))
  }

  /** `updateCartCount`: a present badge shows the stored counter (0 when
      absent); a missing badge leaves the page as it is. */
  function UpdateCartCount(p: Page): (r: Page)
    ensures r.store == p.store && r.wishlistBadge == p.wishlistBadge
    ensures r.cartBadge.Some? <==> p.cartBadge.Some?
    ensures r.cartBadge.Some? ==> r.cartBadge.value == ReadCounter(p.store, CartCountKey)
  {
    if p.cartBadge.None? then p
    else p.(cartBadge := Some(ReadCounter(p.store, CartCountKey)))
  }
}
