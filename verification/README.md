# Storefront theme state, modelled in Dafny

This project models the stateful part of the `SheinTheme` storefront script
(`assets/theme.js`). That part consists of three pieces:

- **Wishlist.** A list of product ids kept under the `localStorage` key
  `shopify-wishlist`. The theme offers a membership test (`inWishlist`), add-if-absent,
  remove-all-matches, a click toggle driven by the button's `active` class, and the
  header count.
- **Cart counter.** A number kept under the key `cartCount`. `addToCart` increments it
  after the add-to-cart request resolves. The button shows a busy label while the
  request is in flight and is put back in a `finally` block.
- **Dropdowns.** A click on a dropdown's toggle closes every other dropdown and flips
  its own. A click on a wishlist button stops propagation and leaves every dropdown as
  it was. Any other click bubbles to the document and closes all of them.

The store is a plain value, `Storage.Store`. It maps keys to lists that are already
decoded, and keys to counters. A missing key reads as the theme's fallback (`[]` or
`0`). A wishlist element is an `Entries.Entry`, which has three cases:

- `Bare(id)`: a string element.
- `Record(idStr)`: an object entry, or any other element on which the membership
  callback returns. `idStr` is `String(item.id)`. The comment at theme.js:178 calls
  the string shape "legacy"; the code does not say which shape is older.
- `Bad`: an element on which the callback throws: `null`, or a record whose `id` does
  not convert to a string. The rows below call it a "null entry".

Every operation is a pure function. Each wishlist operation takes the page (the store
plus the two header badges, either of which may be missing) and returns the new page,
together with the `wishlistUpdated` event and the toast it would produce. The cart
operations work on the page and the button and return a `Cart.CartResult`. The dropdown
operations work on a `Dropdowns.Dropdowns` state.

Modules:

| file | module | contents |
|---|---|---|
| wrappers.dfy | Wrappers | `Option` |
| entries.dfy | Entries | `Entry`, the `some` scan and `inWishlist`, the `filter` of `removeFromWishlist`, and reference definitions for both |
| storage.dfy | Storage | `Store`, keys, read and write |
| page.dfy | Page | page state, `updateWishlistCount`, `updateCartCount` |
| wishlist.dfy | Wishlist | add, remove, toggle, click listener, and the properties that relate them |
| cart.dfy | Cart | `addToCart` split at its `await`, and runs of clicks |
| dropdowns.dfy | Dropdowns | the dropdown state machine and its one-open invariant |

Several behaviours of the code are easy to misread. In each case the model follows the
code, and the lemmas named below exhibit the behaviour:

- The header count is the raw array length. A bare `"42"` next to a record `{id: 42}`
  counts 2, although membership (which accepts both shapes, as the comment at
  theme.js:178 says) treats them as one product (`Wishlist.AddBesideRecord`).
- Membership accepts both shapes (theme.js:178), but `add` and `remove` compare only
  bare strings. An object entry is never matched, so after `remove("42")`, `"42"` can
  still be a member (`Wishlist.RemoveKeepsRecord`).
- The membership scan aborts at a null element, and the `catch` reads that as "absent".
  So an add that lands behind a null element is not seen as a member
  (`Wishlist.AddBehindNullIsHidden`, `Wishlist.AddMembership`).
- `addToCart` re-enables the button (`disabled = false`) rather than restoring the
  previous `disabled` flag. Only an enabled button therefore gets back both its label
  text and its flag (`Cart.ButtonRestored`).
- A malformed stored value makes `JSON.parse` throw at theme.js:176, :222, :234 and
  :246, and nothing catches it. The model assumes a value that decodes to a list.

## Model

| member | source | states |
|---|---|---|
| Entries.SomeNames | assets/theme.js:181 | `some` with the two-shape callback hits exactly when an entry naming the id precedes the first null entry. It throws exactly when no such entry exists and a null entry is present. Otherwise it misses. |
| Entries.InWishlist | assets/theme.js:179-185 | `inWishlist` is true iff a bare string or record naming the id occurs before the first null entry. A throw is caught as false. |
| Entries.InWishlistWithoutBad | assets/theme.js:181 | With no null entry, membership is "some entry, of either shape, names the id". |
| Entries.InWishlistExtends | assets/theme.js:181 | Appending entries never turns a reported membership into non-membership. |
| Entries.Without | assets/theme.js:235 | The filter leaves no bare copy of the id. Every other entry keeps its multiplicity, including records for the same id and nulls. The length drops by the number of bare copies. |
| Entries.WithoutIsSubsequence | assets/theme.js:235 | The surviving entries keep their original relative order. The result is a subsequence of the input. |
| Entries.WithoutAppend | assets/theme.js:235 | Filtering distributes over concatenation. |
| Entries.WithoutAbsent | assets/theme.js:235 | Filtering a list with no bare copy of the id returns it unchanged. |
| Entries.WithoutMembership | assets/theme.js:233-241 | After the filter, `inWishlist` is true exactly when an object entry for the id precedes the first null entry. |
| Storage.ReadList | assets/theme.js:222 | A wishlist key that was never written reads as the empty list (the fallback to `'[]'` when `getItem` returns nothing; also at :234 and :246). |
| Storage.ReadCounter | assets/theme.js:273 | A counter key that was never written reads as 0 (the fallback to `'0'` when `getItem` returns nothing). |
| Storage.WriteList | assets/theme.js:225 | After `setItem`, the key reads back as the written list. Every other key reads as before. |
| Storage.WriteCounter | assets/theme.js:274 | After `setItem`, the counter key reads back as the written number. Every other key reads as before. |
| Page.UpdateWishlistCount | assets/theme.js:243-248 | A present wishlist badge shows the raw stored array length, object entries and duplicates included. A missing badge leaves the page alone. Nothing is written. |
| Page.UpdateCartCount | assets/theme.js:285-289 | A present cart badge shows the stored counter, 0 when absent. A missing badge leaves the page alone. |
| Wishlist.AddToWishlist | assets/theme.js:221-231 | Afterwards the bare id is stored. If it was already stored as a bare string, the page is unchanged and there is no event or toast. Otherwise it is appended after the unchanged earlier entries, an 'added' event carries the new list, and the badge shows the old length + 1. No other key changes. |
| Wishlist.RemoveFromWishlist | assets/theme.js:233-241 | Afterwards no bare copy of the id remains. Every other entry keeps its multiplicity and relative order. A 'removed' event and toast happen even when nothing was removed. The badge shows the old stored list length minus the copies removed. No other key changes. |
| Wishlist.ToggleWishlist | assets/theme.js:210-219 | The button's `active` flag always flips. A previously active button runs remove, so an event always fires and the list is the filtered list. An inactive one runs add: if a bare copy is already stored the list is unchanged and no event fires, otherwise the id is appended and an event fires. Any event names the id and carries the written list, with the action matching the old flag. |
| Wishlist.OnWishlistClick | assets/theme.js:190-195 | A button without a product id changes nothing. Otherwise the click toggles that product and flips the button. On an active button the list becomes the filtered list and a 'removed' event fires. On an inactive one the id is appended, with an 'added' event, exactly when no bare copy was stored. |
| Wishlist.ClickTwiceRestores | assets/theme.js:190-195 | Two clicks on an inactive button whose product is not stored as a bare string restore the list and the button, emitting 'added' then 'removed'. Nothing else changes. |
| Wishlist.AddIdempotent | assets/theme.js:222-225 | A second add of the same id neither writes nor dispatches. The list grows by at most one entry per add. |
| Wishlist.AddMembership | assets/theme.js:221-231 | After an add, the id is a member iff it was one before or no null entry is stored. |
| Wishlist.RemoveIdempotent | assets/theme.js:233-241 | A second remove of the same id leaves the page as the first left it, and still dispatches its event. |
| Wishlist.RemoveAbsent | assets/theme.js:235 | Removing an id not stored as a bare string leaves the list unchanged. |
| Wishlist.RemoveMembership | assets/theme.js:233-241 | After a remove, the id is still a member iff an object entry for it precedes the first null entry. |
| Wishlist.ToggleRoundTrip | assets/theme.js:210-219 | Toggling an absent id on and then off restores the list. It emits 'added' then 'removed' and leaves the button inactive. Nothing else changes. |
| Wishlist.AddBesideRecord | assets/theme.js:223 | With `{id: 42}` stored, "42" is already a member, yet add appends a bare "42" and the badge shows 2. |
| Wishlist.RemoveKeepsRecord | assets/theme.js:235 | Removing "42" from `["42", {id: 42}]` leaves `[{id: 42}]`, and "42" is still a member. |
| Wishlist.AddBehindNullIsHidden | assets/theme.js:181-183 | Adding "7" behind a stored null gives `[null, "7"]`, and membership of "7" is still false. |
| Wishlist.EmptyHasNothing | assets/theme.js:179-185 | An absent wishlist contains no id, and the test does not throw. |
| Cart.HasVariant | assets/theme.js:264 | The guard passes iff the variant id attribute is present and non-empty. |
| Cart.BeginAddToCart | assets/theme.js:265-266 | Before the request, the button label is saved and the button shows "Adding..." and is disabled. Nothing is read or stored. |
| Cart.FinishAddToCart | assets/theme.js:267-282 | On the page as it is when the request settles: if it resolved, the counter becomes its current value + 1 (absent read as 0) and the cart badge is refreshed. If it rejected, the page is untouched and an error toast is shown. Either way the saved label is put back and the button is enabled. No other key changes. |
| Cart.AddToCart | assets/theme.js:263-283 | Without a variant id nothing changes. Otherwise the counter goes up by one only if the request resolved. The button ends with its original label, enabled. Wishlist keys are untouched. |
| Cart.ButtonRestored | assets/theme.js:280-282 | An enabled button gets back its label text and its enabled flag, on every path. |
| Cart.CounterCountsResolved | assets/theme.js:273-274 | Over a run of completed clicks, the counter grows by exactly the number of resolved requests. |
| Cart.CounterCountsSettled | assets/theme.js:267-276 | Requests in flight on several buttons at once, settling in any order, raise the counter by exactly the number that resolved, because each reads and writes the counter with no `await` in between. |
| Cart.ThreeAddsFromEmpty | assets/theme.js:273-274 | Three resolved adds from a profile without a counter leave it at 3. |
| Dropdowns.ToggleClick | assets/theme.js:160-165 | After a toggle click, at most one dropdown is active, and only the clicked one can be. It is active iff it was inactive before. |
| Dropdowns.DocumentClick | assets/theme.js:168-170 | A document click leaves no dropdown active. |
| Dropdowns.Dispatch | assets/theme.js:155-171 | A wishlist-button click (stopped at theme.js:191) changes nothing. Every other click leaves at most one dropdown active, and no click breaks that rule once it holds. A toggle click flips its own dropdown and closes every other one. A click that reaches the document closes all, because toggle clicks stop propagation. Indices stay valid. |
| Dropdowns.RunKeepsAtMostOne | assets/theme.js:155-171 | From any page state, once the run contains a click some dropdown listener sees, at most one dropdown is active at the end. A page that already obeys the rule keeps it through any run. |
| Dropdowns.StoppedRunChangesNothing | assets/theme.js:190-191 | A run made only of wishlist-button clicks leaves every dropdown as it was, even several open ones. |
| Dropdowns.ToggleTwiceRestores | assets/theme.js:163-164 | Two clicks on the same toggle restore the state when no other dropdown was open. |

## Left out

- `localStorage` access, `JSON.parse` and `JSON.stringify` are browser I/O. The store is a value that is already decoded.
- Storage.WriteList: a written list reads back unchanged. In the source, `JSON.stringify` writes a number entry that decoded to an infinity (a stored literal `1e400`) as `null`. After any write, such an entry would therefore become a throwing entry, rather than stay the `Record("undefined")` the model keeps. The theme itself never stores such a value.
- A write that fails (storage quota, storage disabled) is not modelled. In `addToWishlist` and `removeFromWishlist` it would throw out of the function. In `addToCart` it would land in the `catch`.
- Delivery of the `wishlistUpdated` and `storage` events between tabs is left out, because it is browser event plumbing. Both listeners only call `updateWishlistCount`, which is modelled as `Page.UpdateWishlistCount`.
- The one-time snapshot at theme.js:176 and the seeding of button classes at :187-189 are DOM initialisation. They are not modelled. `inWishlist` is modelled on whatever list it is given.
- `fetch` and the `window.SheinTheme` helpers (theme.js:332-352) are network calls. The request is a boolean, "resolved". `fetch` also resolves on HTTP error statuses, so "resolved" is not "the server accepted it".
- The `quantity` argument of `addToCart` only goes into the request body. The counter always grows by one.
- The counter's text encoding and `parseInt` are not modelled. The counter is held as an integer, so a non-numeric stored value and `NaN` do not arise. A negative stored counter is held as it is (`"-5"` becomes -4 after one resolved add). The badges likewise hold the number, not its `String(...)` text.
- Cart.CounterCountsResolved: the counter is an unbounded integer, but the source adds in JavaScript Numbers. From 2^53 = 9007199254740992 on, `currentCount + 1` can round back to `currentCount`, so the counter stops growing there. The same ceiling applies to Cart.CounterCountsSettled and Cart.FinishAddToCart.
- Cart.ButtonRestored: a button is only its label text and `disabled` flag. Assigning `textContent` at theme.js:266 and :281 replaces the button's child nodes with one text node, so child markup such as an icon is lost. That loss is not modelled.
- `Cart.AddToCartRun` covers clicks that each finish before the next one starts. Requests on different `.add-to-cart-btn` buttons can overlap, since each button disables only itself. `Cart.SettleAll` models that overlap, and `Cart.CounterCountsSettled` shows it cannot change the counter outcome.
- Dropdowns.Dispatch: each wired dropdown is assumed to own the first `.dropdown-toggle` below it (theme.js:158). Nested markup where a parent's first toggle belongs to a child dropdown puts both listeners on one element, parent's first. The parent's listener clears the child, then the child's listener toggles it back on, so that toggle can never close the child. This shared-toggle case is not modelled.
- `showNotification` timers, `debounce`, `throttle` and the search `setTimeout` are timer-driven. Only the message and kind of each toast are kept.
- Tooltips (floating-point layout), modals, the mobile menu, smooth scroll, and the filter, gallery and lazy-load placeholders are DOM class toggling or empty stubs.
