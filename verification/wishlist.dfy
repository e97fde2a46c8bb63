/** The wishlist operations of `SheinTheme` (assets/theme.js): add-if-absent,
    remove-all-matches, the click toggle and the header count. Each operation
    takes the page (store and badges) and returns the new page together with
    the `wishlistUpdated` event it dispatches and the toast it shows, if any. */
module Wishlist {
  import opened Wrappers
  import opened Entries
  import opened Storage
  import opened Page

  datatype Action = Added | Removed

  /** The `detail` of the `wishlistUpdated` event: the full list as written,
      the product id and what was done to it. */
  datatype Event = WishlistUpdated(wishlist: seq<Entry>, productId: string, action: Action)

  /** Everything one wishlist operation leaves behind. */
  datatype Effect = Effect(page: Page, event: Option<Event>, notice: Option<Notice>)

  /** The wishlist array as currently stored (absent reads as empty). */
  function Saved(p: Page): seq<Entry>
  {
    ReadList(p.store, WishlistKey)
  }

  /** Outside the wishlist key and its badge nothing differs between p and q,
      and the badge is still present exactly when it was. */
  ghost predicate OnlyWishlistTouched(p: Page, q: Page)
  {
    && (forall k :: k != WishlistKey ==> ReadList(q.store, k) == ReadList(p.store, k))
    && q.store.counters == p.store.counters
    && q.cartBadge == p.cartBadge
    && (q.wishlistBadge.Some? <==> p.wishlistBadge.Some?)
  }

  /** `addToWishlist`: when the id is already stored as a bare string nothing
      is written and no event fires; otherwise it is appended at the end,
      the list is written back, the badge refreshed and an 'added' event
      dispatched. Only bare strings are compared, so a record entry for the
      same product does not stop the append. */
  function AddToWishlist(p: Page, pid: string): (r: Effect)
    ensures Bare(pid) in Saved(r.page)
    ensures Bare(pid) in Saved(p) ==> r == Effect(p, None, None)
    ensures Bare(pid) !in Saved(p) ==>
              && Saved(r.page) == Saved(p) + [Bare(pid)]
              && r.event == Some(WishlistUpdated(Saved(r.page), pid, Added))
              && r.notice == Some(Notice("Added to wishlist", Success))
              && (r.page.wishlistBadge.Some? ==> r.page.wishlistBadge.value == |Saved(p)| + 1)
    ensures OnlyWishlistTouched(p, r.page)
  {
    var wishlist := Saved(p);
    if Bare(pid) in wishlist then Effect(p, None, None)
    else
      var updated := wishlist + [Bare(pid)];
      var written := p.(store := WriteList(p.store, WishlistKey, updated));
      Effect(UpdateWishlistCount(written),
             Some(WishlistUpdated(updated, pid, Added)),
             Some(Notice("Added to wishlist", Success)))
  }

  /** `removeFromWishlist`: every bare-string copy of the id goes, every other
      entry (record entries for the same product included) stays in its
      original relative order, and the write, the badge refresh and the
      'removed' event happen even when nothing was removed. */
  function RemoveFromWishlist(p: Page, pid: string): (r: Effect)
    ensures Bare(pid) !in Saved(r.page)
    ensures forall e :: e != Bare(pid) ==> multiset(Saved(r.page))[e] == multiset(Saved(p))[e]
    ensures Subsequence(Saved(r.page), Saved(p))
    ensures r.event == Some(WishlistUpdated(Saved(r.page), pid, Removed))
    ensures r.notice == Some(Notice("Removed from wishlist", Success))
    ensures r.page.wishlistBadge.Some? ==>
              r.page.wishlistBadge.value == |Saved(p)| - multiset(Saved(p))[Bare(pid)]
    ensures OnlyWishlistTouched(p, r.page)
  {
    var updated := Without(Saved(p), pid);
    WithoutIsSubsequence(Saved(p), pid);
    var written := p.(store := WriteList(p.store, WishlistKey, updated));
    Effect(UpdateWishlistCount(written),
           Some(WishlistUpdated(updated, pid, Removed)),
           Some(Notice("Removed from wishlist", Success)))
  }

  /** The result of a toggle: what the list operation left behind and the
      button's new `active` class. */
  datatype Toggled = Toggled(effect: Effect, active: bool)

  /** `toggleWishlist`: the button's `active` class decides, not the store.
      The class always flips; a previously active button removes the id and
      an inactive one adds it, so one click is one list operation. */
  function ToggleWishlist(p: Page, pid: string, active: bool): (r: Toggled)
    ensures r.active == !active
    ensures r.effect.event.Some? ==>
              r.effect.event.value.productId == pid &&
              r.effect.event.value.action == (if active then Removed else Added) &&
              r.effect.event.value.wishlist == Saved(r.effect.page)
    ensures active ==> r.effect.event.Some? && Saved(r.effect.page) == Without(Saved(p), pid)
    ensures !active ==> Bare(pid) in Saved(r.effect.page)
    ensures !active ==>
              Saved(r.effect.page) ==
              (if Bare(pid) in Saved(p) then Saved(p) else Saved(p) + [Bare(pid)])
    ensures !active ==> (r.effect.event.Some? <==> Bare(pid) !in Saved(p))
    ensures OnlyWishlistTouched(p, r.effect.page)
  {
    if active then Toggled(RemoveFromWishlist(p, pid), false)
    else Toggled(AddToWishlist(p, pid), true)
  }

  /** A `.product-card-wishlist` button: its `data-product-id` (empty when
      missing) and whether it carries the `active` class. */
  datatype WishlistButton = WishlistButton(productId: string, active: bool)

  datatype Clicked = Clicked(effect: Effect, button: WishlistButton)

  /** The click listener of a wishlist button: a button without a product id
      does nothing; any other click toggles that product. */
  function OnWishlistClick(p: Page, btn: WishlistButton): (r: Clicked)
    ensures btn.productId == "" ==> r == Clicked(Effect(p, None, None), btn)
    ensures btn.productId != "" ==>
              && r.button == WishlistButton(btn.productId, !btn.active)
              && (btn.active ==> Bare(btn.productId) !in Saved(r.effect.page))
              && (!btn.active ==> Bare(btn.productId) in Saved(r.effect.page))
    ensures btn.productId != "" && btn.active ==>
              && Saved(r.effect.page) == Without(Saved(p), btn.productId)
              && r.effect.event == Some(WishlistUpdated(Saved(r.effect.page), btn.productId, Removed))
    ensures btn.productId != "" && !btn.active ==>
              && Saved(r.effect.page) ==
                 (if Bare(btn.productId) in Saved(p) then Saved(p) else Saved(p) + [Bare(btn.productId)])
              && (r.effect.event.Some? <==> Bare(btn.productId) !in Saved(p))
              && (r.effect.event.Some? ==>
                    r.effect.event.value == WishlistUpdated(Saved(r.effect.page), btn.productId, Added))
    ensures OnlyWishlistTouched(p, r.effect.page)
  {
    if btn.productId == "" then Clicked(Effect(p, None, None), btn)
    else
      var t := ToggleWishlist(p, btn.productId, btn.active);
      Clicked(t.effect, btn.(active := t.active))
  }

  // ---------------------------------------------------------------------
  // Properties relating several operations
  // ---------------------------------------------------------------------

  /** Adding twice is adding once: the second call finds the bare id and
      neither writes nor dispatches. */
  lemma AddIdempotent(p: Page, pid: string)
    ensures AddToWishlist(AddToWishlist(p, pid).page, pid) ==
            Effect(AddToWishlist(p, pid).page, None, None)
    ensures |Saved(p)| <= |Saved(AddToWishlist(p, pid).page)| <= |Saved(p)| + 1
  {
  }

  /** Membership after an add: the id is found exactly when it was found
      before or no Bad entry is stored. An add behind a null entry is
      therefore invisible to the membership test. */
  lemma AddMembership(p: Page, pid: string)
    ensures InWishlist(Saved(AddToWishlist(p, pid).page), pid) <==>
              InWishlist(Saved(p), pid) || Bad !in Saved(p)
  {
    var before := Saved(p);
    var after := Saved(AddToWishlist(p, pid).page);
    if Bare(pid) in before {
      if Bad !in before {
        InWishlistWithoutBad(before, pid);
        assert Names(Bare(pid), pid);
      }
    } else {
      assert after == before + [Bare(pid)];
      if InWishlist(after, pid) {
        var i :| 0 <= i < |after| && Names(after[i], pid) && Bad !in after[..i];
        if i < |before| {
          assert after[..i] == before[..i];
          assert Names(before[i], pid) && Bad !in before[..i];
        } else {
          assert after[..i] == before;
        }
      }
      if InWishlist(before, pid) {
        InWishlistExtends(before, [Bare(pid)], pid);
      } else if Bad !in before {
        assert after[..|before|] == before;
        assert Names(after[|before|], pid) && Bad !in after[..|before|];
      }
    }
  }

  /** Removing twice is removing once, and the second remove still writes
      and dispatches its 'removed' event. */
  lemma RemoveIdempotent(p: Page, pid: string)
    ensures RemoveFromWishlist(RemoveFromWishlist(p, pid).page, pid).page ==
            RemoveFromWishlist(p, pid).page
    ensures RemoveFromWishlist(RemoveFromWishlist(p, pid).page, pid).event.Some?
  {
    var once := RemoveFromWishlist(p, pid).page;
    WithoutAbsent(Saved(once), pid);
    assert WishlistKey in once.store.lists;
  }

  /** Removing an id that is not stored as a bare string leaves the list as
      it was (the write and event still happen). */
  lemma RemoveAbsent(p: Page, pid: string)
    requires Bare(pid) !in Saved(p)
    ensures Saved(RemoveFromWishlist(p, pid).page) == Saved(p)
  {
    WithoutAbsent(Saved(p), pid);
  }

  /** Membership after a remove: still true exactly when a record entry for
      the id precedes every Bad entry. */
  lemma RemoveMembership(p: Page, pid: string)
    ensures InWishlist(Saved(RemoveFromWishlist(p, pid).page), pid) <==>
              RecordBeforeBad(Saved(p), pid)
  {
    WithoutMembership(Saved(p), pid);
  }

  /** Toggling an id that is not stored as a bare string on, then off again,
      gives back the original list, with an 'added' then a 'removed' event,
      and leaves the button inactive. */
  lemma ToggleRoundTrip(p: Page, pid: string)
    requires Bare(pid) !in Saved(p)
    ensures var on := ToggleWishlist(p, pid, false);
            var off := ToggleWishlist(on.effect.page, pid, on.active);
            && Saved(off.effect.page) == Saved(p)
            && !off.active
            && on.effect.event == Some(WishlistUpdated(Saved(p) + [Bare(pid)], pid, Added))
            && off.effect.event == Some(WishlistUpdated(Saved(p), pid, Removed))
            && OnlyWishlistTouched(p, off.effect.page)
  {
    var on := ToggleWishlist(p, pid, false);
    assert Saved(on.effect.page) == Saved(p) + [Bare(pid)];
    WithoutAppend(Saved(p), [Bare(pid)], pid);
    WithoutAbsent(Saved(p), pid);
    assert Without([Bare(pid)], pid) == [];
  }

  /** Clicking an inactive button twice, for a product not stored as a bare
      string, leaves the list and the button as they were; the clicks emit
      'added' then 'removed'. */
  lemma ClickTwiceRestores(p: Page, btn: WishlistButton)
    requires btn.productId != "" && !btn.active
    requires Bare(btn.productId) !in Saved(p)
    ensures var once := OnWishlistClick(p, btn);
            var twice := OnWishlistClick(once.effect.page, once.button);
            && Saved(twice.effect.page) == Saved(p)
            && twice.button == btn
            && once.effect.event.Some? && once.effect.event.value.action == Added
            && twice.effect.event.Some? && twice.effect.event.value.action == Removed
            && OnlyWishlistTouched(p, twice.effect.page)
  {
    ToggleRoundTrip(p, btn.productId);
  }

  // ---------------------------------------------------------------------
  // Consequences of comparing only bare strings
  // ---------------------------------------------------------------------

  /** The page whose wishlist holds exactly the given entries. */
  function PageWith(entries: seq<Entry>): Page
  {
    Page(Store(map[WishlistKey := entries], map[]), Some(|entries|), None)
  }

  /** A stored object entry `{id: 42}` already makes "42" a member, yet
      adding "42" appends a bare copy, and the badge then shows 2. */
  lemma AddBesideRecord()
    ensures InWishlist(Saved(PageWith([Record("42")])), "42")
    ensures Saved(AddToWishlist(PageWith([Record("42")]), "42").page) == [Record("42"), Bare("42")]
    ensures AddToWishlist(PageWith([Record("42")]), "42").page.wishlistBadge == Some(2)
  {
  }

  /** Removing "42" cannot remove an object entry `{id: 42}`, so "42" is
      still reported as a member afterwards. */
  lemma RemoveKeepsRecord()
    ensures Saved(RemoveFromWishlist(PageWith([Bare("42"), Record("42")]), "42").page) == [Record("42")]
    ensures InWishlist(Saved(RemoveFromWishlist(PageWith([Bare("42"), Record("42")]), "42").page), "42")
  {
  }

  /** A null entry ahead of the id hides it: after adding "7" behind a
      stored null, the membership test still answers false. */
  lemma AddBehindNullIsHidden()
    ensures Saved(AddToWishlist(PageWith([Bad]), "7").page) == [Bad, Bare("7")]
    ensures !InWishlist(Saved(AddToWishlist(PageWith([Bad]), "7").page), "7")
  {
  }

  /** The empty or absent wishlist contains nothing. */
  lemma EmptyHasNothing(pid: string)
    ensures !InWishlist(Saved(Page(Empty, None, None)), pid)
  {
  }
}
