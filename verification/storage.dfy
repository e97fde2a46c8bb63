/** The origin's `localStorage` as a plain value. Values are held already
    decoded: the wishlist key holds a list of entries and the cart key holds
    an integer counter. A missing key reads as the theme's fallback
    (`|| '[]'` for lists, `|| '0'` for the counter). */
module Storage {
  import opened Entries

  /** Storage key of the wishlist (`this.WISHLIST_KEY`). */
  const WishlistKey: string := "shopify-wishlist"

  /** Storage key of the cart counter. */
  const CartCountKey: string := "cartCount"

  datatype Store = Store(lists: map<string, seq<Entry>>, counters: map<string, int>)

  /** A store with no keys at all, as in a fresh browsing profile. */
  const Empty: Store := Store(map[], map[])

  /** `JSON.parse(localStorage.getItem(key) || '[]')`: a key that was
      never written reads as the empty list. */
  function ReadList(st: Store, key: string): (r: seq<Entry>)
    ensures key !in st.lists ==> r == []
  {
    if key in st.lists then st.lists[key] else []
  }

  /** `localStorage.setItem(key, JSON.stringify(v))`: the key reads back
      as v and every other key reads as before. */
  function WriteList(st: Store, key: string, v: seq<Entry>): (r: Store)
    ensures ReadList(r, key) == v
    ensures forall k :: k != key ==> ReadList(r, k) == ReadList(st, k)
    ensures r.counters == st.counters
  {
    st.(lists := st.lists[key := v])
  }

  /** `parseInt(localStorage.getItem(key) || '0', 10)`: a key that was
      never written reads as 0. */
  function ReadCounter(st: Store, key: string): (r: int)
    ensures key !in st.counters ==> r == 0
  {
    if key in st.counters then st.counters[key] else 0
  }

  /** `localStorage.setItem(key, String(n))`: the key reads back as n and
      every other key reads as before. */
  function WriteCounter(st: Store, key: string, n: int): (r: Store)
    ensures ReadCounter(r, key) == n
    ensures forall k :: k != key ==> ReadCounter(r, k) == ReadCounter(st, k)
    ensures r.lists == st.lists
  {
    st.(counters := st.counters[key := n])
  }
}
