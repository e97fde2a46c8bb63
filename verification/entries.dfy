/** The decoded wishlist array of assets/theme.js and the two list scans the
    theme runs over it: the `inWishlist` membership test (a `some` inside a
    `try`) and the `filter` used by `removeFromWishlist`. */
module Entries {

  /** One element of the decoded wishlist array. Two shapes exist: a bare
      product-id string (the comment at theme.js:178 calls this one legacy),
      and an object entry whose `String(item.id)` is the product id. Any
      other element on which the callback returns behaves like the object
      shape (a number has no `id`, so it reads as "undefined"). Bad is an
      element on which the callback throws: `null`, or a record whose `id`
      does not convert to a string. */
  datatype Entry =
    | Bare(id: string)       // a string element: the product id itself
    | Record(idStr: string)  // a non-string element whose id converts; idStr is String(item.id)
    | Bad                    // null, or an id that String() cannot convert: the callback throws

  /** The `some` callback of `inWishlist` answers true for this entry.
      For Bad the callback does not answer at all (it throws). */
  predicate Names(e: Entry, pid: string)
  {
    match e
    case Bare(id) => id == pid
    case Record(idStr) => idStr == pid
    case Bad => false
  }

  /** Reference definition of membership: scanning left to right, an entry
      naming pid occurs before the first Bad entry. */
  ghost predicate ListedBeforeBad(stored: seq<Entry>, pid: string)
  {
    exists i :: 0 <= i < |stored| && Names(stored[i], pid) && Bad !in stored[..i]
  }

  /** How a call to `stored.some(callback)` ends. */
  datatype Scan = Hit | Miss | Threw

  /** Unfolds ListedBeforeBad and Bad-membership by one element. */
  lemma ListedBeforeBadCons(stored: seq<Entry>, pid: string)
    requires |stored| > 0
    ensures ListedBeforeBad(stored, pid) <==>
              stored[0] != Bad && (Names(stored[0], pid) || ListedBeforeBad(stored[1..], pid))
    ensures Bad in stored <==> stored[0] == Bad || Bad in stored[1..]
  {
  }

  /** `stored.some(item => typeof item === 'string' ? item === pid
      : String(item.id) === pid)`: stops at the first entry that answers
      true, and throws at the first Bad entry reached before that. */
  function SomeNames(stored: seq<Entry>, pid: string): (r: Scan)
    ensures r == Hit <==> ListedBeforeBad(stored, pid)
    ensures r == Threw <==> !ListedBeforeBad(stored, pid) && Bad in stored
    decreases |stored|
  {
    if |stored| == 0 then Miss
    else
      ListedBeforeBadCons(stored, pid);
      match stored[0]
      case Bad => Threw
      case Bare(id) => if id == pid then Hit else SomeNames(stored[1..], pid)
      case Record(idStr) => if idStr == pid then Hit else SomeNames(stored[1..], pid)
  }

  /** The `inWishlist` helper: the scan inside a `try` whose `catch` answers
      false. It is true exactly when an entry naming pid precedes every Bad
      entry, and it never throws. */
  function InWishlist(stored: seq<Entry>, pid: string): (r: bool)
    ensures r <==> ListedBeforeBad(stored, pid)
  {
    match SomeNames(stored, pid)
    case Hit => true
    case Miss => false
    case Threw => false
  }

  /** On a list with no Bad entry, membership is plain "some entry names pid",
      over both the bare and the record shape. */
  lemma InWishlistWithoutBad(stored: seq<Entry>, pid: string)
    requires Bad !in stored
    ensures InWishlist(stored, pid) <==> exists e :: e in stored && Names(e, pid)
  {
  }

  /** Appending entries after a list never revokes a membership it reports. */
  lemma InWishlistExtends(a: seq<Entry>, b: seq<Entry>, pid: string)
    requires InWishlist(a, pid)
    ensures InWishlist(a + b, pid)
  {
    var i :| 0 <= i < |a| && Names(a[i], pid) && Bad !in a[..i];
    assert (a + b)[..i] == a[..i];
    assert Names((a + b)[i], pid) && Bad !in (a + b)[..i];
  }

  /** `wishlist.filter(id => id !== productId)`: drops exactly the string
      entries equal to pid; records (even for the same product) and null
      entries stay. */
  function Without(stored: seq<Entry>, pid: string): (r: seq<Entry>)
    ensures Bare(pid) !in r
    ensures forall e :: e != Bare(pid) ==> multiset(r)[e] == multiset(stored)[e]
    ensures |r| + multiset(stored)[Bare(pid)] == |stored|
    decreases |stored|
  {
    if |stored| == 0 then []
    else
      var rest := Without(stored[1..], pid);
      assert stored == [stored[0]] + stored[1..];
      assert multiset(stored) == multiset{stored[0]} + multiset(stored[1..]);
      if stored[0] == Bare(pid) then rest
      else
        assert multiset([stored[0]] + rest) == multiset{stored[0]} + multiset(rest);
        [stored[0]] + rest
  }

  /** Reference definition of what membership can still find once the
      string entries for pid are gone: a record naming pid occurs before
      the first Bad entry. */
  ghost predicate RecordBeforeBad(stored: seq<Entry>, pid: string)
  {
    exists i :: 0 <= i < |stored| && stored[i] == Record(pid) && Bad !in stored[..i]
  }

  /** Unfolds RecordBeforeBad by one element. */
  lemma RecordBeforeBadCons(stored: seq<Entry>, pid: string)
    requires |stored| > 0
    ensures RecordBeforeBad(stored, pid) <==>
              stored[0] != Bad && (stored[0] == Record(pid) || RecordBeforeBad(stored[1..], pid))
  {
  }

  /** After the string entries for pid are filtered out, membership still
      answers true exactly when a record entry for pid precedes every Bad
      entry: the filter cannot remove the record shape. */
  lemma {:induction false} WithoutMembership(stored: seq<Entry>, pid: string)
    ensures InWishlist(Without(stored, pid), pid) <==> RecordBeforeBad(stored, pid)
    decreases |stored|
  {
    if |stored| > 0 {
      RecordBeforeBadCons(stored, pid);
      WithoutMembership(stored[1..], pid);
      var r := Without(stored, pid);
      if stored[0] != Bare(pid) {
        assert r == [stored[0]] + Without(stored[1..], pid);
        assert r[1..] == Without(stored[1..], pid);
        ListedBeforeBadCons(r, pid);
      }
    }
  }

  /** Reference definition of "x keeps a subsequence of y": greedy matching
      of x's elements, in order, against y. */
  ghost predicate Subsequence<T>(x: seq<T>, y: seq<T>)
    decreases |y|
  {
    if |x| == 0 then true
    else if |y| == 0 then false
    else if x[0] == y[0] then Subsequence(x[1..], y[1..])
    else Subsequence(x, y[1..])
  }

  /** The filtered list keeps the surviving entries in their original
      relative order. */
  lemma {:induction false} WithoutIsSubsequence(stored: seq<Entry>, pid: string)
    ensures Subsequence(Without(stored, pid), stored)
    decreases |stored|
  {
    if |stored| > 0 {
      WithoutIsSubsequence(stored[1..], pid);
      var r := Without(stored, pid);
      if stored[0] == Bare(pid) {
        if |r| > 0 {
          assert r[0] in r;
          assert r[0] != stored[0];
        }
      } else {
        assert r[1..] == Without(stored[1..], pid);
      }
    }
  }

  /** Filtering distributes over concatenation: each part is filtered in
      place, so no entry moves across another. */
  lemma {:induction false} WithoutAppend(a: seq<Entry>, b: seq<Entry>, pid: string)
    ensures Without(a + b, pid) == Without(a, pid) + Without(b, pid)
    decreases |a|
  {
    if |a| == 0 {
      assert a + b == b;
    } else {
      assert (a + b)[1..] == a[1..] + b;
      WithoutAppend(a[1..], b, pid);
    }
  }

  /** Filtering a list that holds no matching string entry changes nothing. */
  lemma {:induction false} WithoutAbsent(stored: seq<Entry>, pid: string)
    requires Bare(pid) !in stored
    ensures Without(stored, pid) == stored
    decreases |stored|
  {
    if |stored| > 0 {
      assert stored[0] in stored;
      assert forall e :: e in stored[1..] ==> e in stored;
      WithoutAbsent(stored[1..], pid);
      assert stored == [stored[0]] + stored[1..];
    }
  }
}
