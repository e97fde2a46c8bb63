/** The `active`-class logic of `initDropdowns` (assets/theme.js) as a
    set-valued state machine over the page's `.dropdown` elements, numbered
    in document order. */
module Dropdowns {

  /** `count` dropdowns; `wired` holds those that contain a `.dropdown-toggle`
      (only they get a click listener); `active` those with the class. */
  datatype Dropdowns = Dropdowns(count: nat, wired: set<nat>, active: set<nat>)

  /** Every index names an existing dropdown. */
  ghost predicate Valid(d: Dropdowns)
  {
    && (forall i :: i in d.wired ==> i < d.count)
    && (forall i :: i in d.active ==> i < d.count)
  }

  /** The one-open-at-a-time rule. */
  predicate AtMostOneActive(d: Dropdowns)
  {
    forall i, j :: i in d.active && j in d.active ==> i == j
  }

  /** A click, by where it lands: on the toggle of dropdown i; on a
      wishlist button, whose listener stops propagation, so no dropdown
      listener sees it; or anywhere else, from where the event bubbles to
      the document listener. */
  datatype Click = OnToggle(index: nat) | Stopped | Elsewhere

  /** The toggle listener of dropdown i: every other dropdown loses
      `active`, then dropdown i's class is toggled. */
  function ToggleClick(d: Dropdowns, i: nat): (r: Dropdowns)
    requires i in d.wired
    ensures AtMostOneActive(r)
    ensures i in r.active <==> i !in d.active
    ensures forall j :: j in r.active ==> j == i
    ensures r.count == d.count && r.wired == d.wired
  {
    var others := set j | j in d.active && j != i;
    var kept := d.active - others;
    d.(active := if i in kept then kept - {i} else kept + {i})
  }

  /** The document listener: every dropdown loses `active`. */
  function DocumentClick(d: Dropdowns): (r: Dropdowns)
    ensures forall j :: j !in r.active
    ensures r.count == d.count && r.wired == d.wired
  {
    d.(active := {})
  }

  /** One click. A toggle click stops propagation, so the document listener
      does not also run; a wishlist-button click stops it before any
      dropdown listener; a click on a dropdown without a toggle, or anywhere
      else, reaches the document listener. */
  function Dispatch(d: Dropdowns, c: Click): (r: Dropdowns)
    ensures c.Stopped? ==> r == d
    ensures !c.Stopped? ==> AtMostOneActive(r)
    ensures AtMostOneActive(d) ==> AtMostOneActive(r)
    ensures Valid(d) ==> Valid(r)
    ensures r.count == d.count && r.wired == d.wired
    ensures c.OnToggle? && c.index in d.wired ==>
              (c.index in r.active <==> c.index !in d.active)
    ensures c.OnToggle? && c.index in d.wired ==> forall j :: j in r.active ==> j == c.index
    ensures c.Elsewhere? || (c.OnToggle? && c.index !in d.wired) ==> r.active == {}
  {
    match c
    case OnToggle(i) => if i in d.wired then ToggleClick(d, i) else DocumentClick(d)
    case Stopped => d
    case Elsewhere => DocumentClick(d)
  }

  /** A sequence of clicks, in order. */
  function Run(d: Dropdowns, clicks: seq<Click>): Dropdowns
    decreases |clicks|
  {
    if |clicks| == 0 then d else Run(Dispatch(d, clicks[0]), clicks[1..])
  }

  /** Whatever the page started with, once a click that some dropdown
      listener sees has happened, at most one dropdown is open, and every
      later click keeps it so; no click creates or rewires dropdowns. */
  lemma {:induction false} RunKeepsAtMostOne(d: Dropdowns, clicks: seq<Click>)
    requires Valid(d)
    requires AtMostOneActive(d) || exists k :: 0 <= k < |clicks| && !clicks[k].Stopped?
    ensures AtMostOneActive(Run(d, clicks))
    ensures Valid(Run(d, clicks))
    ensures Run(d, clicks).count == d.count && Run(d, clicks).wired == d.wired
    decreases |clicks|
  {
    if |clicks| > 0 {
      var next := Dispatch(d, clicks[0]);
      if !AtMostOneActive(next) {
        var k :| 0 <= k < |clicks| && !clicks[k].Stopped?;
        assert k != 0;
        assert clicks[1..][k - 1] == clicks[k];
      }
      RunKeepsAtMostOne(next, clicks[1..]);
    }
  }

  /** Clicks that stop propagation before any dropdown listener change
      nothing: a page that opened with several dropdowns active keeps them
      all open through any number of wishlist-button clicks. */
  lemma {:induction false} StoppedRunChangesNothing(d: Dropdowns, clicks: seq<Click>)
    requires forall k :: 0 <= k < |clicks| ==> clicks[k].Stopped?
    ensures Run(d, clicks) == d
    decreases |clicks|
  {
    if |clicks| > 0 {
      assert clicks[0].Stopped?;
      StoppedRunChangesNothing(d, clicks[1..]);
    }
  }

  /** Two clicks on the same toggle undo each other when at most that
      dropdown was open before. */
  lemma ToggleTwiceRestores(d: Dropdowns, i: nat)
    requires i in d.wired
    requires forall j :: j in d.active ==> j == i
    ensures Dispatch(Dispatch(d, OnToggle(i)), OnToggle(i)) == d
  {
  }
}
