/**
 * The mobile navigation and header flags: the menu's "active" class and
 * the toggle icon drawn from it, the "active" class of each dropdown, and
 * the header's "scrolled" class. Each handler is a transition of `Nav`;
 * the viewport width and scroll offset are the event's inputs.
 */
module Navigation {

  /** Widths up to this one get the mobile behaviour. */
  const MobileBreakpoint: int := 992

  /** Scroll offsets beyond this one mark the header as scrolled. */
  const ScrollThreshold: int := 100

  /** The glyph in the menu toggle: a hamburger or a close cross. */
  datatype Icon = Bars | Times

  datatype Nav = Nav(menuOpen: bool, icon: Icon, dropdowns: seq<bool>, headerScrolled: bool)

  /** The icon that matches the menu state. */
  function IconFor(open: bool): Icon {
    if open then Times else Bars
  }

  predicate AtMostOneOpen(dropdowns: seq<bool>) {
    forall i, j :: 0 <= i < |dropdowns| && 0 <= j < |dropdowns| && dropdowns[i] && dropdowns[j] ==> i == j
  }

  /** What every handler keeps: the icon agrees with the menu flag and at
      most one dropdown is open. */
  predicate Consistent(n: Nav) {
    n.icon == IconFor(n.menuOpen) && AtMostOneOpen(n.dropdowns)
  }

  /** A page as loaded: menu closed with the hamburger, no dropdown open,
      header flag as the markup has it. */
  function Initial(dropdownCount: nat, scrolled: bool): (n: Nav)
    ensures Consistent(n) && !n.menuOpen && |n.dropdowns| == dropdownCount
  {
    Nav(false, Bars, seq(dropdownCount, _ => false), scrolled)
  }

  /** The menu closed and the hamburger shown; nothing else touched. */
  function CloseMenu(n: Nav): (r: Nav)
    ensures !r.menuOpen && r.icon == Bars
    ensures r.dropdowns == n.dropdowns && r.headerScrolled == n.headerScrolled
  {
    n.(menuOpen := false, icon := Bars)
  }

  /** A click on the toggle: the menu flag flips and the icon follows it. */
  function ToggleMenu(n: Nav): (r: Nav)
    ensures r.menuOpen == !n.menuOpen
    ensures r.icon == IconFor(r.menuOpen)
    ensures r.dropdowns == n.dropdowns && r.headerScrolled == n.headerScrolled
  {
    var open := !n.menuOpen;
    n.(menuOpen := open, icon := if open then Times else Bars)
  }

  /** A click on a menu link: on a mobile width the menu closes; on a wider
      viewport nothing changes. */
  function NavLinkClick(n: Nav, width: int): (r: Nav)
    ensures width <= MobileBreakpoint ==> !r.menuOpen && r.icon == Bars
    ensures width > MobileBreakpoint ==> r == n
    ensures r.dropdowns == n.dropdowns && r.headerScrolled == n.headerScrolled
  {
    if width <= MobileBreakpoint then CloseMenu(n) else n
  }

  /** A click anywhere in the document: one outside both the menu and the
      toggle closes the menu. */
  function DocumentClick(n: Nav, insideMenu: bool, insideToggle: bool): (r: Nav)
    ensures !insideMenu && !insideToggle ==> !r.menuOpen && r.icon == Bars
    ensures insideMenu || insideToggle ==> r == n
    ensures r.dropdowns == n.dropdowns && r.headerScrolled == n.headerScrolled
  {
    if !insideMenu && !insideToggle then CloseMenu(n) else n
  }

  /** A click on the trigger of dropdown `index`. On a mobile width the
      link is not followed, that dropdown flips and every other one closes;
      on a wider viewport the link is followed and nothing changes. */
  function DropdownClick(n: Nav, index: nat, width: int): (r: (Nav, bool))
    requires index < |n.dropdowns|
    ensures var (m, followLink) := r;
      && |m.dropdowns| == |n.dropdowns|
      && m.menuOpen == n.menuOpen && m.icon == n.icon && m.headerScrolled == n.headerScrolled
      && (followLink <==> width > MobileBreakpoint)
      && (width > MobileBreakpoint ==> m == n)
      && (width <= MobileBreakpoint ==> m.dropdowns[index] == !n.dropdowns[index])
      && (width <= MobileBreakpoint ==>
            forall j :: 0 <= j < |m.dropdowns| && j != index ==> !m.dropdowns[j])
  {
    if width <= MobileBreakpoint then
      var flipped := !n.dropdowns[index];
      (n.(dropdowns := seq(|n.dropdowns|, j requires 0 <= j < |n.dropdowns| =>
                             if j == index then flipped else false)), false)
    else
      (n, true)
  }

  /** A mobile dropdown click leaves at most one dropdown open, whatever was
      open before. */
  lemma MobileDropdownClickExclusive(n: Nav, index: nat, width: int)
    requires index < |n.dropdowns| && width <= MobileBreakpoint
    ensures AtMostOneOpen(DropdownClick(n, index, width).0.dropdowns)
  {
  }

  /** A scroll event: the header flag is re-derived from the offset alone. */
  function Scroll(n: Nav, scrollY: int): (r: Nav)
    ensures r.headerScrolled <==> scrollY > ScrollThreshold
    ensures r.menuOpen == n.menuOpen && r.icon == n.icon && r.dropdowns == n.dropdowns
  {
    n.(headerScrolled := scrollY > ScrollThreshold)
  }

  /** No hysteresis: the flag after two scrolls depends only on the second. */
  lemma ScrollForgetsHistory(n: Nav, first: int, second: int)
    ensures Scroll(Scroll(n, first), second) == Scroll(n, second)
  {
  }

  /** The events the handlers respond to. A dropdown click names a dropdown
      by its position among the page's dropdowns. */
  datatype Event =
    | ToggleClicked
    | NavLinkClicked(width: int)
    | DropdownClicked(index: nat, width: int)
    | DocumentClicked(insideMenu: bool, insideToggle: bool)
    | Scrolled(scrollY: int)

  /** One event. A dropdown index past the page's dropdowns has no handler. */
  function Apply(n: Nav, e: Event): (r: Nav)
    ensures |r.dropdowns| == |n.dropdowns|
    ensures !e.Scrolled? ==> r.headerScrolled == n.headerScrolled
    ensures e.Scrolled? ==> r == n.(headerScrolled := e.scrollY > ScrollThreshold)
    ensures e.ToggleClicked? ==> r.menuOpen == !n.menuOpen
    ensures e.ToggleClicked? ==> r == ToggleMenu(n)
    ensures e.NavLinkClicked? ==> r == NavLinkClick(n, e.width)
    ensures e.DocumentClicked? ==> r == DocumentClick(n, e.insideMenu, e.insideToggle)
    ensures e.DropdownClicked? && e.index < |n.dropdowns| ==> r == DropdownClick(n, e.index, e.width).0
    ensures e.DropdownClicked? && e.index >= |n.dropdowns| ==> r == n
  {
    match e
    case ToggleClicked => ToggleMenu(n)
    case NavLinkClicked(w) => NavLinkClick(n, w)
    case DropdownClicked(i, w) => if i < |n.dropdowns| then DropdownClick(n, i, w).0 else n
    case DocumentClicked(m, t) => DocumentClick(n, m, t)
    case Scrolled(y) => Scroll(n, y)
  }

  /** The events in order, each handled against the flags the previous one
      left. */
  function Run(n: Nav, events: seq<Event>): (r: Nav)
    ensures |r.dropdowns| == |n.dropdowns|
    ensures (forall k :: 0 <= k < |events| ==> !events[k].Scrolled?) ==> r.headerScrolled == n.headerScrolled
    decreases |events|
  {
    if events == [] then n else Run(Apply(n, events[0]), events[1..])
  }

  /** Events are handled in order: a run followed by one more event is that
      event applied to the state the run left. */
  lemma {:induction false} RunSnoc(n: Nav, events: seq<Event>, e: Event)
    ensures Run(n, events + [e]) == Apply(Run(n, events), e)
    decreases |events|
  {
    if events == [] {
      assert events + [e] == [e];
      assert [e][1..] == [];
    } else {
      assert (events + [e])[0] == events[0];
      assert (events + [e])[1..] == events[1..] + [e];
      RunSnoc(Apply(n, events[0]), events[1..], e);
    }
  }

  /** Every handler keeps the icon in step with the menu and at most one
      dropdown open. */
  lemma ApplyKeepsConsistent(n: Nav, e: Event)
    requires Consistent(n)
    ensures Consistent(Apply(n, e))
    ensures |Apply(n, e).dropdowns| == |n.dropdowns|
  {
    if e.DropdownClicked? && e.index < |n.dropdowns| {
      if e.width <= MobileBreakpoint {
        MobileDropdownClickExclusive(n, e.index, e.width);
      }
    }
  }

  /** After any sequence of events from a consistent state (the loaded page
      included) the icon matches the menu and at most one dropdown is open. */
  lemma {:induction false} RunKeepsConsistent(n: Nav, events: seq<Event>)
    requires Consistent(n)
    ensures Consistent(Run(n, events))
    ensures |Run(n, events).dropdowns| == |n.dropdowns|
    decreases |events|
  {
    if events != [] {
      ApplyKeepsConsistent(n, events[0]);
      RunKeepsConsistent(Apply(n, events[0]), events[1..]);
    }
  }

  /** On a wide viewport the menu links never close the menu and the
      dropdown triggers never change a dropdown. */
  lemma {:induction false} WideViewportLinksChangeNothing(n: Nav, events: seq<Event>)
    requires forall k :: 0 <= k < |events| ==>
      (events[k].NavLinkClicked? || events[k].DropdownClicked?) && events[k].width > MobileBreakpoint
    ensures Run(n, events) == n
    decreases |events|
  {
    if events != [] {
      assert Apply(n, events[0]) == n;
      WideViewportLinksChangeNothing(n, events[1..]);
    }
  }

  /** From the page as loaded, whatever the user does, the icon matches the
      menu and at most one of the page's dropdowns is open. */
  lemma LoadedPageStaysConsistent(dropdownCount: nat, scrolled: bool, events: seq<Event>)
    ensures Consistent(Run(Initial(dropdownCount, scrolled), events))
    ensures |Run(Initial(dropdownCount, scrolled), events).dropdowns| == dropdownCount
  {
    RunKeepsConsistent(Initial(dropdownCount, scrolled), events);
  }

  /** One physical click on the menu toggle, as the script handles it. The
      toggle's listener runs first and rewrites the toggle's contents. The
      click then bubbles to the document listener. When the click landed on
      the icon glyph, that element is no longer in the document, so neither
      the menu nor the toggle contains it and the menu is closed again. A
      click on the toggle's own box, outside the glyph, still counts as
      inside the toggle. */
  function ToggleClickAsWritten(n: Nav, onIcon: bool): (r: Nav)
    ensures onIcon ==> !r.menuOpen && r.icon == Bars
    ensures !onIcon ==> r.menuOpen == !n.menuOpen && r.icon == IconFor(r.menuOpen)
    ensures r.dropdowns == n.dropdowns && r.headerScrolled == n.headerScrolled
  {
    DocumentClick(ToggleMenu(n), false, !onIcon)
  }

  /** The same click as intended: the document listener treats any click
      on the toggle as inside it, so the click only flips the menu. */
  function ToggleClick(n: Nav): (r: Nav)
    ensures r.menuOpen == !n.menuOpen && r.icon == IconFor(r.menuOpen)
    ensures r.dropdowns == n.dropdowns && r.headerScrolled == n.headerScrolled
  {
    DocumentClick(ToggleMenu(n), false, true)
  }

  /** As written, a click on the toggle icon is the toggle handler followed
      by a document click from outside both elements, and it never leaves
      the menu open. On a closed menu the intended click opens it. */
  lemma ToggleIconClickNeverOpens(n: Nav)
    ensures ToggleClickAsWritten(n, true) == Run(n, [ToggleClicked, DocumentClicked(false, false)])
    ensures !ToggleClickAsWritten(n, true).menuOpen
    ensures !n.menuOpen ==> ToggleClick(n).menuOpen
  {
  }

  /** The intended click is the toggle event of the event model. */
  lemma ToggleClickIsToggleEvent(n: Nav)
    ensures ToggleClick(n) == Apply(n, ToggleClicked)
  {
  }
}
