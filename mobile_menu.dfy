/** The mobile navigation menu of `initMobileMenu`: a two-state (open/closed)
    machine over the menu's class and ARIA attributes, the burger button's
    attributes, the body's `overflow` style, and which element has focus.

    Elements are identified by abstract numbers. The transitions are first
    given as functions on a `View` of that state; the `Menu` class holds the
    state in fields, and its methods are proved to change it exactly as those
    functions say. */
module MobileMenu {
  import opened Wrappers

  const OpenLabel := "Close mobile menu"
  const ClosedLabel := "Open mobile menu"

  /** The elements the menu works with: the `.header__burger` button, the
      `.mobile-menu__link` elements in document order, and the elements inside
      the menu matched by `a, button, [tabindex]:not([tabindex="-1"])`, in
      document order. */
  datatype Layout = Layout(burger: nat, links: seq<nat>, focusables: seq<nat>)

  /** The state the menu code reads and writes: whether the menu has the class
      `mobile-menu_active`, its `aria-hidden` text, the burger's
      `aria-expanded` and `aria-label` texts, the body's `overflow` style, and
      the element that has focus. */
  datatype View = View(
    active: bool,
    ariaHidden: string,
    ariaExpanded: string,
    ariaLabel: string,
    overflow: string,
    focus: nat)

  /** The attributes `openMenu` sets. */
  predicate IsOpen(v: View) {
    v.active && v.ariaHidden == "false" && v.ariaExpanded == "true"
    && v.ariaLabel == OpenLabel && v.overflow == "hidden"
  }

  /** The attributes `closeMenu` sets. */
  predicate IsClosed(v: View) {
    !v.active && v.ariaHidden == "true" && v.ariaExpanded == "false"
    && v.ariaLabel == ClosedLabel && v.overflow == ""
  }

  /** The menu's attributes agree with its class. */
  predicate Consistent(v: View) {
    IsOpen(v) || IsClosed(v)
  }

  /** Two views that differ at most in which element has focus. */
  predicate SameAttributes(a: View, b: View) {
    a.(focus := 0) == b.(focus := 0)
  }

  /** `openMenu`: the open attributes, and focus on the first menu link if
      there is one. */
  function Open(v: View, l: Layout): (r: View)
    ensures IsOpen(r)
    ensures r.focus == (if |l.links| > 0 then l.links[0] else v.focus)
  {
    View(true, "false", "true", OpenLabel, "hidden",
         if |l.links| > 0 then l.links[0] else v.focus)
  }

  /** `closeMenu`: the closed attributes; focus does not move. */
  function Close(v: View): (r: View)
    ensures IsClosed(r)
    ensures r.focus == v.focus
  {
    View(false, "true", "false", ClosedLabel, "", v.focus)
  }

  /** What the close button, a menu link and Escape do: close the menu and
      give focus back to the burger. */
  function Dismiss(v: View, l: Layout): (r: View)
    ensures IsClosed(r) && r.focus == l.burger
  {
    Close(v).(focus := l.burger)
  }

  /** A click on the burger: closes an open menu (focus back on the burger)
      and opens a closed one. */
  function Burger(v: View, l: Layout): (r: View)
    ensures v.active ==> IsClosed(r) && r.focus == l.burger
    ensures !v.active ==> r == Open(v, l)
  {
    if v.active then Dismiss(v, l) else Open(v, l)
  }

  /** A keydown anywhere in the document: Escape dismisses the menu when it is
      open; any other key, or a closed menu, changes nothing. */
  function Escape(v: View, l: Layout, key: string): (r: View)
    ensures key == "Escape" && v.active ==> r == Dismiss(v, l)
    ensures key != "Escape" || !v.active ==> r == v
  {
    if key == "Escape" && v.active then Dismiss(v, l) else v
  }

  /** The first and the last focusable element, absent when there is none. */
  function First(f: seq<nat>): Option<nat>
  {
    if |f| > 0 then Some(f[0]) else None
  }

  function Last(f: seq<nat>): Option<nat>
  {
    if |f| > 0 then Some(f[|f| - 1]) else None
  }

  /** The focus trap's decision for a Tab keydown inside the open menu: the
      element focus is moved to (and the default action suppressed), if
      any. Shift+Tab on the first focusable element goes to the last, Tab on
      the last goes to the first. */
  function TrapTarget(f: seq<nat>, focus: nat, shift: bool): (r: Option<nat>)
    ensures r.Some? <==> |f| > 0 && ((shift && focus == f[0]) || (!shift && focus == f[|f| - 1]))
    ensures r.Some? ==> r.value in f
    ensures r.Some? && shift ==> r == Last(f)
    ensures r.Some? && !shift ==> r == First(f)
  {
    if shift && Some(focus) == First(f) then Last(f)
    else if !shift && Some(focus) == Last(f) then First(f)
    else None
  }

  /** A keydown inside the menu: with the menu open and the key Tab, the trap
      moves focus when `TrapTarget` names an element; nothing else changes. */
  function Trap(v: View, l: Layout, key: string, shift: bool): (r: View)
    ensures SameAttributes(r, v)
    ensures !v.active || key != "Tab" ==> r == v
  {
    if v.active && key == "Tab" then
      match TrapTarget(l.focusables, v.focus, shift)
      case Some(t) => v.(focus := t)
      case None => v
    else v
  }

  /** Whether the trap suppresses the key's default action. */
  predicate Prevented(v: View, l: Layout, key: string, shift: bool) {
    v.active && key == "Tab" && TrapTarget(l.focusables, v.focus, shift).Some?
  }

  /** Closing undoes opening and opening undoes closing, as far as the
      attributes go, whatever the state before. */
  lemma OpenCloseInverse(v: View, l: Layout)
    ensures Consistent(Open(v, l)) && Consistent(Close(v))
    ensures SameAttributes(Close(Open(v, l)), Close(v))
    ensures SameAttributes(Open(Close(v), l), Open(v, l))
    ensures Open(Close(v), l).focus == Open(v, l).focus
  {
  }

  /** Two burger clicks bring a menu whose attributes agree with its class
      back to the same attributes. From a closed menu the focus ends on the
      burger. */
  lemma BurgerTwice(v: View, l: Layout)
    requires Consistent(v)
    ensures SameAttributes(Burger(Burger(v, l), l), v)
    ensures !v.active ==> Burger(Burger(v, l), l).focus == l.burger
  {
    if v.active {
      assert IsOpen(v);
      var w := Burger(v, l);
      assert !w.active;
      assert Burger(w, l) == Open(w, l);
    } else {
      assert IsClosed(v);
      var w := Burger(v, l);
      assert w.active;
      assert Burger(w, l) == Dismiss(w, l);
    }
  }

  /** Every transition keeps the attributes consistent with the class, and
      every transition that closes or opens the menu establishes it. */
  lemma TransitionsKeepConsistent(v: View, l: Layout, key: string, shift: bool)
    ensures Consistent(Burger(v, l)) && Consistent(Dismiss(v, l))
    ensures Consistent(v) ==> Consistent(Escape(v, l, key)) && Consistent(Trap(v, l, key, shift))
  {
    if Consistent(v) {
      var t := Trap(v, l, key, shift);
      assert SameAttributes(t, v);
      assert t.(focus := 0) == v.(focus := 0);
      assert IsOpen(v) ==> IsOpen(t);
      assert IsClosed(v) ==> IsClosed(t);
    }
  }

  /** Escape on a closed menu, and any keydown the trap sees on a closed
      menu, change nothing. */
  lemma ClosedMenuIgnoresKeys(v: View, l: Layout, key: string, shift: bool)
    requires !v.active
    ensures Escape(v, l, key) == v
    ensures Trap(v, l, key, shift) == v && !Prevented(v, l, key, shift)
  {
  }

  /** The trap wraps: in an open menu, Shift+Tab on the first focusable
      element moves focus to the last, and Tab there moves it back to the
      first. */
  lemma TrapWraps(v: View, l: Layout)
    requires v.active && |l.focusables| > 0 && v.focus == l.focusables[0]
    ensures Prevented(v, l, "Tab", true)
    ensures Trap(v, l, "Tab", true).focus == l.focusables[|l.focusables| - 1]
    ensures Prevented(Trap(v, l, "Tab", true), l, "Tab", false)
    ensures Trap(Trap(v, l, "Tab", true), l, "Tab", false) == v
  {
    var f := l.focusables;
    var w := Trap(v, l, "Tab", true);
    assert TrapTarget(f, v.focus, true) == Some(f[|f| - 1]);
    assert w == v.(focus := f[|f| - 1]);
    assert TrapTarget(f, w.focus, false) == Some(f[0]);
  }

  /** The trap only ever moves focus to an element inside the menu, and only
      when it suppresses the default action. */
  lemma TrapStaysInside(v: View, l: Layout, key: string, shift: bool)
    ensures Prevented(v, l, key, shift) ==> Trap(v, l, key, shift).focus in l.focusables
    ensures !Prevented(v, l, key, shift) ==> Trap(v, l, key, shift) == v
  {
    if Prevented(v, l, key, shift) {
      var t := TrapTarget(l.focusables, v.focus, shift);
      assert t.Some? && t.value in l.focusables;
      assert Trap(v, l, key, shift) == v.(focus := t.value);
    }
  }

  /** The menu as `initMobileMenu` leaves it: the state lives in fields and
      each handler is a method. When the menu, the burger or the close button
      is missing no handler is installed, and every method changes nothing. */
  class Menu {
    /** Whether `initMobileMenu` got past its early return. */
    const enabled: bool
    const layout: Layout
    var active: bool
    var ariaHidden: string
    var ariaExpanded: string
    var ariaLabel: string
    var overflow: string
    var focus: nat

    function Current(): View
      reads this
    {
      View(active, ariaHidden, ariaExpanded, ariaLabel, overflow, focus)
    }

    /** `initMobileMenu` on a page whose menu elements are present exactly
        when `present` holds, starting from the markup's state `initial`:
        the menu is marked `aria-hidden="true"`. */
    constructor(present: bool, layout: Layout, initial: View)
      ensures enabled == present && this.layout == layout
      ensures Current() == (if present then initial.(ariaHidden := "true") else initial)
    {
      enabled := present;
      this.layout := layout;
      active := initial.active;
      ariaHidden := initial.ariaHidden;
      ariaExpanded := initial.ariaExpanded;
      ariaLabel := initial.ariaLabel;
      overflow := initial.overflow;
      focus := initial.focus;
      new;
      if present {
        ariaHidden := "true";
      }
    }

    method OpenMenu()
      modifies this
      ensures Current() == Open(old(Current()), layout)
    {
      active := true;
      ariaHidden := "false";
      ariaExpanded := "true";
      ariaLabel := OpenLabel;
      overflow := "hidden";
      if |layout.links| > 0 {
        focus := layout.links[0];
      }
    }

    method CloseMenu()
      modifies this
      ensures Current() == Close(old(Current()))
    {
      active := false;
      ariaHidden := "true";
      ariaExpanded := "false";
      ariaLabel := ClosedLabel;
      overflow := "";
    }

    /** Closing, then focusing the burger. */
    method DismissMenu()
      modifies this
      ensures Current() == Dismiss(old(Current()), layout)
    {
      CloseMenu();
      focus := layout.burger;
    }

    /** The burger's click listener. */
    method BurgerClick()
      modifies this
      ensures Current() == (if enabled then Burger(old(Current()), layout) else old(Current()))
    {
      if !enabled {
        return;
      }
      if active {
        DismissMenu();
      } else {
        OpenMenu();
      }
    }

    /** The close button's click listener. */
    method CloseButtonClick()
      modifies this
      ensures Current() == (if enabled then Dismiss(old(Current()), layout) else old(Current()))
    {
      if enabled {
        DismissMenu();
      }
    }

    /** The click listener of the menu link at position `i`. */
    method LinkClick(i: nat)
      requires i < |layout.links|
      modifies this
      ensures Current() == (if enabled then Dismiss(old(Current()), layout) else old(Current()))
    {
      if enabled {
        DismissMenu();
      }
    }

    /** The document's keydown listener. */
    method DocumentKeyDown(key: string)
      modifies this
      ensures Current() == (if enabled then Escape(old(Current()), layout, key) else old(Current()))
    {
      if enabled && key == "Escape" && active {
        DismissMenu();
      }
    }

    /** The menu's keydown listener (the focus trap); `prevented` tells
        whether `preventDefault` was called. */
    method MenuKeyDown(key: string, shift: bool) returns (prevented: bool)
      modifies this
      ensures prevented == (enabled && Prevented(old(Current()), layout, key, shift))
      ensures Current() == (if enabled then Trap(old(Current()), layout, key, shift) else old(Current()))
    {
      prevented := false;
      if !enabled || !active {
        return;
      }
      if key == "Tab" {
        var first, last := First(layout.focusables), Last(layout.focusables);
        if shift && Some(focus) == first {
          prevented := true;
          focus := last.value;
        } else if !shift && Some(focus) == last {
          prevented := true;
          focus := first.value;
        }
      }
    }
  }
}
