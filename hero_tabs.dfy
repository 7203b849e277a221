/** The hero tab carousel of `initHeroTabs` (src/js/main.js): content
    panels, tab buttons and videos as arrays of records, the current tab
    index, and the auto-switch interval. The DOM's classes and attributes
    become record fields; timers become handles and explicit tick steps. */
module HeroTabs {
  import opened Wrappers
  import opened Decimal
  import CharSpans

  /** `AUTO_SWITCH_INTERVAL`, in milliseconds. */
  const AutoSwitchInterval: nat := 9000

  /** A `.hero__tab-content` element: its `data-tab` text, whether it has the
      class `hero__tab-content_active`, its `aria-hidden` text, and whether
      it has the classes `hero__flowers`, `animate__animated` and
      `animate__fadeInRight`. (The text elements inside it are held by the
      `Controller`.) */
  datatype Panel = Panel(
    dataTab: string,
    active: bool,
    ariaHidden: string,
    flowers: bool,
    animated: bool,
    fadeInRight: bool)

  /** A `.hero__tab-button`: its `data-tab-index` text, whether it has the
      class `hero__tab-button_active`, and its `aria-selected` text. */
  datatype Button = Button(dataTabIndex: string, active: bool, ariaSelected: string)

  /** A `.hero__video`: its `data-tab` text, its `paused` state and its
      `currentTime` in seconds. */
  datatype Video = Video(dataTab: string, paused: bool, currentTime: real)

  // ---------------------------------------------------------------------
  // Index arithmetic

  /** The auto-advance step `(currentTabIndex + 1) % tabButtons.length`. */
  function NextIndex(c: nat, n: nat): (r: nat)
    requires n > 0
    ensures r < n
  {
    (c + 1) % n
  }

  /** From the last tab the auto-advance wraps to the first; from any other
      tab it moves one to the right. */
  lemma NextIndexSteps(c: nat, n: nat)
    requires c < n
    ensures NextIndex(c, n) == if c == n - 1 then 0 else c + 1
  {
  }

  /** The tab a key pressed on a button with index `c` targets, among `n`
      buttons; `None` for a key the carousel does not handle. */
  function KeyTarget(key: string, c: nat, n: nat): (r: Option<nat>)
    requires n > 0
    ensures r.Some? <==> key in {"ArrowLeft", "ArrowRight", "Home", "End"}
    ensures c < n && r.Some? ==> r.value < n
  {
    if key == "ArrowLeft" then Some(if c > 0 then c - 1 else n - 1)
    else if key == "ArrowRight" then Some(if c < n - 1 then c + 1 else 0)
    else if key == "Home" then Some(0)
    else if key == "End" then Some(n - 1)
    else None
  }

  /** ArrowRight from the last tab wraps to the first, ArrowLeft from the
      first wraps to the last, Home always targets 0 and End the last. */
  lemma KeyTargetEnds(c: nat, n: nat)
    requires n > 0
    ensures KeyTarget("ArrowRight", n - 1, n) == Some(0)
    ensures KeyTarget("ArrowLeft", 0, n) == Some(n - 1)
    ensures KeyTarget("Home", c, n) == Some(0)
    ensures KeyTarget("End", c, n) == Some(n - 1)
  {
  }

  /** On an in-range index ArrowRight is the auto-advance step, and
      ArrowLeft undoes it. */
  lemma ArrowsAreInverse(c: nat, n: nat)
    requires c < n
    ensures KeyTarget("ArrowRight", c, n) == Some(NextIndex(c, n))
    ensures KeyTarget("ArrowLeft", KeyTarget("ArrowRight", c, n).value, n) == Some(c)
    ensures KeyTarget("ArrowRight", KeyTarget("ArrowLeft", c, n).value, n) == Some(c)
  {
    var r := if c < n - 1 then c + 1 else 0;
    var l := if c > 0 then c - 1 else n - 1;
    assert KeyTarget("ArrowRight", c, n) == Some(r);
    assert KeyTarget("ArrowLeft", c, n) == Some(l);
    if c < n - 1 {
      assert NextIndex(c, n) == c + 1;
    } else {
      assert NextIndex(c, n) == 0;
    }
    assert KeyTarget("ArrowLeft", r, n) == Some(if r > 0 then r - 1 else n - 1);
    assert KeyTarget("ArrowRight", l, n) == Some(if l < n - 1 then l + 1 else 0);
  }

  /** Every button's `data-tab-index` is a digit string. */
  predicate AllDigits(bs: seq<Button>) {
    forall k :: 0 <= k < |bs| ==> IsDigits(bs[k].dataTabIndex)
  }

  /** `parseInt(button.getAttribute('data-tab-index'), 10)`. */
  function ButtonIndex(b: Button): nat
    requires IsDigits(b.dataTabIndex)
  {
    DigitsValue(b.dataTabIndex)
  }

  /** `Array.from(tabButtons).find((btn) => parseInt(...) === t)`: the
      position of the first button whose parsed index is `t`. */
  function FindButton(bs: seq<Button>, t: nat): (r: Option<nat>)
    requires AllDigits(bs)
    ensures r.Some? ==> r.value < |bs| && ButtonIndex(bs[r.value]) == t
    ensures r.Some? ==> forall j :: 0 <= j < r.value ==> ButtonIndex(bs[j]) != t
    ensures r.None? ==> forall j :: 0 <= j < |bs| ==> ButtonIndex(bs[j]) != t
  {
    if |bs| == 0 then None
    else if ButtonIndex(bs[0]) == t then Some(0)
    else match FindButton(bs[1..], t)
      case None => None
      case Some(k) => Some(k + 1)
  }

  // ---------------------------------------------------------------------
  // What showTab does to each element

  /** Positions below `n` where `mask` holds (see `WhereExactly`). */
  function WhereBelow(mask: seq<bool>, n: nat): seq<nat>
    requires n <= |mask|
  {
    if n == 0 then [] else WhereBelow(mask, n - 1) + if mask[n - 1] then [n - 1] else []
  }

  /** Positions where `mask` holds. */
  function Where(mask: seq<bool>): seq<nat> {
    WhereBelow(mask, |mask|)
  }

  lemma {:induction false} WhereBelowExactly(mask: seq<bool>, n: nat)
    requires n <= |mask|
    ensures forall k :: 0 <= k < |WhereBelow(mask, n)| ==> WhereBelow(mask, n)[k] < n && mask[WhereBelow(mask, n)[k]]
    ensures forall i, j :: 0 <= i < j < |WhereBelow(mask, n)| ==> WhereBelow(mask, n)[i] < WhereBelow(mask, n)[j]
    ensures forall p :: 0 <= p < n && mask[p] ==> p in WhereBelow(mask, n)
  {
    if n > 0 {
      WhereBelowExactly(mask, n - 1);
    }
  }

  /** `Where(mask)` lists exactly the positions where `mask` holds, each
      once, in increasing order. */
  lemma WhereExactly(mask: seq<bool>)
    ensures forall k :: 0 <= k < |Where(mask)| ==> Where(mask)[k] < |mask| && mask[Where(mask)[k]]
    ensures forall i, j :: 0 <= i < j < |Where(mask)| ==> Where(mask)[i] < Where(mask)[j]
    ensures forall p :: 0 <= p < |mask| && mask[p] ==> p in Where(mask)
  {
    WhereBelowExactly(mask, |mask|);
  }

  /** Which panels carry `data-tab` equal to `s`. */
  function PanelTagged(ps: seq<Panel>, s: string): (m: seq<bool>)
    ensures |m| == |ps|
  {
    seq(|ps|, k requires 0 <= k < |ps| => ps[k].dataTab == s)
  }

  /** Which panels get their entrance animation restarted: tagged `s` and
      carrying both `hero__flowers` and `animate__animated`. */
  function PanelRestarts(ps: seq<Panel>, s: string): (m: seq<bool>)
    ensures |m| == |ps|
  {
    seq(|ps|, k requires 0 <= k < |ps| => ps[k].dataTab == s && ps[k].flowers && ps[k].animated)
  }

  /** Which videos carry `data-tab` equal to `s`. */
  function VideoTagged(vs: seq<Video>, s: string): (m: seq<bool>)
    ensures |m| == |vs|
  {
    seq(|vs|, k requires 0 <= k < |vs| => vs[k].dataTab == s)
  }

  /** One panel after `showTab` with `tabIndexStr == s`. Removing and
      re-adding `animate__fadeInRight` leaves it present. */
  function ShowPanel(p: Panel, s: string): Panel {
    if p.dataTab == s then
      p.(active := true, ariaHidden := "false",
         fadeInRight := p.fadeInRight || (p.flowers && p.animated))
    else
      p.(active := false, ariaHidden := "true")
  }

  function ShowPanels(ps: seq<Panel>, s: string): (r: seq<Panel>)
    ensures |r| == |ps|
  {
    seq(|ps|, k requires 0 <= k < |ps| => ShowPanel(ps[k], s))
  }

  function ShowButton(b: Button, s: string): Button {
    if b.dataTabIndex == s then b.(active := true, ariaSelected := "true")
    else b.(active := false, ariaSelected := "false")
  }

  function ShowButtons(bs: seq<Button>, s: string): (r: seq<Button>)
    ensures |r| == |bs|
  {
    seq(|bs|, k requires 0 <= k < |bs| => ShowButton(bs[k], s))
  }

  /** One video after `showTab`: a tagged video is asked to play, which
      unpauses it when autoplay is allowed and otherwise is rejected and
      leaves it as it was; any other video is paused and rewound. */
  function ShowVideo(v: Video, s: string, autoplayAllowed: bool): Video {
    if v.dataTab == s then (if autoplayAllowed then v.(paused := false) else v)
    else v.(paused := true, currentTime := 0.0)
  }

  function ShowVideos(vs: seq<Video>, s: string, autoplayAllowed: bool): (r: seq<Video>)
    ensures |r| == |vs|
  {
    seq(|vs|, k requires 0 <= k < |vs| => ShowVideo(vs[k], s, autoplayAllowed))
  }

  /** The panels reflect tab text `s`: active, with `aria-hidden="false"`,
      exactly when tagged `s`; otherwise inactive with `aria-hidden="true"`. */
  predicate PanelsShow(ps: seq<Panel>, s: string) {
    forall k :: 0 <= k < |ps| ==>
      (ps[k].active <==> ps[k].dataTab == s)
      && ps[k].ariaHidden == (if ps[k].dataTab == s then "false" else "true")
  }

  /** The buttons reflect tab text `s`. */
  predicate ButtonsShow(bs: seq<Button>, s: string) {
    forall k :: 0 <= k < |bs| ==>
      (bs[k].active <==> bs[k].dataTabIndex == s)
      && bs[k].ariaSelected == (if bs[k].dataTabIndex == s then "true" else "false")
  }

  /** The videos reflect tab text `s`: every other video is paused at time 0,
      and with autoplay allowed every tagged one is playing. */
  predicate VideosShow(vs: seq<Video>, s: string, autoplayAllowed: bool) {
    forall k :: 0 <= k < |vs| ==>
      (vs[k].dataTab != s ==> vs[k].paused && vs[k].currentTime == 0.0)
      && (vs[k].dataTab == s && autoplayAllowed ==> !vs[k].paused)
  }

  /** After `showTab` the panels reflect the new tab; only the active, ARIA
      and `animate__fadeInRight` fields changed, so tags and the other
      classes are kept. */
  lemma PanelsAfterShow(ps: seq<Panel>, s: string)
    ensures PanelsShow(ShowPanels(ps, s), s)
    ensures forall k :: 0 <= k < |ps| ==>
      var q := ShowPanels(ps, s)[k];
      && q.dataTab == ps[k].dataTab && q.flowers == ps[k].flowers && q.animated == ps[k].animated
      && (q.fadeInRight <==> ps[k].fadeInRight || (ps[k].dataTab == s && ps[k].flowers && ps[k].animated))
  {
  }

  /** After `showTab` the buttons reflect the new tab and keep their
      `data-tab-index`. */
  lemma ButtonsAfterShow(bs: seq<Button>, s: string)
    ensures ButtonsShow(ShowButtons(bs, s), s)
    ensures forall k :: 0 <= k < |bs| ==> ShowButtons(bs, s)[k].dataTabIndex == bs[k].dataTabIndex
    ensures AllDigits(bs) ==> AllDigits(ShowButtons(bs, s))
  {
  }

  /** After `showTab` the videos reflect the new tab; every video keeps its
      tag, and a tagged video is only unpaused by a successful play, so a
      rejected play leaves it exactly as it was. */
  lemma VideosAfterShow(vs: seq<Video>, s: string, autoplayAllowed: bool)
    ensures VideosShow(ShowVideos(vs, s, autoplayAllowed), s, autoplayAllowed)
    ensures forall k :: 0 <= k < |vs| ==>
      var w := ShowVideos(vs, s, autoplayAllowed)[k];
      w.dataTab == vs[k].dataTab && (vs[k].dataTab == s ==> w.currentTime == vs[k].currentTime)
    ensures forall k :: 0 <= k < |vs| && vs[k].dataTab == s ==>
      ShowVideos(vs, s, autoplayAllowed)[k] == (if autoplayAllowed then vs[k].(paused := false) else vs[k])
  {
  }

  /** Showing the same tab twice leaves panels, buttons and videos as the
      first call left them. */
  lemma ShowIdempotent(ps: seq<Panel>, bs: seq<Button>, vs: seq<Video>, s: string, autoplayAllowed: bool)
    ensures ShowPanels(ShowPanels(ps, s), s) == ShowPanels(ps, s)
    ensures ShowButtons(ShowButtons(bs, s), s) == ShowButtons(bs, s)
    ensures ShowVideos(ShowVideos(vs, s, autoplayAllowed), s, autoplayAllowed) == ShowVideos(vs, s, autoplayAllowed)
  {
    var p1 := ShowPanels(ps, s);
    forall k | 0 <= k < |ps| ensures ShowPanels(p1, s)[k] == p1[k] { }
    var b1 := ShowButtons(bs, s);
    forall k | 0 <= k < |bs| ensures ShowButtons(b1, s)[k] == b1[k] { }
    var v1 := ShowVideos(vs, s, autoplayAllowed);
    forall k | 0 <= k < |vs| ensures ShowVideos(v1, s, autoplayAllowed)[k] == v1[k] { }
  }

  /** Exactly one panel is tagged with tab `i`. */
  ghost predicate UniquePanel(ps: seq<Panel>, i: nat) {
    exists k :: (0 <= k < |ps| && ps[k].dataTab == NatToString(i)
                 && forall j :: 0 <= j < |ps| && j != k ==> ps[j].dataTab != NatToString(i))
  }

  /** Exactly one button is tagged with tab `i`. */
  ghost predicate UniqueButton(bs: seq<Button>, i: nat) {
    exists k :: (0 <= k < |bs| && bs[k].dataTabIndex == NatToString(i)
                 && forall j :: 0 <= j < |bs| && j != k ==> bs[j].dataTabIndex != NatToString(i))
  }

  /** With exactly one panel and one button tagged `i`, after showing tab
      `i` exactly one panel and exactly one button is active, and they carry
      the same index. */
  lemma ExactlyOneActive(ps: seq<Panel>, bs: seq<Button>, i: nat)
    requires PanelsShow(ps, NatToString(i)) && ButtonsShow(bs, NatToString(i))
    requires UniquePanel(ps, i) && UniqueButton(bs, i)
    ensures exists k :: (0 <= k < |ps| && ps[k].active
                         && forall j :: 0 <= j < |ps| && j != k ==> !ps[j].active)
    ensures exists k :: (0 <= k < |bs| && bs[k].active
                         && forall j :: 0 <= j < |bs| && j != k ==> !bs[j].active)
    ensures forall k, j :: 0 <= k < |ps| && 0 <= j < |bs| && ps[k].active && bs[j].active ==>
      ps[k].dataTab == bs[j].dataTabIndex
  {
    var kp :| 0 <= kp < |ps| && ps[kp].dataTab == NatToString(i)
      && forall j :: 0 <= j < |ps| && j != kp ==> ps[j].dataTab != NatToString(i);
    assert ps[kp].active;
    var kb :| 0 <= kb < |bs| && bs[kb].dataTabIndex == NatToString(i)
      && forall j :: 0 <= j < |bs| && j != kb ==> bs[j].dataTabIndex != NatToString(i);
    assert bs[kb].active;
  }

  /** An active button's parsed index is the tab that was shown: clicking
      the active button re-shows the current tab. */
  lemma ActiveButtonParses(bs: seq<Button>, i: nat)
    requires AllDigits(bs) && ButtonsShow(bs, NatToString(i))
    ensures forall k :: 0 <= k < |bs| && bs[k].active ==> ButtonIndex(bs[k]) == i
  {
    ParseOfString(i);
  }

  /** Only elements tagged `String(i)` become active: a panel tagged with a
      different index stays hidden. */
  lemma OtherTabsHidden(ps: seq<Panel>, i: nat, j: nat)
    requires PanelsShow(ps, NatToString(i)) && i != j
    ensures forall k :: 0 <= k < |ps| && ps[k].dataTab == NatToString(j) ==>
      !ps[k].active && ps[k].ariaHidden == "true"
  {
    StringInjective(i, j);
  }

  // ---------------------------------------------------------------------
  // The carousel state, updated in place

  /** The closure state of `initHeroTabs`: the three element lists it
      queried, `currentTabIndex`, `autoSwitchInterval`, and records of the
      effects the model does not carry out (animation restarts, delayed text
      animations, play requests, logged autoplay failures). */
  class Controller {
    const panels: array<Panel>
    const buttons: array<Button>
    const videos: array<Video>
    /** Whether the browser lets `video.play()` succeed. */
    const autoplayAllowed: bool
    /** Whether `initHeroTabs` got past its early return. */
    const enabled: bool
    /** The `.hero__title i` elements of each panel, by panel position. */
    const titles: seq<seq<CharSpans.TextElement>>
    /** The `.hero__description` elements of each panel, by panel position. */
    const descriptions: seq<seq<CharSpans.TextElement>>

    /** `currentTabIndex`. */
    var current: nat
    /** `autoSwitchInterval`: the handle of the live interval, if any. */
    var autoSwitch: Option<nat>
    /** The intervals the carousel has set and not cleared: handle to period. */
    var intervals: map<nat, nat>
    /** The handle the next `setInterval` returns (browsers hand out
        positive handles, so a live handle is truthy). */
    var nextHandle: nat
    /** The button that keyboard navigation last focused, as a position. */
    var focused: Option<nat>
    /** Panels whose `animate__fadeInRight` animation was restarted, in order. */
    var flowerRestarts: seq<nat>
    /** Panels whose 50 ms delayed text animation is scheduled, oldest first. */
    var pendingText: seq<nat>
    /** Videos that were asked to play, in order. */
    var playRequests: seq<nat>
    /** Rejected `play()` calls, each logged through `console.warn`. */
    var warnings: nat

    /** Facts every state satisfies, also in the middle of initialisation. */
    ghost predicate Wellformed()
      reads this, panels, buttons
    {
      && nextHandle > 0
      && AllDigits(buttons[..])
      && |titles| == |descriptions| == panels.Length
      && (forall k :: 0 <= k < panels.Length ==> CharSpans.Distinct(titles[k] + descriptions[k]))
      && (forall k :: 0 <= k < |pendingText| ==> pendingText[k] < panels.Length)
      && (focused.Some? ==> focused.value < buttons.Length)
      && (autoSwitch.None? ==> intervals == map[])
      && (autoSwitch.Some? ==>
            0 < autoSwitch.value < nextHandle && intervals == map[autoSwitch.value := AutoSwitchInterval])
    }

    /** The page reflects `currentTabIndex`. */
    ghost predicate Synced()
      reads this, panels, buttons, videos
    {
      var s := NatToString(current);
      PanelsShow(panels[..], s) && ButtonsShow(buttons[..], s) && VideosShow(videos[..], s, autoplayAllowed)
    }

    /** The carousel invariant: a disabled carousel has done nothing; an
        enabled one has a nonempty page that reflects the current tab, and
        exactly one live auto-switch interval, of period 9000. */
    ghost predicate Valid()
      reads this, panels, buttons, videos
    {
      && Wellformed()
      && (!enabled ==>
            autoSwitch.None? && focused.None? && pendingText == [] && flowerRestarts == []
            && playRequests == [] && warnings == 0)
      && (enabled ==> buttons.Length > 0 && panels.Length > 0 && autoSwitch.Some? && Synced())
    }

    /** The effect of `showTab(i)`. */
    twostate predicate ShownTab(i: nat)
      reads this, panels, buttons, videos
    {
      var s := NatToString(i);
      && current == i
      && panels[..] == ShowPanels(old(panels[..]), s)
      && buttons[..] == ShowButtons(old(buttons[..]), s)
      && videos[..] == ShowVideos(old(videos[..]), s, autoplayAllowed)
      && pendingText == old(pendingText) + Where(PanelTagged(old(panels[..]), s))
      && flowerRestarts == old(flowerRestarts) + Where(PanelRestarts(old(panels[..]), s))
      && playRequests == old(playRequests) + Where(VideoTagged(old(videos[..]), s))
      && warnings == old(warnings) + (if autoplayAllowed then 0 else |Where(VideoTagged(old(videos[..]), s))|)
    }

    /** `initHeroTabs()`: returns early when there are no buttons or no
        panels; otherwise shows tab 0 and starts the auto-switch interval. */
    constructor(panels: array<Panel>, buttons: array<Button>, videos: array<Video>,
                titles: seq<seq<CharSpans.TextElement>>, descriptions: seq<seq<CharSpans.TextElement>>,
                autoplayAllowed: bool)
      requires AllDigits(buttons[..])
      requires |titles| == |descriptions| == panels.Length
      requires forall k :: 0 <= k < panels.Length ==> CharSpans.Distinct(titles[k] + descriptions[k])
      modifies panels, buttons, videos
      ensures Valid()
      ensures this.panels == panels && this.buttons == buttons && this.videos == videos
      ensures this.titles == titles && this.descriptions == descriptions
      ensures this.autoplayAllowed == autoplayAllowed
      ensures enabled <==> buttons.Length > 0 && panels.Length > 0
      ensures focused == None
      ensures !enabled ==> unchanged(panels, buttons, videos)
      ensures enabled ==>
        var s := NatToString(0);
        && current == 0
        && panels[..] == ShowPanels(old(panels[..]), s)
        && buttons[..] == ShowButtons(old(buttons[..]), s)
        && videos[..] == ShowVideos(old(videos[..]), s, autoplayAllowed)
        && pendingText == Where(PanelTagged(old(panels[..]), s))
        && flowerRestarts == Where(PanelRestarts(old(panels[..]), s))
        && playRequests == Where(VideoTagged(old(videos[..]), s))
        && warnings == (if autoplayAllowed then 0 else |Where(VideoTagged(old(videos[..]), s))|)
        && autoSwitch == Some(1) && intervals == map[1 := AutoSwitchInterval] && nextHandle == 2
    {
      this.panels := panels;
      this.buttons := buttons;
      this.videos := videos;
      this.titles := titles;
      this.descriptions := descriptions;
      this.autoplayAllowed := autoplayAllowed;
      enabled := buttons.Length > 0 && panels.Length > 0;
      current := 0;
      autoSwitch := None;
      intervals := map[];
      nextHandle := 1;
      focused := None;
      flowerRestarts := [];
      pendingText := [];
      playRequests := [];
      warnings := 0;
      new;
      if enabled {
        ShowTab(0);
        StartAutoSwitch();
      }
    }

    /** `showTab(tabIndex)`. */
    method ShowTab(i: nat)
      requires Wellformed()
      modifies this`current, this`pendingText, this`flowerRestarts, this`playRequests, this`warnings
      modifies panels, buttons, videos
      ensures Wellformed() && Synced()
      ensures ShownTab(i)
    {
      ghost var ps, bs, vs := panels[..], buttons[..], videos[..];
      current := i;
      var s := NatToString(i);
      ShowPanelsStep(s);
      ShowButtonsStep(s);
      ShowVideosStep(s);
      PanelsAfterShow(ps, s);
      ButtonsAfterShow(bs, s);
      VideosAfterShow(vs, s, autoplayAllowed);
      WhereExactly(PanelTagged(ps, s));
    }

    /** The loop of `showTab` over the content panels. */
    method ShowPanelsStep(s: string)
      modifies panels, this`pendingText, this`flowerRestarts
      ensures panels[..] == ShowPanels(old(panels[..]), s)
      ensures pendingText == old(pendingText) + Where(PanelTagged(old(panels[..]), s))
      ensures flowerRestarts == old(flowerRestarts) + Where(PanelRestarts(old(panels[..]), s))
    {
      ghost var ps := panels[..];
      ghost var tagged := PanelTagged(ps, s);
      ghost var restarts := PanelRestarts(ps, s);
      var scheduled: seq<nat>, restarted: seq<nat> := [], [];
      var k := 0;
      while k < panels.Length
        modifies panels
        invariant 0 <= k <= panels.Length
        invariant forall j :: 0 <= j < k ==> panels[j] == ShowPanel(ps[j], s)
        invariant forall j :: k <= j < panels.Length ==> panels[j] == ps[j]
        invariant scheduled == WhereBelow(tagged, k)
        invariant restarted == WhereBelow(restarts, k)
      {
        var shown, restartedHere := ShowPanelAt(k, s);
        if restartedHere {
          restarted := restarted + [k];
        }
        if shown {
          scheduled := scheduled + [k];
        }
        k := k + 1;
      }
      assert scheduled == Where(PanelTagged(ps, s)) && restarted == Where(PanelRestarts(ps, s));
      pendingText, flowerRestarts := pendingText + scheduled, flowerRestarts + restarted;
    }

    /** One step of the loop of `showTab` over the content panels: updates
        panel `k` and reports whether it matched and whether its animation
        was restarted. */
    method ShowPanelAt(k: nat, s: string) returns (shown: bool, restarted: bool)
      requires k < panels.Length
      modifies panels
      ensures panels[k] == ShowPanel(old(panels[k]), s)
      ensures forall j :: 0 <= j < panels.Length && j != k ==> panels[j] == old(panels[j])
      ensures shown == (old(panels[k]).dataTab == s)
      ensures restarted == (shown && old(panels[k]).flowers && old(panels[k]).animated)
    {
      var content := panels[k];
      shown, restarted := false, false;
      if content.dataTab == s {
        shown := true;
        var active := content.(active := true, ariaHidden := "false");
        if content.flowers && content.animated {
          // remove `animate__fadeInRight`, force a reflow, add it again
          active := active.(fadeInRight := true);
          restarted := true;
        }
        panels[k] := active;
      } else {
        panels[k] := content.(active := false, ariaHidden := "true");
      }
    }

    /** The loop of `showTab` over the tab buttons. */
    method ShowButtonsStep(s: string)
      modifies buttons
      ensures buttons[..] == ShowButtons(old(buttons[..]), s)
    {
      ghost var bs := buttons[..];
      var k := 0;
      while k < buttons.Length
        invariant 0 <= k <= buttons.Length
        invariant forall j :: 0 <= j < k ==> buttons[j] == ShowButton(bs[j], s)
        invariant forall j :: k <= j < buttons.Length ==> buttons[j] == bs[j]
      {
        var button := buttons[k];
        if button.dataTabIndex == s {
          buttons[k] := button.(active := true, ariaSelected := "true");
        } else {
          buttons[k] := button.(active := false, ariaSelected := "false");
        }
        k := k + 1;
      }
    }

    /** The loop of `showTab` over the videos. */
    method ShowVideosStep(s: string)
      modifies videos, this`playRequests, this`warnings
      ensures videos[..] == ShowVideos(old(videos[..]), s, autoplayAllowed)
      ensures playRequests == old(playRequests) + Where(VideoTagged(old(videos[..]), s))
      ensures warnings == old(warnings) + (if autoplayAllowed then 0 else |Where(VideoTagged(old(videos[..]), s))|)
    {
      ghost var vs := videos[..];
      ghost var tagged := VideoTagged(vs, s);
      var requested: seq<nat>, failures: nat := [], 0;
      var k := 0;
      while k < videos.Length
        modifies videos
        invariant 0 <= k <= videos.Length
        invariant forall j :: 0 <= j < k ==> videos[j] == ShowVideo(vs[j], s, autoplayAllowed)
        invariant forall j :: k <= j < videos.Length ==> videos[j] == vs[j]
        invariant requested == WhereBelow(tagged, k)
        invariant failures == if autoplayAllowed then 0 else |requested|
      {
        var video := videos[k];
        assert video == vs[k] && tagged[k] == (video.dataTab == s);
        if video.dataTab == s {
          requested := requested + [k];
          if autoplayAllowed {
            videos[k] := video.(paused := false);
          } else {
            // the rejected promise is caught and logged
            failures := failures + 1;
          }
        } else {
          videos[k] := video.(paused := true, currentTime := 0.0);
        }
        k := k + 1;
      }
      assert requested == Where(VideoTagged(vs, s));
      playRequests, warnings := playRequests + requested, warnings + failures;
    }

    /** `startAutoSwitch()`: clears the live interval, if any, then sets a
        new one. */
    method StartAutoSwitch()
      requires Wellformed()
      modifies this`autoSwitch, this`intervals, this`nextHandle
      ensures Wellformed()
      ensures nextHandle == old(nextHandle) + 1 && autoSwitch == Some(old(nextHandle))
      ensures intervals ==
        (if old(autoSwitch).Some? then old(intervals) - {old(autoSwitch).value} else old(intervals))
          [old(nextHandle) := AutoSwitchInterval]
      ensures intervals == map[old(nextHandle) := AutoSwitchInterval]
    {
      if autoSwitch.Some? {
        intervals := intervals - {autoSwitch.value};
      }
      var h := nextHandle;
      nextHandle := nextHandle + 1;
      intervals := intervals[h := AutoSwitchInterval];
      autoSwitch := Some(h);
    }

    /** The interval with handle `h` fires: a live one advances to
        `(currentTabIndex + 1) % tabButtons.length`; a cleared one does not
        fire at all. */
    method Tick(h: nat)
      requires Valid()
      modifies this`current, this`pendingText, this`flowerRestarts, this`playRequests, this`warnings
      modifies panels, buttons, videos
      ensures Valid()
      ensures h in old(intervals) ==> enabled && ShownTab(NextIndex(old(current), buttons.Length))
      ensures h in old(intervals) ==> current < buttons.Length
      ensures h !in old(intervals) ==> unchanged(this) && unchanged(panels, buttons, videos)
    {
      if h in intervals {
        var nextIndex := (current + 1) % buttons.Length;
        ShowTab(nextIndex);
      }
    }

    /** A click on button `b`: shows the tab its `data-tab-index` names and
        restarts the auto-switch interval. */
    method Click(b: nat)
      requires Valid() && b < buttons.Length
      modifies this, panels, buttons, videos
      ensures Valid()
      ensures !enabled ==> unchanged(this) && unchanged(panels, buttons, videos)
      ensures enabled ==>
        && ShownTab(ButtonIndex(old(buttons[b])))
        && focused == old(focused)
        && nextHandle == old(nextHandle) + 1 && autoSwitch == Some(old(nextHandle))
        && intervals == map[old(nextHandle) := AutoSwitchInterval]
        && old(autoSwitch.value) !in intervals
    {
      if !enabled {
        return;
      }
      var tabIndex := ButtonIndex(buttons[b]);
      ShowTab(tabIndex);
      StartAutoSwitch();
    }

    /** A keydown on button `b`: an arrow, Home or End key is handled
        (its default suppressed), and when a button with the target index
        exists it is focused and its tab shown. The interval is not
        restarted; any other key does nothing. */
    method KeyDown(b: nat, key: string) returns (prevented: bool)
      requires Valid() && b < buttons.Length
      modifies this`current, this`pendingText, this`flowerRestarts, this`playRequests, this`warnings
      modifies this`focused, panels, buttons, videos
      ensures Valid()
      ensures !enabled ==> !prevented && unchanged(this) && unchanged(panels, buttons, videos)
      ensures enabled ==>
        var t := KeyTarget(key, ButtonIndex(old(buttons[b])), buttons.Length);
        var found := if t.Some? then FindButton(old(buttons[..]), t.value) else None;
        && prevented == t.Some?
        && (found.Some? ==> focused == found && ShownTab(t.value))
        && (found.None? ==> unchanged(this) && unchanged(panels, buttons, videos))
    {
      if !enabled {
        return false;
      }
      var currentIndex := ButtonIndex(buttons[b]);
      var target := KeyTarget(key, currentIndex, buttons.Length);
      prevented := target.Some?;
      if target.Some? {
        var targetButton := FindButton(buttons[..], target.value);
        if targetButton.Some? {
          focused := targetButton;
          ShowTab(target.value);
        }
      }
    }

    /** The 50 ms timeout set by `showTab` for the oldest pending panel
        fires: the blur animation is applied to its `.hero__title i`
        elements and then to its `.hero__description` elements, the `k`-th
        element drawing class number `draws[k]`. The panel need no longer
        be the active one. */
    method RunTextAnimation(draws: seq<nat>)
      requires Valid()
      requires pendingText != [] ==>
        |draws| == |titles[pendingText[0]]| + |descriptions[pendingText[0]]|
      requires forall k :: 0 <= k < |draws| ==> draws[k] < CharSpans.ClassDrawBound
      modifies this`pendingText
      modifies if pendingText != [] then set e | e in titles[pendingText[0]] + descriptions[pendingText[0]] else {}
      ensures Valid()
      ensures old(pendingText) == [] ==> pendingText == []
      ensures old(pendingText) != [] ==>
        var ts, ds := titles[old(pendingText)[0]], descriptions[old(pendingText)[0]];
        && pendingText == old(pendingText)[1..]
        && (forall k :: 0 <= k < |ts| ==>
              ts[k].content == CharSpans.Applied(old(ts[k].content), CharSpans.TitleConfig, draws[k]))
        && (forall k :: 0 <= k < |ds| ==>
              ds[k].content == CharSpans.Applied(old(ds[k].content), CharSpans.DescriptionConfig, draws[|ts| + k]))
    {
      if pendingText == [] {
        return;
      }
      var ts, ds := titles[pendingText[0]], descriptions[pendingText[0]];
      pendingText := pendingText[1..];
      CharSpans.DistinctParts(ts, ds);
      CharSpans.ApplyToAll(ts, CharSpans.TitleConfig, draws[..|ts|]);
      CharSpans.ApplyToAll(ds, CharSpans.DescriptionConfig, draws[|ts|..]);
    }
  }

  /** In a running carousel whose current tab tags exactly one panel and one
      button, exactly one panel is active. */
  lemma ControllerOneActive(c: Controller)
    requires c.Valid() && c.enabled
    requires UniquePanel(c.panels[..], c.current) && UniqueButton(c.buttons[..], c.current)
    ensures exists k :: (0 <= k < c.panels.Length && c.panels[k].active
                         && forall j :: 0 <= j < c.panels.Length && j != k ==> !c.panels[j].active)
  {
    ExactlyOneActive(c.panels[..], c.buttons[..], c.current);
    var k :| 0 <= k < |c.panels[..]| && c.panels[..][k].active
      && forall j :: 0 <= j < |c.panels[..]| && j != k ==> !c.panels[..][j].active;
    assert c.panels[k].active;
  }
}
