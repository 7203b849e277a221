/** A three-tab page driven through the carousel: it starts on tab 0, one
    auto-switch tick moves it to tab 1, a click on the third button shows
    tab 2 and restarts the interval, and ArrowRight on that button wraps to
    tab 0 and focuses the first button. */
module HeroTabsScenario {
  import opened Wrappers
  import opened HeroTabs

  function TabButton(index: string): Button {
    Button(index, false, "false")
  }

  function TabPanel(index: string): Panel {
    Panel(index, false, "true", false, false, false)
  }

  /** The three buttons carry the indices 0, 1 and 2, in order. */
  predicate ThreeButtons(c: Controller)
    reads c, c.buttons
  {
    c.buttons.Length == 3
    && c.buttons[0].dataTabIndex == "0"
    && c.buttons[1].dataTabIndex == "1"
    && c.buttons[2].dataTabIndex == "2"
  }

  /** The three panels carry the tabs 0, 1 and 2, in order. */
  predicate ThreePanels(c: Controller)
    reads c, c.panels
  {
    c.panels.Length == 3
    && c.panels[0].dataTab == "0"
    && c.panels[1].dataTab == "1"
    && c.panels[2].dataTab == "2"
  }

  /** Showing any tab keeps the tags of the three panels and buttons. */
  lemma ShowKeepsTags(ps: seq<Panel>, bs: seq<Button>, s: string)
    requires |ps| == 3 && ps[0].dataTab == "0" && ps[1].dataTab == "1" && ps[2].dataTab == "2"
    requires |bs| == 3 && bs[0].dataTabIndex == "0" && bs[1].dataTabIndex == "1" && bs[2].dataTabIndex == "2"
    ensures var qs := ShowPanels(ps, s);
      qs[0].dataTab == "0" && qs[1].dataTab == "1" && qs[2].dataTab == "2"
    ensures var cs := ShowButtons(bs, s);
      cs[0].dataTabIndex == "0" && cs[1].dataTabIndex == "1" && cs[2].dataTabIndex == "2"
  {
    PanelsAfterShow(ps, s);
    ButtonsAfterShow(bs, s);
  }

  /** Page load: tab 0 is shown and the interval with handle 1 runs. */
  method Load() returns (c: Controller)
    ensures fresh(c) && fresh(c.panels) && fresh(c.buttons) && fresh(c.videos)
    ensures c.Valid() && c.enabled && ThreeButtons(c) && ThreePanels(c)
    ensures c.current == 0 && c.intervals == map[1 := AutoSwitchInterval] && c.nextHandle == 2
  {
    var panels := new Panel[3] [TabPanel("0"), TabPanel("1"), TabPanel("2")];
    var buttons := new Button[3] [TabButton("0"), TabButton("1"), TabButton("2")];
    var videos := new Video[0];
    ghost var ps, bs := panels[..], buttons[..];
    c := new Controller(panels, buttons, videos, [[], [], []], [[], [], []], true);
    ShowKeepsTags(ps, bs, Decimal.NatToString(0));
  }

  /** The interval fires once. */
  method AutoAdvance(c: Controller)
    requires c.Valid() && c.enabled && ThreeButtons(c) && ThreePanels(c)
    requires c.current == 0 && 1 in c.intervals && c.nextHandle == 2
    modifies c, c.panels, c.buttons, c.videos
    ensures c.Valid() && c.enabled && ThreeButtons(c) && ThreePanels(c)
    ensures c.current == 1 && c.nextHandle == 2
  {
    ghost var ps, bs := c.panels[..], c.buttons[..];
    c.Tick(1);
    ShowKeepsTags(ps, bs, Decimal.NatToString(1));
  }

  /** A click on the third button: tab 2 is shown, and the interval is
      replaced by a fresh one with handle 2. */
  method ClickThird(c: Controller)
    requires c.Valid() && c.enabled && ThreeButtons(c) && ThreePanels(c)
    requires c.nextHandle == 2
    modifies c, c.panels, c.buttons, c.videos
    ensures c.Valid() && c.enabled && ThreeButtons(c) && ThreePanels(c)
    ensures c.current == 2
    ensures c.autoSwitch == Some(2) && c.intervals == map[2 := AutoSwitchInterval]
  {
    ghost var ps, bs := c.panels[..], c.buttons[..];
    assert Decimal.DigitsValue("2") == 2;
    c.Click(2);
    ShowKeepsTags(ps, bs, Decimal.NatToString(2));
  }

  /** ArrowRight on the third button: wraps to tab 0 and focuses the first
      button, leaving the interval alone. */
  method ArrowRightOnThird(c: Controller) returns (prevented: bool)
    requires c.Valid() && c.enabled && ThreeButtons(c) && ThreePanels(c)
    modifies c, c.panels, c.buttons, c.videos
    ensures c.Valid() && c.enabled && ThreeButtons(c) && ThreePanels(c)
    ensures c.current == 0 && c.focused == Some(0) && prevented
    ensures c.intervals == old(c.intervals)
    ensures c.panels[0].active && !c.panels[1].active && !c.panels[2].active
    ensures c.buttons[0].active && !c.buttons[1].active && !c.buttons[2].active
  {
    ghost var ps, bs := c.panels[..], c.buttons[..];
    assert Decimal.DigitsValue("2") == 2 && Decimal.DigitsValue("0") == 0;
    assert KeyTarget("ArrowRight", 2, 3) == Some(0);
    assert FindButton(c.buttons[..], 0) == Some(0);
    prevented := c.KeyDown(2, "ArrowRight");
    ShowKeepsTags(ps, bs, Decimal.NatToString(0));
    assert Decimal.NatToString(0) == "0";
  }

  /** The whole walk: the tabs shown after each step, the focused button at
      the end, whether ArrowRight was prevented, the final active flags of
      the panels and of the buttons, and the live interval at the end. */
  method ThreeTabs() returns (shown: seq<nat>, focus: Option<nat>, prevented: bool,
                              panelsActive: seq<bool>, buttonsActive: seq<bool>, live: map<nat, nat>)
    ensures shown == [0, 1, 2, 0]
    ensures focus == Some(0) && prevented
    ensures panelsActive == [true, false, false] && buttonsActive == [true, false, false]
    ensures live == map[2 := AutoSwitchInterval]
  {
    var c := Load();
    var first := c.current;
    AutoAdvance(c);
    var second := c.current;
    ClickThird(c);
    var third := c.current;
    prevented := ArrowRightOnThird(c);
    shown := [first, second, third, c.current];
    focus := c.focused;
    panelsActive := [c.panels[0].active, c.panels[1].active, c.panels[2].active];
    buttonsActive := [c.buttons[0].active, c.buttons[1].active, c.buttons[2].active];
    live := c.intervals;
  }
}
