/**
 * The navigation engine of the main loop (main.py) as a state machine: the state
 * is the menu name in `select_menu`, the `selected_index` and the screen; one poll
 * reads the buttons and the outside world and yields the next state and the system
 * effect requested. `MainLoop.JellyBox` runs this machine imperatively.
 */
module NavigationEngine {
  import opened Wrappers
  import opened Buttons
  import opened Commands
  import opened Menus
  import opened UserInterface
  import opened Actions

  datatype State = State(menu: string, index: nat, screen: Screen)

  /** The state after a poll and the effect the poll requested. */
  datatype Outcome = Outcome(state: State, effect: Effect)

  /** What one poll reads: the three pins and the outside world. */
  datatype Input = Input(panel: Panel, env: Environment)

  /** The list menu a menu name stands for, if any. */
  function ListView(menu: string): (v: Option<View>)
    ensures v.Some? <==> menu in {"main", "web", "device"}
    ensures v.Some? ==> MenuName(v.value) == menu && v.value != NetworkView
  {
    if menu == "main" then Some(MainView)
    else if menu == "web" then Some(WebView)
    else if menu == "device" then Some(DeviceView)
    else None
  }

  /** The item count each list menu navigates over; the device count is read on every poll. */
  function ItemCount(v: View, env: Environment): (n: nat)
    requires v != NetworkView
    ensures n > 0
    ensures v == MainView ==> n == 5
    ensures v == WebView ==> n == 3
    ensures v == DeviceView ==> n == |DeviceList(env.lsblk)| + 1
  {
    match v
    case MainView => |MAIN_MENU_ITEMS|
    case WebView => |WEB_MENU_ITEMS|
    case DeviceView => |DeviceList(env.lsblk)| + 1
  }

  /** The action Select runs in a list menu. */
  function SelectTransition(v: View, index: nat, env: Environment): Transition
    requires v != NetworkView
  {
    match v
    case MainView => MainTransition(index)
    case WebView => WebTransition(index)
    case DeviceView => DeviceTransition(index, DeviceList(env.lsblk))
  }

  /**
   * `handle_menu` for the list menu `v` named `s.menu`: navigate first; a redraw
   * that raises abandons the poll (the main loop catches it and the index is not
   * stored); Select then acts on
   * the updated index, and the index returns to 0 exactly when the menu changed.
   */
  function HandleMenuStep(s: State, v: View, panel: Panel, env: Environment): Outcome
    requires v != NetworkView
  {
    var nav := HandleNavigation(ItemCount(v, env), s.index, panel);
    if nav.redraw && Raises(v, env) then Outcome(s, NoEffect)
    else
      var screen1 := if nav.redraw && !env.displayFails then Drawn(v, nav.index, env) else s.screen;
      if !IsSelectPressed(panel) then Outcome(State(s.menu, nav.index, screen1), NoEffect)
      else
        var t := SelectTransition(v, nav.index, env);
        var after := Performed(t.redraw, env, s.menu, screen1);
        Outcome(State(after.0, if after.0 != s.menu then 0 else nav.index, after.1), t.effect)
  }

  /** One pass of the `while True` loop of `main`. */
  function Step(s: State, input: Input): Outcome
  {
    match ListView(s.menu)
    case Some(v) => HandleMenuStep(s, v, input.panel, input.env)
    case None =>
      if s.menu == "red" && IsSelectPressed(input.panel) then
        var after := Performed(BACK_TRANSITION.redraw, input.env, s.menu, s.screen);
        Outcome(State(after.0, 0, after.1), NoEffect)
      else Outcome(s, NoEffect)
  }

  /** The state `main` enters the loop with: index 0, the main menu drawn at 0. */
  function Init(): State
  {
    State("main", 0, MenuList(MarkSelected(MAIN_MENU_ITEMS, 0)))
  }

  /** The state after a sequence of polls, and the effects requested, in order. */
  datatype Trace = Trace(state: State, effects: seq<Effect>)

  function Run(s: State, inputs: seq<Input>): (t: Trace)
    ensures |t.effects| == |inputs|
  {
    if inputs == [] then Trace(s, [])
    else
      var before := Run(s, inputs[..|inputs| - 1]);
      var last := Step(before.state, inputs[|inputs| - 1]);
      Trace(last.state, before.effects + [last.effect])
  }

  // ---------------------------------------------------------------- invariant

  /** The menu is always a known one, and the index fits the static menus; "red" keeps 0. */
  predicate Inv(s: State) {
    && s.menu in {"main", "web", "device", "red"}
    && (s.menu == "main" ==> s.index < 5)
    && (s.menu == "web" ==> s.index < 3)
    && (s.menu == "red" ==> s.index == 0)
  }

  /** Before the loop starts the main menu is current at index 0, with row 0 highlighted. */
  lemma InitShowsMain()
    ensures Inv(Init()) && Init().menu == "main" && Init().index == 0
    ensures Init().screen == Drawn(MainView, 0, Environment(None, None, None, false))
    ensures Init().screen.rows[0].selected
  {
    assert Init().screen.rows == MarkSelected(MAIN_MENU_ITEMS, 0);
  }

  lemma StepPreservesInv(s: State, input: Input)
    requires Inv(s)
    ensures Inv(Step(s, input).state)
  {
    match ListView(s.menu) {
      case Some(v) =>
        var nav := HandleNavigation(ItemCount(v, input.env), s.index, input.panel);
        if !(nav.redraw && Raises(v, input.env)) && IsSelectPressed(input.panel) {
          var t := SelectTransition(v, nav.index, input.env);
          if v == MainView {
            assert nav.index < 5;
          } else if v == WebView {
            assert nav.index < 3;
          }
        }
      case None =>
    }
  }

  /** Every run from a state that satisfies the invariant keeps it. */
  lemma {:induction false} RunPreservesInv(s: State, inputs: seq<Input>)
    requires Inv(s)
    ensures Inv(Run(s, inputs).state)
  {
    if inputs != [] {
      RunPreservesInv(s, inputs[..|inputs| - 1]);
      StepPreservesInv(Run(s, inputs[..|inputs| - 1]).state, inputs[|inputs| - 1]);
    }
  }

  /** Every run from `Init` keeps the invariant. */
  lemma RunFromInit(inputs: seq<Input>)
    ensures Inv(Run(Init(), inputs).state)
  {
    InitShowsMain();
    RunPreservesInv(Init(), inputs);
  }

  // --------------------------------------------------------- handle_menu rules

  /**
   * After a Select in a list menu, the index is 0 exactly when the menu changed,
   * and otherwise the index navigation produced, even when the action's drawing fails.
   */
  lemma ResetOnMenuChange(s: State, input: Input)
    requires ListView(s.menu).Some? && IsSelectPressed(input.panel)
    requires var v := ListView(s.menu).value;
      !(HandleNavigation(ItemCount(v, input.env), s.index, input.panel).redraw && Raises(v, input.env))
    ensures var v := ListView(s.menu).value;
      var next := Step(s, input).state;
      next.index == if next.menu != s.menu then 0 else HandleNavigation(ItemCount(v, input.env), s.index, input.panel).index
  {
  }

  /**
   * A Select whose action draws a named menu always leaves the current one: the
   * menu written is the new screen's name, which differs from the old one, so
   * the index restarts at 0.
   */
  lemma SelectRedrawLeavesMenu(s: State, input: Input)
    requires ListView(s.menu).Some? && IsSelectPressed(input.panel)
    requires var v := ListView(s.menu).value;
      var nav := HandleNavigation(ItemCount(v, input.env), s.index, input.panel);
      !(nav.redraw && Raises(v, input.env)) && SelectTransition(v, nav.index, input.env).redraw.RedrawView?
    ensures var v := ListView(s.menu).value;
      var nav := HandleNavigation(ItemCount(v, input.env), s.index, input.panel);
      var w := SelectTransition(v, nav.index, input.env).redraw.view;
      var next := Step(s, input).state;
      w != v && next.menu == MenuName(w) != s.menu && next.index == 0
  {
    var v := ListView(s.menu).value;
    var nav := HandleNavigation(ItemCount(v, input.env), s.index, input.panel);
    var w := SelectTransition(v, nav.index, input.env).redraw.view;
    MenuNameInjective(v, w);
  }

  /**
   * A display fault while the main or web menu is redrawn during navigation
   * abandons the poll: neither the new index nor Select is handled.
   */
  lemma NavigationFaultAbandonsPoll(s: State, input: Input)
    requires s.menu in {"main", "web"} && input.env.displayFails
    requires IsUpPressed(input.panel) || IsDownPressed(input.panel)
    ensures Step(s, input) == Outcome(s, NoEffect)
  {
  }

  /**
   * The device menu logs its own display faults: navigation still moves the index,
   * and the poll goes on as with a working display except for the screen.
   */
  lemma DeviceNavigationSurvivesFault(s: State, input: Input)
    requires s.menu == "device" && input.env.displayFails
    ensures var healthy := Step(s, input.(env := input.env.(displayFails := false)));
      var o := Step(s, input);
      o.state.menu == healthy.state.menu && o.state.index == healthy.state.index && o.effect == healthy.effect
      && o.state.screen == s.screen
  {
    var env0 := input.env.(displayFails := false);
    assert ListView(s.menu) == Some(DeviceView);
    assert !Raises(DeviceView, input.env) && !Raises(DeviceView, env0);
    var n := ItemCount(DeviceView, input.env);
    assert n == ItemCount(DeviceView, env0);
    var nav := HandleNavigation(n, s.index, input.panel);
    var t := SelectTransition(DeviceView, nav.index, input.env);
    assert t == SelectTransition(DeviceView, nav.index, env0);
    assert t.redraw == RedrawView(MainView, 0);
  }

  /** Pins that cannot be read change nothing: every read counts as not pressed. */
  lemma FailedReadsAreInert(s: State, env: Environment)
    ensures Step(s, Input(Panel(ReadFailed, ReadFailed, ReadFailed), env)) == Outcome(s, NoEffect)
  {
    match ListView(s.menu) {
      case Some(v) =>
        var nav := HandleNavigation(ItemCount(v, env), s.index, Panel(ReadFailed, ReadFailed, ReadFailed));
        assert !nav.redraw && nav.index == s.index;
      case None =>
    }
  }

  /** A menu name outside the four known ones (the initial "") makes every poll do nothing. */
  lemma UnknownMenuIsInert(s: State, input: Input)
    requires s.menu !in {"main", "web", "device", "red"}
    ensures Step(s, input) == Outcome(s, NoEffect)
  {
  }

  /**
   * In the network screen Up and Down are not even read; Select returns to the
   * main menu at index 0, whether or not the display works.
   */
  lemma NetworkScreen(s: State, input: Input)
    requires s.menu == "red"
    ensures !IsSelectPressed(input.panel) ==> Step(s, input) == Outcome(s, NoEffect)
    ensures IsSelectPressed(input.panel) ==>
      Step(s, input).state.menu == "main" && Step(s, input).state.index == 0 && Step(s, input).effect == NoEffect
    ensures Step(s, input) == Step(s, input.(panel := input.panel.(up := ReadFailed, down := ReadFailed)))
  {
  }

  // ------------------------------------------------------ what Select leads to

  /** A poll in which only Select is held. */
  function SelectOnly(): Panel {
    Panel(Level(true), Level(true), Level(false))
  }

  /** With only Select held, a list menu performs its entry at the current index. */
  lemma SelectOnlyStep(v: View, i: nat, screen: Screen, env: Environment)
    requires v != NetworkView
    ensures var t := SelectTransition(v, i, env);
      var after := Performed(t.redraw, env, MenuName(v), screen);
      Step(State(MenuName(v), i, screen), Input(SelectOnly(), env))
        == Outcome(State(after.0, if after.0 != MenuName(v) then 0 else i, after.1), t.effect)
  {
    assert ListView(MenuName(v)) == Some(v);
    var nav := HandleNavigation(ItemCount(v, env), i, SelectOnly());
    assert !nav.redraw && nav.index == i;
  }

  /**
   * The main table: Select on 0, 1, 2 opens the device menu, the web menu and the
   * network screen at index 0; 3 and 4 reboot and shut down and stay put.
   */
  lemma MainMenuSelect(i: nat, screen: Screen, env: Environment)
    requires i < 5
    ensures var o := Step(State("main", i, screen), Input(SelectOnly(), env));
      && o.state.menu == ["device", "web", "red", "main", "main"][i]
      && o.state.index == [0, 0, 0, 3, 4][i]
      && o.effect == [NoEffect, NoEffect, NoEffect, Reboot, Shutdown][i]
  {
    SelectOnlyStep(MainView, i, screen, env);
    MainEntry(i, screen, env);
  }

  /** The menu each main entry draws and the effect it requests. */
  lemma MainEntry(i: nat, screen: Screen, env: Environment)
    requires i < 5
    ensures var t := MainTransition(i);
      && Performed(t.redraw, env, "main", screen).0 == ["device", "web", "red", "main", "main"][i]
      && t.effect == [NoEffect, NoEffect, NoEffect, Reboot, Shutdown][i]
  {
    if i == 0 {
      assert MainTransition(0) == Transition(NoEffect, RedrawView(DeviceView, 0));
    } else if i == 1 {
      assert MainTransition(1) == Transition(NoEffect, RedrawView(WebView, 0));
    } else if i == 2 {
      assert MainTransition(2) == Transition(NoEffect, RedrawView(NetworkView, 0));
    } else if i == 3 {
      assert MainTransition(3) == Transition(Reboot, NoRedraw);
    } else {
      assert MainTransition(4) == Transition(Shutdown, NoRedraw);
    }
  }

  /**
   * The web table: the two templates are applied and the web menu stays at the
   * chosen index, even when the confirmation cannot be drawn; Back opens the main menu at 0.
   */
  lemma WebMenuSelect(i: nat, screen: Screen, env: Environment)
    requires i < 3
    ensures var o := Step(State("web", i, screen), Input(SelectOnly(), env));
      && o.state.menu == ["web", "web", "main"][i]
      && o.state.index == [0, 1, 0][i]
      && o.effect == [UpdateWebsite("index_retro"), UpdateWebsite("index_cyberpunk"), NoEffect][i]
  {
    var nav := HandleNavigation(3, i, SelectOnly());
    assert !nav.redraw && nav.index == i;
    if i == 0 {
      assert WebActions(0) == Some(UpdateAndDraw("index_retro", 0));
    } else if i == 1 {
      assert WebActions(1) == Some(UpdateAndDraw("index_cyberpunk", 1));
    } else {
      assert WebActions(2) == Some(BackToMain);
    }
  }

  /**
   * The device menu: Select always returns to the main menu at 0. The entry one past
   * the last device is Back and touches no device; an entry of a listed device
   * toggles it. The menu is entered at 0, but a device that disappears between two
   * polls while the menu stays open leaves the index past the listing; Select then
   * touches no device.
   */
  lemma DeviceMenuSelect(i: nat, screen: Screen, env: Environment)
    ensures var o := Step(State("device", i, screen), Input(SelectOnly(), env));
      var devices := DeviceList(env.lsblk);
      && o.state.menu == "main" && o.state.index == 0
      && (i == |devices| ==> o.effect == NoEffect)
      && (i < |devices| && Mounted(devices[i]) ==> o.effect == Unmount(i))
      && (i < |devices| && !Mounted(devices[i]) ==> o.effect == Mount(i))
      && (i > |devices| ==> o.effect == NoEffect)
  {
    var nav := HandleNavigation(|DeviceList(env.lsblk)| + 1, i, SelectOnly());
    assert !nav.redraw && nav.index == i;
  }

  /**
   * In every list menu, Select acts on the index navigation has just produced: the
   * effect, the menu and the screen are those of the entry at the navigated index,
   * performed after the navigation redraw.
   */
  lemma SelectActsOnNavigatedIndex(s: State, input: Input)
    requires ListView(s.menu).Some? && IsSelectPressed(input.panel)
    requires var v := ListView(s.menu).value;
      !(HandleNavigation(ItemCount(v, input.env), s.index, input.panel).redraw && Raises(v, input.env))
    ensures var v := ListView(s.menu).value;
      var env := input.env;
      var nav := HandleNavigation(ItemCount(v, env), s.index, input.panel);
      var t := SelectTransition(v, nav.index, env);
      var shown := if nav.redraw && !env.displayFails then Drawn(v, nav.index, env) else s.screen;
      var after := Performed(t.redraw, env, s.menu, shown);
      var o := Step(s, input);
      o.effect == t.effect && o.state.menu == after.0 && o.state.screen == after.1
  {
  }

  /**
   * An example: Down and Select together
   * on "Web Templates" open the network screen, the option below it.
   */
  lemma SelectAfterNavigation(screen: Screen, env: Environment)
    requires !env.displayFails
    ensures var o := Step(State("main", 1, screen), Input(Panel(Level(true), Level(false), Level(false)), env));
      o.state.menu == "red" && o.state.index == 0 && o.state.screen.NetworkInfo?
  {
    var nav := HandleNavigation(5, 1, Panel(Level(true), Level(false), Level(false)));
    assert nav.index == 2;
    assert MainActions(2) == Some(ShowNetworkInformation);
  }

  /**
   * When no redraw happens during navigation, a display fault changes only the
   * screen: the menu, the index and the effect are those of a working display.
   */
  lemma DisplayFaultOnlyAffectsScreen(s: State, input: Input)
    requires !IsUpPressed(input.panel) && !IsDownPressed(input.panel)
    ensures var healthy := Step(s, input.(env := input.env.(displayFails := false)));
      var o := Step(s, input);
      o.state.menu == healthy.state.menu && o.state.index == healthy.state.index && o.effect == healthy.effect
  {
    var env0 := input.env.(displayFails := false);
    assert DeviceList(env0.lsblk) == DeviceList(input.env.lsblk);
    match ListView(s.menu) {
      case Some(v) =>
        var nav := HandleNavigation(ItemCount(v, input.env), s.index, input.panel);
        assert nav == HandleNavigation(ItemCount(v, env0), s.index, input.panel);
      case None =>
    }
  }

  /** Down, Down, Select, Select from the start: main item 2 opens the network screen, which goes back to main. */
  lemma NetworkRoundTrip(env: Environment)
    requires !env.displayFails
    ensures var down := Input(Panel(Level(true), Level(false), Level(true)), env);
      var select := Input(SelectOnly(), env);
      var t := Run(Init(), [down, down, select, select]);
      t.state == Init() && t.effects == [NoEffect, NoEffect, NoEffect, NoEffect]
  {
    var down := Input(Panel(Level(true), Level(false), Level(true)), env);
    var select := Input(SelectOnly(), env);
    var inputs := [down, down, select, select];
    var s1 := Step(Init(), down).state;
    assert inputs[..1][..0] == [];
    assert Run(Init(), inputs[..1]) == Trace(s1, [NoEffect]);
    assert s1.menu == "main" && s1.index == 1;
    var s2 := Step(s1, down).state;
    assert inputs[..2][..1] == inputs[..1];
    assert Run(Init(), inputs[..2]) == Trace(s2, [NoEffect, NoEffect]);
    assert s2.menu == "main" && s2.index == 2;
    var s3 := Step(s2, select).state;
    assert inputs[..3][..2] == inputs[..2];
    assert MainActions(2) == Some(ShowNetworkInformation);
    assert Run(Init(), inputs[..3]) == Trace(s3, [NoEffect, NoEffect, NoEffect]);
    assert s3.menu == "red" && s3.index == 0;
    assert inputs[..3] == inputs[..|inputs| - 1];
    var s4 := Step(s3, select).state;
    assert s4 == Init();
  }
}
