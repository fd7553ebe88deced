/**
 * The program's entry point (main.py): `main` builds the interface and the
 * actions, draws the main menu at index 0 and then polls forever; each poll hands
 * the current menu to `handle_menu` with that menu's item count, drawing method
 * and action dispatcher. The infinite loop is modelled as a run over a finite
 * sequence of polls.
 */
module MainLoop {
  import opened Wrappers
  import opened Buttons
  import opened Commands
  import opened UserInterface
  import opened Actions
  import opened NavigationEngine

  class JellyBox {
    const interface: Interface
    const action: ButtonAction
    /** `selected_index` of `main`. */
    var selectedIndex: nat

    /** The actions draw on the same interface the loop reads. */
    ghost predicate Wired() {
      action.interface == interface
    }

    /** The engine state this object is in. */
    function Current(): State
      reads this, interface, interface.menu
    {
      State(interface.menu.selectMenu, selectedIndex, interface.screen)
    }

    /** `main` up to the loop: the main menu is drawn at index 0 on a working display. */
    constructor()
      ensures Wired() && Current() == Init()
    {
      var ui := new Interface();
      interface := ui;
      action := new ButtonAction(ui);
      selectedIndex := 0;
      new;
      var raised := interface.DrawMainMenu(0, Environment(None, None, None, false));
    }

    /** The action dispatcher handed to `handle_menu` for the list menu `v`. */
    method Execute(v: View, index: nat, env: Environment) returns (effect: Effect)
      requires Wired() && v != NetworkView
      modifies interface, interface.menu
      ensures effect == SelectTransition(v, index, env).effect
      ensures (interface.menu.selectMenu, interface.screen)
        == Performed(SelectTransition(v, index, env).redraw, env, old(interface.menu.selectMenu), old(interface.screen))
    {
      match v {
        case MainView => effect := action.ExecuteActionMain(index, env);
        case WebView => effect := action.ExecuteActionWeb(index, env);
        case DeviceView =>
          // a display fault raised here is caught by `handle_menu` and logged
          var raised;
          effect, raised := action.ExecuteActionDevice(index, env);
      }
    }

    /**
     * `handle_menu`: navigate (redrawing through `v`'s drawing method), then on
     * Select run the action at the new index and reset the index to 0 if the menu
     * changed. A redraw that raises leaves `handle_menu` before the index is stored.
     */
    method HandleMenu(v: View, totalItems: nat, panel: Panel, env: Environment) returns (effect: Effect)
      requires Wired() && v != NetworkView
      requires interface.menu.selectMenu == MenuName(v) && totalItems == ItemCount(v, env)
      modifies this, interface, interface.menu
      ensures Outcome(Current(), effect) == HandleMenuStep(old(Current()), v, panel, env)
    {
      var menuName := MenuName(v);
      effect := NoEffect;
      var nav := HandleNavigation(totalItems, selectedIndex, panel);
      if nav.redraw {
        var raised := interface.Draw(v, nav.index, env);
        if raised {
          return;
        }
      }
      selectedIndex := nav.index;
      if IsSelectPressed(panel) {
        effect := Execute(v, selectedIndex, env);
        if interface.menu.selectMenu != menuName {
          selectedIndex := 0;
        }
      }
    }

    /** One pass of the `while True` loop: dispatch on the current menu name. */
    method Tick(panel: Panel, env: Environment) returns (effect: Effect)
      requires Wired()
      modifies this, interface, interface.menu
      ensures Outcome(Current(), effect) == Step(old(Current()), Input(panel, env))
    {
      var menuName := interface.menu.selectMenu;
      effect := NoEffect;
      if menuName == "main" {
        effect := HandleMenu(MainView, interface.menu.GetLenMainMenuItems(), panel, env);
      } else if menuName == "web" {
        effect := HandleMenu(WebView, interface.menu.GetLenWebMenuItems(), panel, env);
      } else if menuName == "device" {
        var count := GetDevicesLen(env.lsblk);
        effect := HandleMenu(DeviceView, count + 1, panel, env);
      } else if menuName == "red" {
        if IsSelectPressed(panel) {
          // a display fault raised here is caught and logged; the index is reset anyway
          var raised := action.ExecuteActionBack(env);
          selectedIndex := 0;
        }
      }
    }

    /** The `while True` loop over a finite sequence of polls. */
    method Loop(inputs: seq<Input>) returns (effects: seq<Effect>)
      requires Wired()
      modifies this, interface, interface.menu
      ensures Trace(Current(), effects) == Run(old(Current()), inputs)
    {
      effects := [];
      ghost var start := Current();
      for k := 0 to |inputs|
        invariant Trace(Current(), effects) == Run(start, inputs[..k])
      {
        var effect := Tick(inputs[k].panel, inputs[k].env);
        effects := effects + [effect];
        assert inputs[..k + 1][..k] == inputs[..k];
      }
      assert inputs[..|inputs|] == inputs;
    }
  }
}
