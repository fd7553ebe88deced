/**
 * What pressing Select does in each menu (input/button_action.py). The dispatch
 * dictionaries become tables from an index to an action; an action's outcome is a
 * `Transition`: the system effect it requests and which screen it draws. The class
 * `ButtonAction` performs a transition on the shared `Interface`.
 */
module Actions {
  import opened Wrappers
  import opened Commands
  import opened UserInterface

  /** The entries of the main menu's dispatch table. */
  datatype MainAction = OpenDeviceMenu | OpenWebMenu | ShowNetworkInformation | RebootSystem | ShutDownSystem

  /** `main_actions.get(index)`. */
  function MainActions(index: nat): (action: Option<MainAction>)
    ensures action.Some? <==> index < 5
  {
    if index == 0 then Some(OpenDeviceMenu)
    else if index == 1 then Some(OpenWebMenu)
    else if index == 2 then Some(ShowNetworkInformation)
    else if index == 3 then Some(RebootSystem)
    else if index == 4 then Some(ShutDownSystem)
    else None
  }

  /** The entries of the web menu's dispatch table. */
  datatype WebAction = UpdateAndDraw(website: string, index: nat) | BackToMain

  /** `web_actions.get(index)`: two templates, each redrawn at its own index, then Back. */
  function WebActions(index: nat): (action: Option<WebAction>)
    ensures action.Some? <==> index < 3
    ensures action.Some? && action.value.UpdateAndDraw? ==> action.value.index == index
  {
    if index == 0 then Some(UpdateAndDraw("index_retro", 0))
    else if index == 1 then Some(UpdateAndDraw("index_cyberpunk", 1))
    else if index == 2 then Some(BackToMain)
    else None
  }

  /** Which drawing an action performs. */
  datatype Redraw =
    | NoRedraw
    | RedrawView(view: View, at: nat)   // one of the `draw_*` methods that name a menu
    | Confirm(at: nat)                  // `draw_web_selected(at)`

  /** The effect an action requests and the drawing it performs. */
  datatype Transition = Transition(effect: Effect, redraw: Redraw)

  /** `execute_action_main`: an index outside the table does nothing. */
  function MainTransition(index: nat): (t: Transition)
    ensures index >= 5 ==> t == Transition(NoEffect, NoRedraw)
  {
    match MainActions(index)
    case None => Transition(NoEffect, NoRedraw)
    case Some(OpenDeviceMenu) => Transition(NoEffect, RedrawView(DeviceView, 0))
    case Some(OpenWebMenu) => Transition(NoEffect, RedrawView(WebView, 0))
    case Some(ShowNetworkInformation) => Transition(NoEffect, RedrawView(NetworkView, 0))
    case Some(RebootSystem) => Transition(Reboot, NoRedraw)
    case Some(ShutDownSystem) => Transition(Shutdown, NoRedraw)
  }

  /** `execute_action_web`: a template is applied, then confirmed and shown at its own index. */
  function WebTransition(index: nat): (t: Transition)
    ensures index >= 3 ==> t == Transition(NoEffect, NoRedraw)
  {
    match WebActions(index)
    case None => Transition(NoEffect, NoRedraw)
    case Some(UpdateAndDraw(website, at)) => Transition(UpdateWebsite(website), Confirm(at))
    case Some(BackToMain) => Transition(NoEffect, RedrawView(MainView, 0))
  }

  /**
   * `execute_action_device`: the index one past the last device is Back and touches
   * no device; the index of a listed device toggles it, and an index past the
   * listing (a device removed while the menu was open) touches nothing; either way
   * the main menu is drawn at 0.
   */
  function DeviceTransition(index: nat, devices: seq<Device>): (t: Transition)
    ensures t.redraw == RedrawView(MainView, 0)
    ensures index == |devices| ==> t.effect == NoEffect
    ensures index < |devices| ==> t.effect == Mount(index) || t.effect == Unmount(index)
    ensures index > |devices| ==> t.effect == NoEffect
  {
    if index == |devices| then Transition(NoEffect, RedrawView(MainView, 0))
    else Transition(CustomDevice(devices, index), RedrawView(MainView, 0))
  }

  /** `execute_action_back`: always the main menu at 0. */
  const BACK_TRANSITION: Transition := Transition(NoEffect, RedrawView(MainView, 0))

  /**
   * The menu name and the screen after performing `r` from `menu0` and `screen0`.
   * A display fault stops a drawing after it has named its menu, with the old screen left.
   */
  function Performed(r: Redraw, env: Environment, menu0: string, screen0: Screen): (after: (string, Screen))
    ensures r.RedrawView? ==> after.0 == MenuName(r.view)
    ensures env.displayFails ==> after.1 == screen0
    ensures r.NoRedraw? ==> after == (menu0, screen0)
  {
    match r
    case NoRedraw => (menu0, screen0)
    case RedrawView(v, at) => (MenuName(v), if env.displayFails then screen0 else Drawn(v, at, env))
    case Confirm(at) => if env.displayFails then (menu0, screen0) else ("web", Drawn(WebView, at, env))
  }

  class ButtonAction {
    const interface: Interface

    constructor(interface: Interface)
      ensures this.interface == interface
    {
      this.interface := interface;
    }

    /** `_web_action_update_and_draw`: request the page update, then show the confirmation. */
    method WebActionUpdateAndDraw(website: string, index: nat, env: Environment) returns (effect: Effect)
      modifies interface, interface.menu
      ensures effect == UpdateWebsite(website)
      ensures (interface.menu.selectMenu, interface.screen) == Performed(Confirm(index), env, old(interface.menu.selectMenu), old(interface.screen))
    {
      effect := UpdateWebsite(website);
      var raised := interface.DrawWebSelected(index, env);
    }

    /** `execute_action_main`: look the index up and run the entry; faults are swallowed. */
    method ExecuteActionMain(index: nat, env: Environment) returns (effect: Effect)
      modifies interface, interface.menu
      ensures effect == MainTransition(index).effect
      ensures (interface.menu.selectMenu, interface.screen) == Performed(MainTransition(index).redraw, env, old(interface.menu.selectMenu), old(interface.screen))
    {
      effect := NoEffect;
      var raised := false;
      match MainActions(index) {
        case None =>
        case Some(OpenDeviceMenu) => interface.DrawDeviceMenu(0, env);
        case Some(OpenWebMenu) => raised := interface.DrawWebMenu(0, env);
        case Some(ShowNetworkInformation) => interface.DrawNetworkInformation(env);
        case Some(RebootSystem) => effect := Reboot;
        case Some(ShutDownSystem) => effect := Shutdown;
      }
    }

    /** `execute_action_web`: look the index up and run the entry; faults are swallowed. */
    method ExecuteActionWeb(index: nat, env: Environment) returns (effect: Effect)
      modifies interface, interface.menu
      ensures effect == WebTransition(index).effect
      ensures (interface.menu.selectMenu, interface.screen) == Performed(WebTransition(index).redraw, env, old(interface.menu.selectMenu), old(interface.screen))
    {
      effect := NoEffect;
      match WebActions(index) {
        case None =>
        case Some(UpdateAndDraw(website, at)) => effect := WebActionUpdateAndDraw(website, at, env);
        case Some(BackToMain) => var raised := interface.DrawMainMenu(0, env);
      }
    }

    /**
     * `execute_action_device`: counts the devices, toggles the selected one unless
     * Back was chosen, then draws the main menu; a display fault is raised.
     */
    method ExecuteActionDevice(index: nat, env: Environment) returns (effect: Effect, raised: bool)
      modifies interface, interface.menu
      ensures effect == DeviceTransition(index, DeviceList(env.lsblk)).effect
      ensures raised == env.displayFails
      ensures (interface.menu.selectMenu, interface.screen) == Performed(RedrawView(MainView, 0), env, old(interface.menu.selectMenu), old(interface.screen))
    {
      var count := GetDevicesLen(env.lsblk);
      if count == index {
        effect := NoEffect;
      } else {
        var devices := GetDeviceUsb(env.lsblk);
        effect := CustomDevice(devices, index);
      }
      raised := interface.DrawMainMenu(0, env);
    }

    /** `execute_action_back`: draws the main menu at 0; a display fault is raised. */
    method ExecuteActionBack(env: Environment) returns (raised: bool)
      modifies interface, interface.menu
      ensures raised == env.displayFails
      ensures (interface.menu.selectMenu, interface.screen) == Performed(BACK_TRANSITION.redraw, env, old(interface.menu.selectMenu), old(interface.screen))
    {
      raised := interface.DrawMainMenu(0, env);
    }
  }
}
