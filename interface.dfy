/**
 * The screen side of the appliance (interface/interface.py). Pixels, colours and
 * fonts are not modelled: a screen is the list of option rows with the highlighted
 * one marked, or the access point's details. What matters to the navigation
 * engine is that every menu drawing first writes the menu's name, and only then
 * touches the display, which is where a rendering fault surfaces.
 */
module UserInterface {
  import opened Wrappers
  import opened Commands
  import opened Menus

  /**
   * What the outside world answers during one poll: the captured outputs of `lsblk`,
   * of the SSID query and of the `psk=` grep (`None`: the command raised), and
   * whether the display raises when drawn on.
   */
  datatype Environment = Environment(
    lsblk: Option<string>,
    ssid: Option<string>,
    psk: Option<string>,
    displayFails: bool)

  /** One option of a list menu, and whether it is the highlighted one. */
  datatype Row = Row(text: string, selected: bool)

  /** What the display shows. */
  datatype Screen =
    | Blank
    | MenuList(rows: seq<Row>)
    | WebSelectedNotice
    | NetworkInfo(ssid: string, password: string, qrPayload: string)

  /** The four screens a menu drawing can put up. */
  datatype View = MainView | WebView | DeviceView | NetworkView

  /** The name each menu drawing writes into `select_menu`. */
  function MenuName(v: View): (name: string)
    ensures name in {"main", "web", "device", "red"}
  {
    match v
    case MainView => "main"
    case WebView => "web"
    case DeviceView => "device"
    case NetworkView => "red"
  }

  /** Different screens carry different menu names. */
  lemma MenuNameInjective(v: View, w: View)
    ensures MenuName(v) == MenuName(w) <==> v == w
  {
  }

  /** The rows of a list menu: item `k` is highlighted exactly when `k` is the selected index. */
  function MarkSelected(items: seq<string>, selectedIndex: nat): (rows: seq<Row>)
    ensures |rows| == |items|
    ensures forall k :: 0 <= k < |rows| ==> rows[k].text == items[k]
    ensures forall k :: 0 <= k < |rows| ==> (rows[k].selected <==> k == selectedIndex)
  {
    seq(|items|, k requires 0 <= k < |items| => Row(items[k], k == selectedIndex))
  }

  /** Exactly one row is highlighted when the index is in range, and none otherwise. */
  lemma HighlightVisible(items: seq<string>, selectedIndex: nat)
    ensures (exists k :: 0 <= k < |items| && MarkSelected(items, selectedIndex)[k].selected) <==> selectedIndex < |items|
    ensures forall j, k :: 0 <= j < k < |items| ==> !(MarkSelected(items, selectedIndex)[j].selected && MarkSelected(items, selectedIndex)[k].selected)
  {
    var rows := MarkSelected(items, selectedIndex);
    if selectedIndex < |items| {
      assert rows[selectedIndex].selected;
    }
  }

  /** The option a device gets in the device menu. */
  function DeviceLabel(d: Device): string
  {
    "USB-" + d.name + " " + d.size + (if Mounted(d) then " Mounted" else "")
  }

  /** The device menu's options: one label per device, in listing order, then "Back". */
  function DeviceOptions(devices: seq<Device>): (options: seq<string>)
    ensures |options| == |devices| + 1
    ensures forall k :: 0 <= k < |devices| ==> options[k] == DeviceLabel(devices[k])
    ensures options[|devices|] == "Back"
  {
    seq(|devices|, k requires 0 <= k < |devices| => DeviceLabel(devices[k])) + ["Back"]
  }

  /**
   * For the sizes the `lsblk` filter lets through (a word ending in G or T), the
   * label says " Mounted" at its end exactly when the device is mounted.
   */
  lemma DeviceLabelShowsMount(d: Device)
    requires PyText.IsWord(d.size) && d.size[|d.size| - 1] in {'G', 'T'}
    ensures PyText.EndsWith(DeviceLabel(d), " Mounted") <==> Mounted(d)
  {
    var shown := DeviceLabel(d);
    if !Mounted(d) {
      assert shown[|shown| - 1] == d.size[|d.size| - 1];
      if |shown| >= 8 {
        assert shown[|shown| - 8..][7] == shown[|shown| - 1];
      }
    } else {
      assert shown == "USB-" + d.name + " " + d.size + " Mounted";
    }
  }

  /**
   * Whether the drawing method for `v` raises when the display fails: pushing the
   * frame is outside any `try` in the list drawings of the main and web menus, and
   * inside the `try` of the device menu and of the network screen.
   */
  predicate Raises(v: View, env: Environment) {
    env.displayFails && (v == MainView || v == WebView)
  }

  /** The screen a drawing method puts up for `v` at `selectedIndex` when the display works. */
  function Drawn(v: View, selectedIndex: nat, env: Environment): Screen
  {
    match v
    case MainView => MenuList(MarkSelected(MAIN_MENU_ITEMS, selectedIndex))
    case WebView => MenuList(MarkSelected(WEB_MENU_ITEMS, selectedIndex))
    case DeviceView => MenuList(MarkSelected(DeviceOptions(DeviceList(env.lsblk)), selectedIndex))
    case NetworkView =>
      var ssid := SsidOf(env.ssid);
      var password := PasswordAccessPoint(env.psk);
      NetworkInfo(ssid, password, WifiQrPayload(ssid, password))
  }

  /**
   * The display of the appliance. A display fault is modelled where the frame is
   * pushed to the panel (`disp.image`): the menu name is already written, the
   * previous screen stays, and the exception either propagates or is logged.
   */
  class Interface {
    const menu: Menu
    /** What the panel shows. */
    var screen: Screen

    constructor()
      ensures fresh(menu) && menu.selectMenu == "" && screen == Blank
    {
      menu := new Menu();
      screen := Blank;
    }

    /** The per-option loop of the list menus: one row per item, the selected one highlighted. */
    method DrawItems(items: seq<string>, selectedIndex: nat) returns (rows: seq<Row>)
      ensures rows == MarkSelected(items, selectedIndex)
    {
      rows := [];
      for idx := 0 to |items|
        invariant |rows| == idx
        invariant forall k :: 0 <= k < idx ==> rows[k] == Row(items[k], k == selectedIndex)
      {
        var isSelected := idx == selectedIndex;
        rows := rows + [Row(items[idx], isSelected)];
      }
    }

    /** `draw_main_menu`: names the main menu, then draws its options; a display fault propagates. */
    method DrawMainMenu(selectedIndex: nat, env: Environment) returns (raised: bool)
      modifies this, menu
      ensures menu.selectMenu == "main" && raised == env.displayFails
      ensures screen == if env.displayFails then old(screen) else Drawn(MainView, selectedIndex, env)
    {
      menu.selectMenu := "main";
      var rows := DrawItems(menu.mainMenuItems, selectedIndex);
      if env.displayFails {
        return true;
      }
      screen := MenuList(rows);
      raised := false;
    }

    /** `draw_web_menu`: names the web menu, then draws its options; a display fault propagates. */
    method DrawWebMenu(selectedIndex: nat, env: Environment) returns (raised: bool)
      modifies this, menu
      ensures menu.selectMenu == "web" && raised == env.displayFails
      ensures screen == if env.displayFails then old(screen) else Drawn(WebView, selectedIndex, env)
    {
      menu.selectMenu := "web";
      var rows := DrawItems(menu.webMenuItems, selectedIndex);
      if env.displayFails {
        return true;
      }
      screen := MenuList(rows);
      raised := false;
    }

    /**
     * `draw_device_menu`: names the device menu before listing the devices, so the
     * menu changes whatever the listing does; the options are the device labels and
     * "Back". A display fault is logged, not raised.
     */
    method DrawDeviceMenu(selectedIndex: nat, env: Environment)
      modifies this, menu
      ensures menu.selectMenu == "device"
      ensures screen == if env.displayFails then old(screen) else Drawn(DeviceView, selectedIndex, env)
    {
      menu.selectMenu := "device";
      var devices := GetDeviceUsb(env.lsblk);
      var options := DeviceOptions(devices);
      var rows := DrawItems(options, selectedIndex);
      if !env.displayFails {
        screen := MenuList(rows);
      }
    }

    /**
     * `draw_web_selected`: shows the confirmation, then redraws the web menu at
     * `index`. It names no menu itself, and its first push to the display is
     * outside any `try`: a display fault leaves the menu as it was and propagates.
     */
    method DrawWebSelected(index: nat, env: Environment) returns (raised: bool)
      modifies this, menu
      ensures raised == env.displayFails
      ensures env.displayFails ==> menu.selectMenu == old(menu.selectMenu) && screen == old(screen)
      ensures !env.displayFails ==> menu.selectMenu == "web" && screen == Drawn(WebView, index, env)
    {
      if env.displayFails {
        return true;
      }
      screen := WebSelectedNotice;
      raised := DrawWebMenu(index, env);
    }

    /**
     * `draw_network_information`: names the network menu before fetching the SSID,
     * the password and the QR code, so the menu is "red" whatever those do. A
     * display fault is logged, not raised.
     */
    method DrawNetworkInformation(env: Environment)
      modifies this, menu
      ensures menu.selectMenu == "red"
      ensures screen == if env.displayFails then old(screen) else Drawn(NetworkView, 0, env)
    {
      menu.selectMenu := "red";
      var ssid := SsidOf(env.ssid);
      var password := PasswordAccessPoint(env.psk);
      var payload := WifiQrPayload(ssid, password);
      if !env.displayFails {
        screen := NetworkInfo(ssid, password, payload);
      }
    }

    /** The drawing method for `v`, as the navigation loop passes it around. */
    method Draw(v: View, selectedIndex: nat, env: Environment) returns (raised: bool)
      modifies this, menu
      ensures menu.selectMenu == MenuName(v) && raised == Raises(v, env)
      ensures screen == if env.displayFails then old(screen) else Drawn(v, selectedIndex, env)
    {
      raised := false;
      match v {
        case MainView => raised := DrawMainMenu(selectedIndex, env);
        case WebView => raised := DrawWebMenu(selectedIndex, env);
        case DeviceView => DrawDeviceMenu(selectedIndex, env);
        case NetworkView => DrawNetworkInformation(env);
      }
    }
  }
}
