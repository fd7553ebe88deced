/**
 * The menu state (interface/menu.py): the name of the menu on screen, which the
 * drawing methods overwrite, and the fixed option lists of the two static menus.
 */
module Menus {

  /** The main menu's options, top to bottom. */
  const MAIN_MENU_ITEMS: seq<string> :=
    ["Mount/Unmount USB", "Web Templates", "Network Information", "Restart Server", "Shutdown Server"]

  /** The web templates submenu's options, top to bottom. */
  const WEB_MENU_ITEMS: seq<string> := ["Terminal", "CyberPunk", "Back"]

  class Menu {
    /** The menu on screen: "" until the first drawing, then "main", "web", "device" or "red". */
    var selectMenu: string
    const mainMenuItems: seq<string> := MAIN_MENU_ITEMS
    const webMenuItems: seq<string> := WEB_MENU_ITEMS

    /** A fresh menu names no menu yet. */
    constructor()
      ensures selectMenu == ""
    {
      selectMenu := "";
    }

    /** `get_len_main_menu_items`: the main menu has five options. */
    function GetLenMainMenuItems(): (n: nat)
      ensures n == |mainMenuItems| == 5
    {
      |mainMenuItems|
    }

    /** `get_len_web_menu_items`: the web menu has three options, the last one "Back". */
    function GetLenWebMenuItems(): (n: nat)
      ensures n == |webMenuItems| == 3
      ensures webMenuItems[n - 1] == "Back"
    {
      |webMenuItems|
    }
  }
}
