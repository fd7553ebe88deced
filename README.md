# JellyBox menu engine in Dafny

JellyBox is a Raspberry Pi appliance with a small SPI display and three push
buttons (Up, Down, Select). Its main loop polls the buttons, moves a highlighted
index through the menu on screen, and on Select runs the entry's action: open
the USB device menu, the web template menu or the access point screen, reboot
or shut down the host, mount or unmount a USB stick, or install a web template.

This project models that loop and the string parsers that feed it, and proves
properties of the model:

- `wrappers.dfy` (`Wrappers`): the `Option` type standing for Python's `None`.
- `pytext.dfy` (`PyText`): the Python `str` operations the parsers use, written out
  over `seq<char>`: `isspace`, `split()`, `strip()`, `lstrip(chars)`, `splitlines()`,
  `split(sep)[0]`, `split(sep, 1)[1]`, `endswith`, `join` and `replace`. The
  splitting, stripping and replacing operations are proved against their inverse
  or a characterisation. `split()` in particular is inverse to laying words out
  in columns padded by any runs of whitespace (`Weave`), as `lsblk` and `ip`
  print them. `isspace`, `endswith` and `join` are plain definitions that those
  proofs build on.
- `command.dfy` (`Commands`): interface/command.py. Command outputs are parameters
  (`None` when the command raised). It covers the `lsblk` line parser (`GetDeviceUsb`,
  a loop proved equal to a specification function and inverse to the listing's
  printer), `custom_device`'s mount/unmount choice, the SSID, password and IP
  extraction, the Wi-Fi QR payload, and the template placeholder replacement.
- `button_controller.dfy` (`Buttons`): pull-up pin reads and the wrap-around step of
  `handle_navigation`, with what repeated presses do.
- `menu.dfy` (`Menus`): the `Menu` class (the `select_menu` field and the fixed option lists).
- `interface.dfy` (`UserInterface`): the `Interface` class. Each menu drawing writes
  `select_menu` and then redraws the screen; `draw_web_selected` writes no name
  itself and ends by drawing the web menu. A screen is modelled as its option
  rows with the highlighted one marked, or as the access point details.
- `button_action.dfy` (`Actions`): the dispatch tables and the `ButtonAction` class.
- `engine.dfy` (`NavigationEngine`): one poll of the main loop as a function
  `Step` on (menu name, index, screen). It holds the lemmas about the state
  machine: an invariant kept by every run, the reset rule, what Select leads to
  in each menu, display-fault behaviour, and a full scenario.
- `main.dfy` (`MainLoop`): the `JellyBox` class. It holds `selected_index`, with
  `HandleMenu`, `Tick` and `Loop` methods proved to implement `Step` and `Run`.

Each poll reads an `Environment`. It holds the outputs of `lsblk`, of the SSID
query and of the `psk=` grep, plus a flag saying whether pushing a frame to the
display raises. A display fault is placed where the source pushes the frame
(`disp.image`). By then the menu drawing has already written the menu name.
The main and web menu drawings let the exception propagate. The device menu and
the network screen catch and log it. `draw_web_selected` raises at its first push,
before it redraws the web menu.

Three behaviours of the code are kept as written:

- The device menu is always entered at index 0 (main item 0 draws it at 0, and
  the menu change resets the index). But when a device disappears between two
  polls while the menu stays open, the stored index can lie past the new listing,
  and nothing clamps it. Up and Down take it modulo the item count
  (`HandleNavigation`). Select passes it to `custom_device`, which does nothing
  for it (`DeviceMenuSelect`).
- Choosing a web template keeps the web index at the template's row. It is not
  reset to 0 (`WebMenuSelect`).
- The device name loses only leading `└` and `─` characters. `lsblk` draws a
  partition that is not the last of its disk as `├─sdb1`, and that record keeps
  the name `├─sdb1` (`InnerPartitionKeepsBranch`).

## Model

| member | source | states |
|---|---|---|
| PyText.Split | interface/command.py:84 | every token of `str.split()` is non-empty and free of whitespace |
| PyText.Weave | interface/command.py:84 | definition of a column layout: each word after its whitespace gap; its properties are `SplitWeave` and `WeaveNoBreak` |
| PyText.WordThen | interface/command.py:84 | a word followed by nothing or by whitespace splits off as the first token |
| PyText.SplitWeave | interface/command.py:84 | splitting words padded by any whitespace gaps (the first possibly empty, the others not) and followed by any whitespace gives the words back |
| PyText.WeaveNoBreak | interface/command.py:83-84 | words padded by gaps free of line breaks form a single line |
| PyText.Strip | interface/command.py:30 | `strip()` is no longer than its input and neither starts nor ends with whitespace; its round trip is `StripPadded` |
| PyText.StripPadded | interface/command.py:30 | `strip()` recovers a text from any whitespace padding on either side |
| PyText.LStrip | interface/command.py:87 | `lstrip(chars)` keeps a suffix, every removed character is in `chars`, and the result does not start with one |
| PyText.LStripPrefix | interface/command.py:87 | `lstrip(chars)` removes exactly a leading run of `chars` |
| PyText.Before | interface/command.py:55 | `split(sep)[0]` is the longest `sep`-free prefix |
| PyText.After | interface/command.py:43 | `split(sep, 1)[1]` exists iff `sep` occurs, and the text is prefix + `sep` + result |
| PyText.BeforeSep | interface/command.py:43 | splitting `a + sep + t` at the first `sep` gives back `a` and `t` when `a` has no `sep` |
| PyText.Lines | interface/command.py:83 | `splitlines()` pieces contain no line break |
| PyText.LinesJoin | interface/command.py:83 | splitting lines joined by newlines gives the lines back |
| PyText.LinesUnlines | interface/command.py:83 | splitting newline-terminated lines gives the lines back, then one empty piece |
| PyText.Replace | interface/command.py:162 | definition of `str.replace` scanning left to right; its properties are `ReplacePassesOver` and `ReplaceJoin` |
| PyText.ReplacePassesOver | interface/command.py:162 | text in which no occurrence of the pattern starts is copied unchanged by `replace` |
| PyText.NoStraddle | interface/command.py:162 | an occurrence of a pattern that cannot overlap itself never straddles a piece and the next occurrence |
| PyText.ReplaceJoin | interface/command.py:162 | for a pattern that cannot overlap itself, `replace` swaps every occurrence and changes nothing else |
| Commands.SsidOf | interface/command.py:22-33 | the SSID is the trimmed output, "Not available" when the query fails |
| Commands.SsidRoundTrip | interface/command.py:30 | an SSID padded with any whitespace is read back exactly |
| Commands.PasswordAccessPoint | interface/command.py:35-46 | "Not available" when grep fails or no `=` occurs; otherwise shorter than the line |
| Commands.PasswordRoundTrip | interface/command.py:43 | a `key=password` line with trailing whitespace yields exactly the password |
| Commands.IpAccessPoint | interface/command.py:48-58 | "Not available" below four tokens; otherwise a `/`-free, whitespace-free token |
| Commands.IpRoundTrip | interface/command.py:55 | an `ip` line whose fourth token is `address/prefix` yields the address, however its columns are padded and whatever whitespace, such as the final newline, ends it |
| Commands.IpLineExample | interface/command.py:52-55 | a padded, newline-terminated line `3: wlan0    inet 10.42.0.1/24` yields `10.42.0.1` |
| Commands.WifiQrPayload | interface/command.py:68 | definition of the `WIFI:S:...;T:WPA;P:...;;` payload; its properties are `WifiQrRoundTrip` and `WifiQrAmbiguous` |
| Commands.WifiQrRoundTrip | interface/command.py:67-68 | the QR payload reads back as (SSID, password) whenever the SSID has no `;` |
| Commands.WifiQrAmbiguous | interface/command.py:68 | without escaping, an SSID holding `;T:WPA;P:` gives the same payload as a shorter SSID |
| Commands.DeviceOfLine | interface/command.py:84-91 | a record iff the line has at least 3 fields; name without leading tree characters; mount point iff a 4th field |
| Commands.Records | interface/command.py:83-92 | at most one record per line |
| Commands.RecordsAppend | interface/command.py:83-92 | records keep line order: the records of two runs of lines are concatenated |
| Commands.RecordsFromLines | interface/command.py:83-92 | each record comes from some line, and each line with three fields contributes its record |
| Commands.CollectRecords | interface/command.py:83-91 | the loop over the lines returns their records in line order (invariant: the records of the lines read so far) |
| Commands.GetDeviceUsb | interface/command.py:74-95 | the loop returns the records of the output lines, in order; a failed command yields [] |
| Commands.GetDevicesLen | interface/command.py:97-101 | the count is the length of that list, 0 when the command fails |
| Commands.DeviceLineRoundTrip | interface/command.py:84-91 | parsing the line printed for a device, its columns padded by any runs of whitespace, its name after any run of `└` and `─`, gives the device back |
| Commands.PaddedLineExample | interface/command.py:84-91 | the `lsblk` line `└─sda1  7.5G vfat   /media/usb` reads as device `sda1`, `7.5G`, `vfat`, mounted at `/media/usb` |
| Commands.RecordsOfTable | interface/command.py:83-91 | the records of a table of padded device lines are exactly those devices, in order |
| Commands.DeviceListRoundTrip | interface/command.py:74-95 | a listing joining padded device lines by newlines, empty or not, is read back as exactly those devices |
| Commands.DeviceListTerminatedRoundTrip | interface/command.py:79-92 | the same for a listing that ends every padded line with a newline, as `awk` passes `lsblk`'s lines on |
| Commands.InnerPartitionKeepsBranch | interface/command.py:87 | a padded `├─` line keeps the `├─` in its name, since only `└` and `─` are stripped |
| Commands.CustomDevice | interface/command.py:137-148 | unmount iff the device is in range and mounted, mount iff in range and not mounted, nothing iff out of range |
| Commands.IndexPage | interface/command.py:162 | definition of the page filling; its properties are `IndexPageFillsPlaceholders` and `IndexPageKeepsStyle` |
| Commands.PlaceholderBorderless | interface/command.py:162 | two occurrences of `{{IP_LOCAL}}` cannot overlap |
| Commands.IndexPageFillsPlaceholders | interface/command.py:162 | in any template, every `{{IP_LOCAL}}` becomes the IP and the rest, braces included, is unchanged |
| Commands.IndexPageKeepsStyle | interface/command.py:162 | a CSS rule in front of the placeholder is copied and the placeholder alone is replaced |
| Buttons.IsPressed | input/button_controller.py:27-42 | pressed iff the pin reads low; a failed read is not pressed |
| Buttons.IsUpPressed | input/button_controller.py:44-51 | Up is pressed iff its pin reads low |
| Buttons.IsDownPressed | input/button_controller.py:53-60 | Down is pressed iff its pin reads low |
| Buttons.IsSelectPressed | input/button_controller.py:62-69 | Select is pressed iff its pin reads low |
| Buttons.HandleNavigation | input/button_controller.py:71-92 | redraw iff Up or Down; Up wins and gives (i - 1) mod n, wrapping 0 to n-1; Down gives (i + 1) mod n, wrapping n-1 to 0; the new index is in range even from a stale one; unchanged without a press |
| Buttons.RepeatDown | input/button_controller.py:88-89 | k Down presses move the index to (i + k) mod n |
| Buttons.RepeatUp | input/button_controller.py:84-85 | k Up presses move the index to (i - k) mod n |
| Buttons.FullCycle | input/button_controller.py:84-91 | n presses in one direction come back to the starting item |
| Buttons.UpDownInverse | input/button_controller.py:84-91 | Up undoes Down and Down undoes Up |
| Menus.Menu.constructor | interface/menu.py:6-21 | a fresh menu names no menu (`""`) |
| Menus.Menu.GetLenMainMenuItems | interface/menu.py:23-27 | the main menu has 5 options |
| Menus.Menu.GetLenWebMenuItems | interface/menu.py:29-33 | the web menu has 3 options, the last being "Back" |
| UserInterface.MenuName | interface/interface.py:61 | each drawing writes one of "main", "web", "device", "red" |
| UserInterface.MenuNameInjective | interface/interface.py:61 | two screens carry the same menu name only if they are the same screen |
| UserInterface.MarkSelected | interface/interface.py:68 | row k carries item k and is highlighted iff k is the selected index |
| UserInterface.HighlightVisible | interface/interface.py:66-73 | exactly one row is highlighted iff the index is in range |
| UserInterface.DeviceOptions | interface/interface.py:112-116 | one label per device in listing order, then "Back" |
| UserInterface.DeviceLabel | interface/interface.py:113 | definition of `USB-<name> <size>` plus ` Mounted`; its property is `DeviceLabelShowsMount` |
| UserInterface.DeviceLabelShowsMount | interface/interface.py:113 | a device label ends in " Mounted" iff the device has a mount point |
| UserInterface.Interface.constructor | interface/interface.py:21-31 | a fresh interface owns a fresh menu and a blank screen |
| UserInterface.Interface.DrawItems | interface/interface.py:66-73 | the option loop yields the marked rows |
| UserInterface.Interface.DrawMainMenu | interface/interface.py:55-75 | names "main"; shows the main options at the index, or raises and keeps the screen |
| UserInterface.Interface.DrawWebMenu | interface/interface.py:77-97 | names "web"; shows the web options at the index, or raises and keeps the screen |
| UserInterface.Interface.DrawDeviceMenu | interface/interface.py:99-129 | names "device" whatever happens; shows the device options at the index |
| UserInterface.Interface.DrawWebSelected | interface/interface.py:131-142 | ends in the web menu at the given index; on a display fault raises with menu and screen unchanged |
| UserInterface.Interface.DrawNetworkInformation | interface/interface.py:144-170 | names "red" whatever happens; shows SSID, password and their QR payload |
| Actions.MainActions | input/button_action.py:22-28 | the main table has entries exactly for 0..4 |
| Actions.WebActions | input/button_action.py:31-35 | the web table has entries exactly for 0..2; each template redraws at its own index |
| Actions.MainTransition | input/button_action.py:43-56 | an index outside the table does nothing |
| Actions.WebTransition | input/button_action.py:58-71 | an index outside the table does nothing |
| Actions.DeviceTransition | input/button_action.py:74-86 | always back to main at 0; Back touches no device; a listed device is mounted or unmounted |
| Actions.ButtonAction.constructor | input/button_action.py:9-19 | the actions use the given interface |
| Actions.ButtonAction.WebActionUpdateAndDraw | input/button_action.py:91-102 | requests the page update, then confirms and redraws the web menu |
| Actions.ButtonAction.ExecuteActionMain | input/button_action.py:43-56 | performs the main table's entry; faults do not propagate |
| Actions.ButtonAction.ExecuteActionWeb | input/button_action.py:58-71 | performs the web table's entry; faults do not propagate |
| Actions.ButtonAction.ExecuteActionDevice | input/button_action.py:74-86 | toggles the device unless Back, then draws main at 0; a display fault propagates |
| Actions.ButtonAction.ExecuteActionBack | input/button_action.py:88-89 | draws main at 0 |
| NavigationEngine.ListView | main.py:47-72 | only "main", "web" and "device" are list menus, each handled with its own view |
| NavigationEngine.ItemCount | main.py:52-68 | 5 for main, 3 for web, device count + 1 for the device menu |
| NavigationEngine.HandleMenuStep | main.py:19-33 | definition of `handle_menu` for one list menu; its properties are `ResetOnMenuChange`, `SelectActsOnNavigatedIndex` and `NavigationFaultAbandonsPoll` |
| NavigationEngine.Step | main.py:45-80 | definition of one loop pass; its properties are `StepPreservesInv`, `UnknownMenuIsInert`, `NetworkScreen` and the Select lemmas below |
| NavigationEngine.Init | main.py:40-41 | definition of the start state; its property is `InitShowsMain` |
| NavigationEngine.InitShowsMain | main.py:40-41 | the loop starts in "main" at index 0 with row 0 highlighted |
| NavigationEngine.StepPreservesInv | main.py:45-80 | a poll keeps the menu known, main below 5, web below 3 and "red" at 0 |
| NavigationEngine.RunPreservesInv | main.py:45-80 | every sequence of polls keeps that invariant |
| NavigationEngine.RunFromInit | main.py:35-80 | every run of the appliance satisfies the invariant |
| NavigationEngine.ResetOnMenuChange | main.py:29-31 | after Select the index is 0 iff the menu changed, else the navigated index, even when the action failed |
| NavigationEngine.SelectRedrawLeavesMenu | main.py:29-31 | a Select whose action draws a named menu always draws another screen, so the menu name changes and the index restarts at 0 |
| NavigationEngine.NavigationFaultAbandonsPoll | main.py:23 | a raising redraw in main or web abandons the poll: state unchanged, Select ignored |
| NavigationEngine.DeviceNavigationSurvivesFault | interface/interface.py:128-129 | in the device menu a display fault changes only what is on screen |
| NavigationEngine.FailedReadsAreInert | input/button_controller.py:40-42 | unreadable pins change nothing |
| NavigationEngine.UnknownMenuIsInert | main.py:47-80 | any other menu name, such as the initial "", makes a poll do nothing |
| NavigationEngine.NetworkScreen | main.py:73-80 | in "red" Up and Down are ignored; Select returns to main at 0 |
| NavigationEngine.MainEntry | input/button_action.py:22-28 | the menu each main entry draws and the effect it requests |
| NavigationEngine.MainMenuSelect | input/button_action.py:22-28 | main 0, 1, 2 open device, web, network at 0; 3 and 4 reboot and shut down in place |
| NavigationEngine.WebMenuSelect | input/button_action.py:31-35 | web 0 and 1 apply their template and stay at their row; 2 opens main at 0 |
| NavigationEngine.DeviceMenuSelect | input/button_action.py:82-86 | device Select returns to main at 0; Back touches nothing, a device is toggled, an index past a listing that shrank while the menu was open does nothing |
| NavigationEngine.SelectActsOnNavigatedIndex | main.py:23-26 | in every list menu, Select's effect, menu and screen are those of the entry at the navigated index, after the navigation redraw |
| NavigationEngine.SelectAfterNavigation | main.py:23-26 | an example: Down and Select together on main item 1 open the network screen |
| NavigationEngine.DisplayFaultOnlyAffectsScreen | main.py:25-31 | without a navigation redraw, a display fault leaves menu, index and effect as with a working display |
| NavigationEngine.NetworkRoundTrip | main.py:40-80 | Down, Down, Select, Select from the start returns to the initial state with no effects |
| NavigationEngine.Run | main.py:45-86 | a run yields one effect per poll |
| MainLoop.JellyBox.constructor | main.py:35-41 | the loop starts in the engine's initial state |
| MainLoop.JellyBox.Execute | main.py:24-28 | runs the current menu's dispatcher as the engine's transition |
| MainLoop.JellyBox.HandleMenu | main.py:19-33 | navigation, Select and the reset rule, as the engine's menu step |
| MainLoop.JellyBox.Tick | main.py:46-80 | one loop pass equals the engine's `Step` |
| MainLoop.JellyBox.Loop | main.py:45-86 | a sequence of passes equals the engine's `Run` |

## Left out

- interface/display.py (SPI bus, GPIO pins, backlight, image set-up) is not part of this model.
- Pixel rendering (colours, fonts, coordinates, the header with the IP, the QR image) is left out. A screen is only its option rows or the access point details.
- Shell commands (`nmcli`, `lsblk` with its `awk` size and file system filter, `ip`, `grep`) are not run. Their captured outputs are parameters.
- Mounting, unmounting, `/etc/fstab` edits, rebooting, shutting down and writing the web page are returned as `Effect` values. Their own behaviour is not modelled.
- `qrcode.make` and `save` are left out. Only the payload string is modelled.
- `time.sleep` debouncing and the two-second confirmation delay are wall-clock timing. They are left out, and the confirmation screen is overwritten within the same poll.
- Logging, `print` and the `KeyboardInterrupt` exit from the loop are left out. The infinite loop is modelled as a run over a finite sequence of polls.
- `device_actions` is left out. It names methods `Interface` does not have, and nothing calls it.
- `get_name_access_point` is left out. Its result only enters the SSID and password commands, whose outputs are parameters.
- Rendering faults other than a failing push to the display are left out, as are a failing QR image load and a failing display at start-up. The first drawing in `main` is modelled with a working display.
- One snapshot of the `lsblk` output serves every device listing within a poll. The source lists the devices several times per poll, so a device plugged in between two listings is not modelled.
- Buttons.HandleNavigation: requires a positive item count. Python would raise `ZeroDivisionError` for 0, but every caller passes 5, 3 or device count + 1.
- PyText.Replace: requires a non-empty pattern. The only pattern used is `{{IP_LOCAL}}`.
- PyText.Lines: splits at every line-break character and keeps empty pieces, including a last empty piece that `splitlines()` drops. Such pieces have fewer than three fields, so the device records are the same.
