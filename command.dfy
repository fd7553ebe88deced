/**
 * The system-command layer of the appliance (interface/command.py). The shell
 * commands themselves are outside the model: each command's captured output is
 * a parameter, `None` standing for a command that raised (a non-zero exit seen
 * by `check_output`, or a program that could not be started). What is modelled
 * is the parsing of those outputs and the choice of side effect.
 */
module Commands {
  import opened Wrappers
  import opened PyText

  /** The text every reader returns when its command fails. */
  const NOT_AVAILABLE: string := "Not available"

  /** A side effect the appliance asks the host to perform. */
  datatype Effect =
    | NoEffect
    | Reboot
    | Shutdown
    | UpdateWebsite(template: string)
    | Mount(index: nat)
    | Unmount(index: nat)

  // ---------------------------------------------------------------- get_SSID

  /** `get_SSID`: the trimmed output of the SSID query. */
  function SsidOf(out: Option<string>): (ssid: string)
    ensures out.None? ==> ssid == NOT_AVAILABLE
    ensures out.Some? ==> |ssid| <= |out.value|
  {
    match out
    case None => NOT_AVAILABLE
    case Some(text) => Strip(text)
  }

  /** An SSID that starts and ends with non-whitespace is read back from any padded output. */
  lemma SsidRoundTrip(before: string, ssid: string, after: string)
    requires AllSpace(before) && AllSpace(after)
    requires ssid == [] || (!IsSpace(ssid[0]) && !IsSpace(ssid[|ssid| - 1]))
    ensures SsidOf(Some(before + ssid + after)) == ssid
  {
    StripPadded(before, ssid, after);
  }

  // ------------------------------------------------ get_password_access_point

  /**
   * `get_password_access_point`: everything after the first `=` of the `grep psk=`
   * output, trimmed; "Not available" when grep failed or no `=` occurs (Python's
   * `IndexError`).
   */
  function PasswordAccessPoint(grepOut: Option<string>): (password: string)
    ensures grepOut.None? ==> password == NOT_AVAILABLE
    ensures grepOut.Some? && '=' !in grepOut.value ==> password == NOT_AVAILABLE
    ensures grepOut.Some? && '=' in grepOut.value ==> |password| < |grepOut.value|
  {
    match grepOut
    case None => NOT_AVAILABLE
    case Some(content) =>
      match After(content, '=')
      case None => NOT_AVAILABLE
      case Some(value) => Strip(value)
  }

  /** A `key=password` line, padded with whitespace after, yields the password. */
  lemma PasswordRoundTrip(key: string, password: string, padding: string)
    requires '=' !in key
    requires AllSpace(padding)
    requires password == [] || (!IsSpace(password[0]) && !IsSpace(password[|password| - 1]))
    ensures PasswordAccessPoint(Some(key + "=" + password + padding)) == password
  {
    var line := key + "=" + password + padding;
    assert line == key + ['='] + (password + padding);
    BeforeSep(key, '=', password + padding);
    StripTrailing(password, padding);
  }

  lemma StripTrailing(password: string, padding: string)
    requires AllSpace(padding)
    requires password == [] || (!IsSpace(password[0]) && !IsSpace(password[|password| - 1]))
    ensures Strip(password + padding) == password
  {
    StripPadded([], password, padding);
    assert [] + password + padding == password + padding;
  }

  // ------------------------------------------------------ get_ip_access_point

  /**
   * `get_ip_access_point`: the fourth whitespace token of the `ip -o -4 addr` output
   * cut at its first `/`; "Not available" when the command could not run or the
   * output has fewer than four tokens (Python's `IndexError`).
   */
  function IpAccessPoint(ipOut: Option<string>): (ip: string)
    ensures ipOut.None? ==> ip == NOT_AVAILABLE
    ensures ipOut.Some? && |Split(ipOut.value)| < 4 ==> ip == NOT_AVAILABLE
    ensures ipOut.Some? && |Split(ipOut.value)| >= 4 ==> '/' !in ip && NoSpace(ip)
  {
    match ipOut
    case None => NOT_AVAILABLE
    case Some(out) =>
      var tokens := Split(out);
      if |tokens| < 4 then NOT_AVAILABLE
      else
        var ip := Before(tokens[3], '/');
        assert forall k :: 0 <= k < |ip| ==> ip[k] == tokens[3][k];
        ip
  }

  /**
   * An `ip` line whose fourth token is `address/prefix` yields the address, however
   * its columns are padded and whatever whitespace (the final newline) ends it.
   */
  lemma IpRoundTrip(tokens: seq<string>, gaps: seq<string>, tail: string, address: string, prefix: string)
    requires |gaps| == |tokens| >= 4 && Gaps(gaps) && AllSpace(tail)
    requires forall k :: 0 <= k < |tokens| ==> IsWord(tokens[k])
    requires tokens[3] == address + "/" + prefix && '/' !in address
    ensures IpAccessPoint(Some(Weave(tokens, gaps) + tail)) == address
  {
    SplitWeave(tokens, gaps, tail);
    IpOfTokens(Weave(tokens, gaps) + tail, tokens, address, prefix);
  }

  /** A padded line ended by its newline, as `ip -o -4 addr` starts one, yields its address. */
  lemma IpLineExample()
    ensures IpAccessPoint(Some("3:" + " " + "wlan0" + "    " + "inet" + " " + "10.42.0.1/24" + "\n")) == "10.42.0.1"
  {
    var tokens := ["3:", "wlan0", "inet", "10.42.0.1/24"];
    assert "10.42.0.1/24" == "10.42.0.1" + "/" + "24";
    assert forall k :: 0 <= k < |tokens| ==> IsWord(tokens[k]);
    IpRoundTrip(tokens, ["", " ", "    ", " "], "\n", "10.42.0.1", "24");
    WeaveFour("3:", "wlan0", "inet", "10.42.0.1/24", " ", "    ", " ");
  }

  /** The address read from an output whose tokens are known. */
  lemma IpOfTokens(out: string, tokens: seq<string>, address: string, prefix: string)
    requires Split(out) == tokens && |tokens| >= 4
    requires tokens[3] == address + "/" + prefix && '/' !in address
    ensures IpAccessPoint(Some(out)) == address
  {
    assert tokens[3] == address + ['/'] + prefix;
    BeforeSep(address, '/', prefix);
  }

  // ------------------------------------------------------ get_qr_access_point

  /** The fixed text in front of the SSID and between the SSID and the password. */
  const QR_HEAD: string := "WIFI:S:"
  const QR_MIDDLE: string := ";T:WPA;P:"

  /** `get_qr_access_point`: the Wi-Fi QR payload, fields inserted without escaping. */
  function WifiQrPayload(ssid: string, password: string): (payload: string)
  {
    QR_HEAD + ssid + QR_MIDDLE + password + ";;"
  }

  /** Reads the SSID (up to the first `;`) and the password back from a payload. */
  function ParseWifiQr(payload: string): (r: Option<(string, string)>)
  {
    match DropPrefix(QR_HEAD, payload)
    case None => None
    case Some(body) =>
      var ssid := Before(body, ';');
      match DropPrefix(QR_MIDDLE, body[|ssid|..])
      case None => None
      case Some(tail) =>
        match DropSuffix(";;", tail)
        case None => None
        case Some(password) => Some((ssid, password))
  }

  /** Whenever the SSID holds no `;`, a phone reading the QR code recovers both fields. */
  lemma WifiQrRoundTrip(ssid: string, password: string)
    requires ';' !in ssid
    ensures ParseWifiQr(WifiQrPayload(ssid, password)) == Some((ssid, password))
  {
    var tail := password + ";;";
    var rest := QR_MIDDLE + tail;
    var body := ssid + rest;
    assert WifiQrPayload(ssid, password) == QR_HEAD + body;
    DropPrefixOf(QR_HEAD, body);
    assert body == ssid + [';'] + rest[1..];
    BeforeSep(ssid, ';', rest[1..]);
    assert body[|ssid|..] == rest;
    DropPrefixOf(QR_MIDDLE, tail);
    DropSuffixOf(";;", password);
  }

  /**
   * Without escaping, an SSID that holds `;T:WPA;P:` gives the same payload as a
   * shorter SSID, and the payload reads back as the shorter one.
   */
  lemma WifiQrAmbiguous(ssid: string, tail: string, password: string)
    requires ';' !in ssid
    ensures var long := ssid + QR_MIDDLE + tail;
      && WifiQrPayload(long, password) == WifiQrPayload(ssid, tail + QR_MIDDLE + password)
      && ParseWifiQr(WifiQrPayload(long, password)) != Some((long, password))
  {
    var long := ssid + QR_MIDDLE + tail;
    assert WifiQrPayload(long, password) == WifiQrPayload(ssid, tail + QR_MIDDLE + password);
    WifiQrRoundTrip(ssid, tail + QR_MIDDLE + password);
    assert |long| > |ssid|;
  }

  // ----------------------------------------------------------- get_device_usb

  /** One record of `get_device_usb`: the columns of one filtered `lsblk` line. */
  datatype Device = Device(name: string, size: string, fstype: string, mountpoint: Option<string>)

  /** Python truthiness of the record's MOUNTPOINT: present and non-empty. */
  predicate Mounted(d: Device) {
    d.mountpoint.Some? && d.mountpoint.value != []
  }

  /**
   * The two tree-drawing characters the source strips from the front of a name:
   * `└` and `─`. The other ones `lsblk` prints (`├`, `│`) are kept.
   */
  const TREE_CHARS: set<char> := {'\U{2514}', '\U{2500}'}

  /**
   * The record one output line yields: lines with fewer than three fields yield
   * none; NAME loses its leading tree characters; MOUNTPOINT is the fourth field
   * when there is one.
   */
  function DeviceOfLine(line: string): (r: Option<Device>)
    ensures r.Some? <==> |Split(line)| >= 3
    ensures r.Some? ==> r.value.name == [] || r.value.name[0] !in TREE_CHARS
    ensures r.Some? ==> IsWord(r.value.size) && IsWord(r.value.fstype)
    ensures r.Some? ==> (r.value.mountpoint.Some? <==> |Split(line)| > 3)
  {
    var parts := Split(line);
    if |parts| >= 3 then
      Some(Device(LStrip(parts[0], TREE_CHARS), parts[1], parts[2], if |parts| > 3 then Some(parts[3]) else None))
    else None
  }

  /** The record of one line, as a sequence of zero or one records. */
  function RecordOf(line: string): (r: seq<Device>)
    ensures |r| <= 1
  {
    match DeviceOfLine(line)
    case Some(d) => [d]
    case None => []
  }

  /** The records of a sequence of lines, in line order. */
  function Records(lines: seq<string>): (devices: seq<Device>)
    ensures |devices| <= |lines|
  {
    if lines == [] then []
    else
      RecordOf(lines[0]) + Records(lines[1..])
  }

  /** What `get_device_usb` returns for a given `lsblk` output (`None`: the command failed). */
  function DeviceList(lsblkOut: Option<string>): seq<Device>
  {
    match lsblkOut
    case None => []
    case Some(out) => Records(Lines(out))
  }

  /** The records of two runs of lines are the records of each, in order. */
  lemma {:induction false} RecordsAppend(a: seq<string>, b: seq<string>)
    ensures Records(a + b) == Records(a) + Records(b)
  {
    if a != [] {
      var head := RecordOf(a[0]);
      assert (a + b)[0] == a[0];
      assert (a + b)[1..] == a[1..] + b;
      assert Records(a + b) == head + Records(a[1..] + b);
      RecordsAppend(a[1..], b);
      assert Records(a) == head + Records(a[1..]);
      assert head + (Records(a[1..]) + Records(b)) == (head + Records(a[1..])) + Records(b);
    } else {
      assert a + b == b;
    }
  }

  /** Taking one more line adds that line's record, if it has one, at the end. */
  lemma RecordsSnoc(lines: seq<string>, k: nat)
    requires k < |lines|
    ensures DeviceOfLine(lines[k]).Some? ==> Records(lines[..k + 1]) == Records(lines[..k]) + [DeviceOfLine(lines[k]).value]
    ensures DeviceOfLine(lines[k]).None? ==> Records(lines[..k + 1]) == Records(lines[..k])
  {
    assert lines[..k + 1] == lines[..k] + [lines[k]];
    RecordsAppend(lines[..k], [lines[k]]);
    assert [lines[k]][1..] == [];
  }

  /** Each record comes from some line, and each line with three fields gives a record. */
  lemma {:induction false} RecordsFromLines(lines: seq<string>)
    ensures forall d :: d in Records(lines) ==> exists k :: 0 <= k < |lines| && DeviceOfLine(lines[k]) == Some(d)
    ensures forall k :: 0 <= k < |lines| && DeviceOfLine(lines[k]).Some? ==> DeviceOfLine(lines[k]).value in Records(lines)
  {
    if lines != [] {
      RecordsFromLines(lines[1..]);
      RecordsSourcedStep(lines);
      RecordsCompleteStep(lines);
    }
  }

  lemma RecordsSourcedStep(lines: seq<string>)
    requires lines != []
    requires forall d :: d in Records(lines[1..]) ==> exists k :: 0 <= k < |lines[1..]| && DeviceOfLine(lines[1..][k]) == Some(d)
    ensures forall d :: d in Records(lines) ==> exists k :: 0 <= k < |lines| && DeviceOfLine(lines[k]) == Some(d)
  {
    var head := RecordOf(lines[0]);
    assert Records(lines) == head + Records(lines[1..]);
    forall d | d in Records(lines)
      ensures exists k :: 0 <= k < |lines| && DeviceOfLine(lines[k]) == Some(d)
    {
      if d in head {
        assert DeviceOfLine(lines[0]) == Some(d);
      } else {
        var k :| 0 <= k < |lines[1..]| && DeviceOfLine(lines[1..][k]) == Some(d);
        assert lines[k + 1] == lines[1..][k];
      }
    }
  }

  lemma RecordsCompleteStep(lines: seq<string>)
    requires lines != []
    requires forall k :: 0 <= k < |lines[1..]| && DeviceOfLine(lines[1..][k]).Some? ==> DeviceOfLine(lines[1..][k]).value in Records(lines[1..])
    ensures forall k :: 0 <= k < |lines| && DeviceOfLine(lines[k]).Some? ==> DeviceOfLine(lines[k]).value in Records(lines)
  {
    assert Records(lines) == RecordOf(lines[0]) + Records(lines[1..]);
    forall k | 0 <= k < |lines| && DeviceOfLine(lines[k]).Some?
      ensures DeviceOfLine(lines[k]).value in Records(lines)
    {
      if k > 0 {
        assert lines[k] == lines[1..][k - 1];
      }
    }
  }

  /** `get_device_usb`: one record per output line with at least three fields, in order. */
  method GetDeviceUsb(lsblkOut: Option<string>) returns (devices: seq<Device>)
    ensures devices == DeviceList(lsblkOut)
  {
    if lsblkOut.None? {
      return [];
    }
    var lines := Lines(lsblkOut.value);
    devices := CollectRecords(lines);
  }

  /** The loop of `get_device_usb` over the output lines: each record is appended in turn. */
  method CollectRecords(lines: seq<string>) returns (devices: seq<Device>)
    ensures devices == Records(lines)
  {
    devices := [];
    var k := 0;
    while k < |lines|
      invariant 0 <= k <= |lines|
      invariant devices == Records(lines[..k])
    {
      RecordsSnoc(lines, k);
      var record := DeviceOfLine(lines[k]);
      if record.Some? {
        devices := devices + [record.value];
      }
      k := k + 1;
    }
    assert lines[..k] == lines;
  }


  /** `get_devices_len`: the number of records `get_device_usb` returns. */
  method GetDevicesLen(lsblkOut: Option<string>) returns (n: nat)
    ensures n == |DeviceList(lsblkOut)|
    ensures lsblkOut.None? ==> n == 0
  {
    var devices := GetDeviceUsb(lsblkOut);
    n := |devices|;
  }

  /** A record whose fields are what `lsblk` prints: words, the name without tree characters. */
  predicate Printable(d: Device) {
    && IsWord(d.name) && d.name[0] !in TREE_CHARS
    && IsWord(d.size) && IsWord(d.fstype)
    && (d.mountpoint.Some? ==> IsWord(d.mountpoint.value))
  }

  /** The fields of the `lsblk` line that describes `d`, its name prefixed by `tree`. */
  function Fields(d: Device, tree: string): (fields: seq<string>)
    ensures |fields| == if d.mountpoint.Some? then 4 else 3
  {
    [tree + d.name, d.size, d.fstype] + (match d.mountpoint case Some(m) => [m] case None => [])
  }

  /**
   * How one `lsblk` line is laid out around its fields: the tree characters in
   * front of the name, the whitespace before each field (`lsblk` pads its columns)
   * and the whitespace after the last one.
   */
  datatype Layout = Layout(tree: string, gaps: seq<string>, tail: string)

  /** `p` is a layout `lsblk` can give the line of `d`. */
  predicate Fits(d: Device, p: Layout) {
    && (forall k :: 0 <= k < |p.tree| ==> p.tree[k] in TREE_CHARS)
    && |p.gaps| == |Fields(d, p.tree)|
    && Gaps(p.gaps) && AllSpace(p.tail)
  }

  /** The padding of `p` holds no line break, so the line stays one line of the output. */
  predicate OneLine(p: Layout) {
    && (forall i :: 0 <= i < |p.gaps| ==> NoBreak(p.gaps[i]))
    && NoBreak(p.tail)
  }

  /** The `lsblk` line of `d` laid out as `p`. */
  function Line(d: Device, p: Layout): string
    requires |p.gaps| == |Fields(d, p.tree)|
  {
    Weave(Fields(d, p.tree), p.gaps) + p.tail
  }

  /**
   * Parsing the `lsblk` line of a record, however its columns are padded and its
   * name preceded by any run of the two stripped characters, gives the record back.
   */
  lemma DeviceLineRoundTrip(d: Device, p: Layout)
    requires Printable(d) && Fits(d, p)
    ensures DeviceOfLine(Line(d, p)) == Some(d)
  {
    var fields := Fields(d, p.tree);
    TreeNameIsWord(d.name, p.tree);
    assert fields[0] == p.tree + d.name && fields[1] == d.size && fields[2] == d.fstype;
    assert d.mountpoint.Some? ==> fields[3] == d.mountpoint.value;
    assert forall k :: 0 <= k < |fields| ==> IsWord(fields[k]);
    SplitWeave(fields, p.gaps, p.tail);
    LStripPrefix(p.tree, d.name, TREE_CHARS);
  }

  /** A line as `lsblk` prints it, two spaces and three spaces wide in places, reads back. */
  lemma PaddedLineExample()
    ensures DeviceOfLine("\U{2514}\U{2500}" + "sda1" + "  " + "7.5G" + " " + "vfat" + "   " + "/media/usb")
      == Some(Device("sda1", "7.5G", "vfat", Some("/media/usb")))
  {
    var d := Device("sda1", "7.5G", "vfat", Some("/media/usb"));
    var p := Layout("\U{2514}\U{2500}", ["", "  ", " ", "   "], "");
    assert Printable(d);
    assert Fits(d, p);
    var line := Line(d, p);
    DeviceLineRoundTrip(d, p);
    assert Fields(d, p.tree) == [p.tree + d.name, d.size, d.fstype, d.mountpoint.value];
    assert line == Weave(Fields(d, p.tree), p.gaps) + [] == Weave(Fields(d, p.tree), p.gaps);
    WeaveFour("\U{2514}\U{2500}" + "sda1", "7.5G", "vfat", "/media/usb", "  ", " ", "   ");
  }

  lemma TreeNameIsWord(name: string, tree: string)
    requires IsWord(name)
    requires forall k :: 0 <= k < |tree| ==> tree[k] in TREE_CHARS
    ensures IsWord(tree + name)
  {
    forall k | 0 <= k < |tree + name| ensures !IsSpace((tree + name)[k]) {
      if k < |tree| {
        assert tree[k] in TREE_CHARS;
      } else {
        assert (tree + name)[k] == name[k - |tree|];
      }
    }
  }

  /** The lines `lsblk` prints for `devices`, the i-th laid out as `layouts[i]`. */
  function Table(devices: seq<Device>, layouts: seq<Layout>): (lines: seq<string>)
    requires |layouts| == |devices|
    requires forall i :: 0 <= i < |devices| ==> Fits(devices[i], layouts[i])
    ensures |lines| == |devices|
  {
    if devices == [] then []
    else
      assert Fits(devices[0], layouts[0]);
      [Line(devices[0], layouts[0])] + Table(devices[1..], layouts[1..])
  }

  /** A listing that `lsblk` could print: every record printable, every line one line. */
  predicate Listing(devices: seq<Device>, layouts: seq<Layout>) {
    && |layouts| == |devices|
    && (forall i :: 0 <= i < |devices| ==> Printable(devices[i]) && Fits(devices[i], layouts[i]))
    && (forall i :: 0 <= i < |layouts| ==> OneLine(layouts[i]))
  }

  /** Every line of a table gives its record back. */
  lemma {:induction false} RecordsOfTable(devices: seq<Device>, layouts: seq<Layout>)
    requires Listing(devices, layouts)
    ensures Records(Table(devices, layouts)) == devices
  {
    if devices != [] {
      ListingCons(devices, layouts);
      var first := Line(devices[0], layouts[0]);
      var rest := Table(devices[1..], layouts[1..]);
      DeviceLineRoundTrip(devices[0], layouts[0]);
      RecordsOfTable(devices[1..], layouts[1..]);
      RecordsCons(first, rest, devices[0]);
      HeadTail(devices);
    }
  }

  /** A listing is its first line in front of the listing of the others. */
  lemma ListingCons(devices: seq<Device>, layouts: seq<Layout>)
    requires Listing(devices, layouts) && devices != []
    ensures Printable(devices[0]) && Fits(devices[0], layouts[0])
    ensures Listing(devices[1..], layouts[1..])
    ensures Table(devices, layouts) == [Line(devices[0], layouts[0])] + Table(devices[1..], layouts[1..])
  {
  }

  /** A line that yields `d`, in front of other lines, puts `d` in front of their records. */
  lemma RecordsCons(line: string, rest: seq<string>, d: Device)
    requires DeviceOfLine(line) == Some(d)
    ensures Records([line] + rest) == [d] + Records(rest)
  {
    assert ([line] + rest)[0] == line;
    assert ([line] + rest)[1..] == rest;
  }

  /**
   * `get_device_usb` reads back exactly the devices of a listing that prints them
   * one per line, columns padded, each name preceded by any run of `└` and `─`.
   */
  lemma DeviceListRoundTrip(devices: seq<Device>, layouts: seq<Layout>)
    requires Listing(devices, layouts)
    ensures DeviceList(Some(Join(Table(devices, layouts), "\n"))) == devices
  {
    if devices == [] {
      assert Lines([]) == [[]];
      assert DeviceOfLine([]) == None;
      assert Records([[]]) == RecordOf([]) + Records([]);
    } else {
      TableNoBreak(devices, layouts);
      LinesJoin(Table(devices, layouts));
      RecordsOfTable(devices, layouts);
    }
  }

  /**
   * The same for the output as `awk` passes it on, every line ended by a newline:
   * the empty piece after the last newline yields no record.
   */
  lemma DeviceListTerminatedRoundTrip(devices: seq<Device>, layouts: seq<Layout>)
    requires Listing(devices, layouts)
    ensures DeviceList(Some(Unlines(Table(devices, layouts)))) == devices
  {
    var table := Table(devices, layouts);
    TableNoBreak(devices, layouts);
    LinesUnlines(table);
    RecordsAppend(table, [[]]);
    assert DeviceOfLine([]) == None;
    assert Records([[]]) == RecordOf([]) + Records([]);
    RecordsOfTable(devices, layouts);
  }

  /**
   * A partition that is not the last of its disk is printed after `├─`. Only `└`
   * and `─` are stripped, so its name keeps the `├`.
   */
  lemma InnerPartitionKeepsBranch(name: string, size: string, fstype: string, gaps: seq<string>, tail: string)
    requires IsWord(name) && IsWord(size) && IsWord(fstype)
    requires |gaps| == 3 && Gaps(gaps) && AllSpace(tail)
    ensures DeviceOfLine(Weave(["\U{251C}\U{2500}" + name, size, fstype], gaps) + tail)
      == Some(Device("\U{251C}\U{2500}" + name, size, fstype, None))
  {
    var branch := "\U{251C}\U{2500}" + name;
    assert IsWord(branch) by {
      forall k | 0 <= k < |branch| ensures !IsSpace(branch[k]) {
        if k >= 2 {
          assert branch[k] == name[k - 2];
        }
      }
    }
    var d := Device(branch, size, fstype, None);
    assert Printable(d);
    assert [] + branch == branch;
    assert Fields(d, []) == [branch, size, fstype];
    DeviceLineRoundTrip(d, Layout([], gaps, tail));
  }

  lemma {:induction false} TableNoBreak(devices: seq<Device>, layouts: seq<Layout>)
    requires Listing(devices, layouts)
    ensures forall i :: 0 <= i < |devices| ==> NoBreak(Table(devices, layouts)[i])
  {
    if devices != [] {
      assert Listing(devices[1..], layouts[1..]);
      TableNoBreak(devices[1..], layouts[1..]);
      var d, p := devices[0], layouts[0];
      TreeNameIsWord(d.name, p.tree);
      var fields := Fields(d, p.tree);
      assert forall k :: 0 <= k < |fields| ==> IsWord(fields[k]);
      WeaveNoBreak(fields, p.gaps);
      NoBreakAppend(Weave(fields, p.gaps), p.tail);
      var table := Table(devices, layouts);
      forall i | 0 <= i < |devices| ensures NoBreak(table[i]) {
        if i > 0 {
          assert table[i] == Table(devices[1..], layouts[1..])[i - 1];
        }
      }
    }
  }

  // ------------------------------------------------------------ custom_device

  /**
   * `custom_device`: unmount the indexed device when it is mounted, mount it
   * otherwise; an index outside the listing raises `IndexError`, which is logged,
   * and nothing is done.
   */
  function CustomDevice(devices: seq<Device>, index: nat): (effect: Effect)
    ensures effect == Unmount(index) <==> index < |devices| && Mounted(devices[index])
    ensures effect == Mount(index) <==> index < |devices| && !Mounted(devices[index])
    ensures effect == NoEffect <==> index >= |devices|
  {
    if index >= |devices| then NoEffect
    else if devices[index].mountpoint.Some? && devices[index].mountpoint.value != [] then Unmount(index)
    else Mount(index)
  }

  // ----------------------------------------------------------- update_website

  /** The placeholder the web templates carry for the access point's address. */
  const IP_PLACEHOLDER: string := "{{IP_LOCAL}}"

  /** `update_website`: the page written for a template, every placeholder replaced by the IP. */
  function IndexPage(template: string, ip: string): string
  {
    Replace(template, IP_PLACEHOLDER, ip)
  }

  /** Two occurrences of the placeholder cannot overlap: its only `{` characters open it. */
  lemma PlaceholderBorderless()
    ensures Borderless(IP_PLACEHOLDER)
  {
    var pat := IP_PLACEHOLDER;
    forall d | 0 < d < |pat| ensures pat[d..] != pat[..|pat| - d] {
      if d == 1 {
        assert pat[d..][1] == 'I' && pat[..|pat| - d][1] == '{';
      } else {
        assert pat[d] != '{';
        assert pat[d..][0] != pat[..|pat| - d][0];
      }
    }
  }

  /**
   * A template made of pieces that do not contain `{{IP_LOCAL}}`, separated by
   * placeholders, becomes the same pieces separated by the IP address: every
   * placeholder is replaced, nothing else changes, whatever braces the pieces hold.
   */
  lemma IndexPageFillsPlaceholders(pieces: seq<string>, ip: string)
    requires forall i :: 0 <= i < |pieces| ==> Absent(pieces[i], IP_PLACEHOLDER)
    ensures IndexPage(Join(pieces, IP_PLACEHOLDER), ip) == Join(pieces, ip)
  {
    PlaceholderBorderless();
    ReplaceJoin(pieces, IP_PLACEHOLDER, ip);
  }

  /** A style rule full of braces in front of the placeholder is left as it is. */
  lemma IndexPageKeepsStyle(ip: string)
    ensures IndexPage("body{color:red}" + IP_PLACEHOLDER + "</p>", ip) == "body{color:red}" + ip + "</p>"
  {
    var style := "body{color:red}";
    forall k | 0 <= k <= |style| ensures !MatchAt(style, k, IP_PLACEHOLDER) {
      if k + |IP_PLACEHOLDER| <= |style| {
        assert style[k..k + |IP_PLACEHOLDER|][0] == style[k] != '{';
      }
    }
    IndexPageFillsPlaceholders([style, "</p>"], ip);
    assert Join([style, "</p>"], IP_PLACEHOLDER) == style + IP_PLACEHOLDER + Join(["</p>"], IP_PLACEHOLDER);
    assert Join([style, "</p>"], ip) == style + ip + Join(["</p>"], ip);
  }
}
