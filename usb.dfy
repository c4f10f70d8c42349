/** The byte- and string-level logic of lib/usb.cpp. Every libusb call and
    every `readdir` result is an input: the model starts from what the
    library returned. */
module JrkUsb {
  import opened Wrappers
  import opened Text
  import JrkPoller

  // ---------------------------------------------------------------------
  // Firmware version (JrkGetFirmwareVersion)
  // ---------------------------------------------------------------------

  /** Length of the standard device descriptor the source requests with
      GET_DESCRIPTOR (section 9.4.3 of the USB 2.0 specification). */
  const FirmwareResponseLength: nat := 14
  /** Offset of `bcdDevice` in the device descriptor (section 9.6.1 of the
      USB 2.0 specification): low byte at 12, high byte at 13. */
  const FirmwareOffset: nat := 12

  datatype FirmwareVersion = FirmwareVersion(major: nat, minor: nat)

  /** JrkGetFirmwareVersion as written: `ret` is what the control transfer
      returned and `buffer` the 14-byte buffer it filled. Anything but a full
      14-byte answer is an error carrying `ret`. */
  function JrkGetFirmwareVersion(ret: int, buffer: seq<Byte>): (r: Result<FirmwareVersion, int>)
    requires |buffer| == FirmwareResponseLength
    ensures r.Failure? <==> ret != FirmwareResponseLength
    ensures r.Failure? ==> r.error == ret
    ensures r.Success? ==> r.value.minor <= 15 && r.value.major <= 1515
    ensures r.Success? ==> r.value.minor == (buffer[FirmwareOffset] as int) % 16
    ensures r.Success? ==> r.value.major == (buffer[FirmwareOffset] as int) / 16 + 100 * ((buffer[FirmwareOffset + 1] as int) / 16)
  {
    if ret < 0 || ret != FirmwareResponseLength then Failure(ret)
    else
      var lo, hi := buffer[FirmwareOffset], buffer[FirmwareOffset + 1];
      Success(FirmwareVersion(HighNibble(lo) + HighNibble(hi) * 100, LowNibble(lo)))
  }

  /** Release number `major.minor` (each below 100) as the two BCD bytes of
      `bcdDevice`, low byte first. */
  function BcdByte(n: nat): (b: Byte)
    requires n < 100
  {
    (n / 10) * 16 + n % 10
  }

  function BcdValue(b: Byte): nat {
    HighNibble(b) * 10 + LowNibble(b)
  }

  /** The version `bcdDevice` encodes when read as binary-coded decimal:
      major from byte 13, minor from byte 12. */
  function BcdFirmwareVersion(ret: int, buffer: seq<Byte>): (r: Result<FirmwareVersion, int>)
    requires |buffer| == FirmwareResponseLength
    ensures r.Failure? <==> ret != FirmwareResponseLength
    ensures r.Failure? ==> r.error == ret
    ensures r.Success? ==> r.value.major <= 165 && r.value.minor <= 165
  {
    if ret < 0 || ret != FirmwareResponseLength then Failure(ret)
    else Success(FirmwareVersion(BcdValue(buffer[FirmwareOffset + 1]), BcdValue(buffer[FirmwareOffset])))
  }

  /** A device descriptor whose `bcdDevice` encodes `major.minor`; the other
      bytes are arbitrary. */
  predicate EncodesRelease(buffer: seq<Byte>, major: nat, minor: nat)
    requires major < 100 && minor < 100
  {
    |buffer| == FirmwareResponseLength &&
    buffer[FirmwareOffset] == BcdByte(minor) && buffer[FirmwareOffset + 1] == BcdByte(major)
  }

  /** The BCD reading recovers every release number 0.0 .. 99.99. */
  lemma BcdFirmwareVersionRoundTrip(buffer: seq<Byte>, major: nat, minor: nat)
    requires major < 100 && minor < 100
    requires EncodesRelease(buffer, major, minor)
    ensures BcdFirmwareVersion(FirmwareResponseLength, buffer) == Success(FirmwareVersion(major, minor))
  {
    BcdByteValue(major);
    BcdByteValue(minor);
  }

  lemma BcdByteValue(n: nat)
    requires n < 100
    ensures BcdValue(BcdByte(n)) == n
  {
    var b := BcdByte(n);
    DivModOf16(n / 10, n % 10);
  }

  lemma DivModOf16(h: nat, l: nat)
    requires h < 10 && l < 10
    ensures (h * 16 + l) / 16 == h && (h * 16 + l) % 16 == l
  {
  }

  /** The reading as written agrees with the BCD reading only for releases
      0.00 .. 0.09: byte 13 zero and the high nibble of byte 12 zero. */
  lemma FirmwareReadingsAgreeOnlyBelowTen(buffer: seq<Byte>)
    requires |buffer| == FirmwareResponseLength
    ensures JrkGetFirmwareVersion(FirmwareResponseLength, buffer) == BcdFirmwareVersion(FirmwareResponseLength, buffer)
            <==> buffer[FirmwareOffset + 1] == 0 && buffer[FirmwareOffset] < 16
  {
    var lo, hi := buffer[FirmwareOffset], buffer[FirmwareOffset + 1];
    var a, c, d, e := HighNibble(lo), LowNibble(lo), HighNibble(hi), LowNibble(hi);
    assert JrkGetFirmwareVersion(FirmwareResponseLength, buffer) == Success(FirmwareVersion(a + d * 100, c));
    assert BcdFirmwareVersion(FirmwareResponseLength, buffer) == Success(FirmwareVersion(d * 10 + e, a * 10 + c));
    assert (a + d * 100 == d * 10 + e && c == a * 10 + c) <==> (a == 0 && d == 0 && e == 0);
    assert hi == d * 16 + e && lo == a * 16 + c;
  }

  /** Release 1.02 (`bcdDevice` 0x0102) is shown as 0.2 by the source. */
  lemma FirmwareRelease102ShownAs02(buffer: seq<Byte>)
    requires EncodesRelease(buffer, 1, 2)
    ensures JrkGetFirmwareVersion(FirmwareResponseLength, buffer) == Success(FirmwareVersion(0, 2))
    ensures BcdFirmwareVersion(FirmwareResponseLength, buffer) == Success(FirmwareVersion(1, 2))
  {
    assert BcdByte(1) == 1 && BcdByte(2) == 2;
    assert HighNibble(2) == 0 && LowNibble(2) == 2 && HighNibble(1) == 0;
    BcdFirmwareVersionRoundTrip(buffer, 1, 2);
  }

  // ---------------------------------------------------------------------
  // Topology (LibusbGetTopology)
  // ---------------------------------------------------------------------

  /** Size of the port-number buffer handed to libusb_get_port_numbers. */
  const TopologyMaxLen: nat := 7

  datatype Topology = Topology(bus: Byte, port: Byte, ports: string)

  function Decimals(ns: seq<Byte>): (ds: seq<string>)
    ensures |ds| == |ns|
    ensures forall i :: 0 <= i < |ns| ==> ds[i] == Decimal(ns[i])
    decreases |ns|
  {
    if ns == [] then [] else Decimals(ns[..|ns| - 1]) + [Decimal(ns[|ns| - 1])]
  }

  /** The port numbers in decimal, separated by "." and with no trailing dot. */
  function PortList(ns: seq<Byte>): string {
    Join(Decimals(ns), '.')
  }

  /** The port list holds only digits and dots, and starts and ends with a
      digit: there is no trailing dot. */
  lemma PortListShape(ns: seq<Byte>)
    requires |ns| >= 1
    ensures var s := PortList(ns);
            && (forall k :: 0 <= k < |s| ==> IsDigit(s[k]) || s[k] == '.')
            && |s| >= 1 && IsDigit(s[0]) && IsDigit(s[|s| - 1])
  {
    DottedDigits(Decimals(ns));
  }

  /** Non-empty digit strings joined with dots: only digits and dots, and a
      digit at each end. */
  lemma {:induction false} DottedDigits(ds: seq<string>)
    requires forall i :: 0 <= i < |ds| ==> |ds[i]| >= 1 && forall k :: 0 <= k < |ds[i]| ==> IsDigit(ds[i][k])
    ensures var s := Join(ds, '.');
            && (forall k :: 0 <= k < |s| ==> IsDigit(s[k]) || s[k] == '.')
            && (|ds| >= 1 ==> |s| >= 1 && IsDigit(s[0]) && IsDigit(s[|s| - 1]))
    decreases |ds|
  {
    if |ds| >= 2 {
      var init, last := ds[..|ds| - 1], ds[|ds| - 1];
      DottedDigits(init);
      var j := Join(init, '.');
      assert Join(ds, '.') == j + ['.'] + last;
      assert (j + ['.'] + last)[0] == j[0];
    }
  }

  /** Reads every piece as a decimal number. */
  function ParseAll(parts: seq<string>): (r: Option<seq<nat>>)
    ensures r.Some? ==> |r.value| == |parts|
    decreases |parts|
  {
    if parts == [] then Some([])
    else
      match (ParseDecimal(parts[0]), ParseAll(parts[1..]))
      case (Some(n), Some(rest)) => Some([n] + rest)
      case _ => None
  }

  function ParsePortList(s: string): Option<seq<nat>> {
    ParseAll(Split(s, '.'))
  }

  lemma {:induction false} ParseAllDecimals(ns: seq<Byte>)
    ensures ParseAll(Decimals(ns)) == Some(ns)
    decreases |ns|
  {
    if ns != [] {
      var ds := Decimals(ns);
      ParseDecimalOfDecimal(ns[0]);
      ParseAllDecimals(ns[1..]);
      assert ds[1..] == Decimals(ns[1..]);
      assert ds[0] == Decimal(ns[0]);
      assert [ns[0]] + ns[1..] == ns;
    }
  }

  /** One more port number adds a dot and its decimal rendering. */
  lemma PortListStep(ns: seq<Byte>, n: nat)
    requires 0 < n < |ns|
    ensures PortList(ns[..n + 1]) == PortList(ns[..n]) + "." + Decimal(ns[n])
  {
    assert ns[..n + 1][..n] == ns[..n];
    assert Decimals(ns[..n + 1]) == Decimals(ns[..n]) + [Decimal(ns[n])];
  }

  lemma PortListFirst(ns: seq<Byte>)
    requires 0 < |ns|
    ensures PortList(ns[..1]) == Decimal(ns[0])
  {
    assert Decimals(ns[..1]) == [Decimal(ns[0])];
  }

  /** The rendered port list reads back as the port numbers. */
  lemma PortListRoundTrip(ns: seq<Byte>)
    requires |ns| >= 1
    ensures ParsePortList(PortList(ns)) == Some(ns)
  {
    var ds := Decimals(ns);
    forall i | 0 <= i < |ds| ensures '.' !in ds[i] {
      DecimalHasOnlyDigits(ns[i], '.');
    }
    SplitJoin(ds, '.');
    ParseAllDecimals(ns);
  }

  /** LibusbGetTopology: `ret` is what libusb_get_port_numbers returned and
      `numbers` the buffer it filled (libusb never reports more numbers than
      the buffer holds). The port is the first number; a count of zero or
      less is an error carrying `ret`. */
  method LibusbGetTopology(bus: Byte, ret: int, numbers: seq<Byte>) returns (r: Result<Topology, int>)
    requires |numbers| == TopologyMaxLen && ret <= TopologyMaxLen
    ensures r.Failure? <==> ret <= 0
    ensures r.Failure? ==> r.error == ret
    ensures r.Success? ==> r.value.bus == bus && r.value.port == numbers[0]
    ensures r.Success? ==> r.value.ports == PortList(numbers[..ret])
  {
    if ret <= 0 {
      return Failure(ret);
    }
    var port := numbers[0];
    var s: string := [];
    var n := 0;
    while n < ret
      invariant 0 <= n <= ret
      invariant s == PortList(numbers[..n]) + (if 0 < n < ret then "." else "")
    {
      if n == 0 {
        PortListFirst(numbers);
      } else {
        PortListStep(numbers, n);
      }
      s := s + Decimal(numbers[n]) + (if n + 1 < ret then "." else "");
      n := n + 1;
    }
    r := Success(Topology(bus, port, s));
  }

  // ---------------------------------------------------------------------
  // Locating the tty of the ACM interface (FindACMDevice)
  // ---------------------------------------------------------------------

  const SysfsDevices: string := "/sys/bus/usb/devices/"
  const AcmTtySuffix: string := ":1.0/tty"

  /** The sysfs directory listing the tty of interface 1.0 of the device at
      `bus`-`port`. */
  function AcmTtyDir(bus: int, port: int): (path: string)
    ensures |path| > |SysfsDevices| + |AcmTtySuffix|
    ensures path[..|SysfsDevices|] == SysfsDevices
    ensures path[|path| - |AcmTtySuffix|..] == AcmTtySuffix
  {
    var mid := IntString(bus) + "-" + IntString(port);
    SliceAround(SysfsDevices, mid, AcmTtySuffix);
    ConcatRegroup(SysfsDevices, IntString(bus), "-", IntString(port), AcmTtySuffix);
    SysfsDevices + IntString(bus) + "-" + IntString(port) + AcmTtySuffix
  }

  /** Recovers bus and port from such a directory name. */
  function ParseAcmTtyDir(path: string): Option<(nat, nat)> {
    if |path| >= |SysfsDevices| + |AcmTtySuffix|
       && path[..|SysfsDevices|] == SysfsDevices
       && path[|path| - |AcmTtySuffix|..] == AcmTtySuffix
    then ParseBusPort(path[|SysfsDevices|..|path| - |AcmTtySuffix|])
    else None
  }

  /** Reads "<bus>-<port>". */
  function ParseBusPort(mid: string): Option<(nat, nat)> {
    var parts := Split(mid, '-');
    if |parts| == 2 && ParseDecimal(parts[0]).Some? && ParseDecimal(parts[1]).Some?
    then Some((ParseDecimal(parts[0]).value, ParseDecimal(parts[1]).value))
    else None
  }

  lemma SliceAround(a: string, m: string, c: string)
    ensures var w := a + m + c;
            |w| >= |a| + |c| && w[..|a|] == a && w[|w| - |c|..] == c && w[|a|..|w| - |c|] == m
  {
    var w := a + m + c;
    assert w[..|a|] == a;
    assert w[|w| - |c|..] == c;
    assert w[|a|..|w| - |c|] == m;
  }

  lemma ParseAcmTtyDirParts(mid: string)
    ensures ParseAcmTtyDir(SysfsDevices + mid + AcmTtySuffix) == ParseBusPort(mid)
  {
    SliceAround(SysfsDevices, mid, AcmTtySuffix);
  }

  /** The middle of the directory name splits at the dash into the two
      numbers. */
  lemma SplitBusPort(bus: nat, port: nat)
    ensures Split(Decimal(bus) + "-" + Decimal(port), '-') == [Decimal(bus), Decimal(port)]
  {
    var b, p := Decimal(bus), Decimal(port);
    DecimalHasOnlyDigits(bus, '-');
    SplitJoin([b], '-');
    assert b + "-" + p == b + ['-'] + p;
    SplitAppendSeparator(b, p, '-');
  }

  lemma ParseBusPortRoundTrip(bus: nat, port: nat)
    ensures ParseBusPort(Decimal(bus) + "-" + Decimal(port)) == Some((bus, port))
  {
    SplitBusPort(bus, port);
    ParseDecimalOfDecimal(bus);
    ParseDecimalOfDecimal(port);
  }

  lemma ConcatRegroup(a: string, b: string, c: string, d: string, e: string)
    ensures a + b + c + d + e == a + (b + c + d) + e
  {
  }

  /** For the bus and port numbers libusb reports (never negative), the
      directory name determines them. */
  lemma AcmTtyDirRoundTrip(bus: nat, port: nat)
    ensures ParseAcmTtyDir(AcmTtyDir(bus, port)) == Some((bus, port))
  {
    var b, p := Decimal(bus), Decimal(port);
    assert IntString(bus) == b && IntString(port) == p;
    ConcatRegroup(SysfsDevices, b, "-", p, AcmTtySuffix);
    ParseAcmTtyDirParts(b + "-" + p);
    ParseBusPortRoundTrip(bus, port);
  }

  predicate IsDotEntry(name: string) {
    name == "." || name == ".."
  }

  datatype AcmError =
    | CannotOpen(dir: string)       // "error opening <dir>"
    | CannotEnumerate(dir: string)  // "error enumerating <dir>"
    | NoDevice(dir: string)         // "no device in <dir>"

  /** What `readdir` yields for one directory: its entries in order, and
      whether the call that ended the listing set `errno`. */
  datatype Listing = Listing(entries: seq<string>, failedAtEnd: bool)

  /** FindACMDevice: `listing` is what `readdir` yields for AcmTtyDir(bus,
      port), or `None` when `opendir` fails. The answer is the first entry
      that is neither "." nor "..". A `readdir` failure can only be seen once
      the scan has passed every entry: an entry that is found stops the scan
      with `errno` still zero. */
  method FindACMDevice(bus: int, port: int, listing: Option<Listing>) returns (r: Result<string, AcmError>)
    ensures listing.None? ==> r == Failure(CannotOpen(AcmTtyDir(bus, port)))
    ensures listing.Some? && r.Failure? ==>
              (forall k :: 0 <= k < |listing.value.entries| ==> IsDotEntry(listing.value.entries[k])) &&
              r.error == (if listing.value.failedAtEnd then CannotEnumerate(AcmTtyDir(bus, port))
                          else NoDevice(AcmTtyDir(bus, port)))
    ensures r.Success? ==>
              listing.Some? &&
              exists k :: 0 <= k < |listing.value.entries| && listing.value.entries[k] == r.value &&
                          !IsDotEntry(r.value) &&
                          forall j :: 0 <= j < k ==> IsDotEntry(listing.value.entries[j])
  {
    var dir := AcmTtyDir(bus, port);
    if listing.None? {
      return Failure(CannotOpen(dir));
    }
    var entries := listing.value.entries;
    var i := 0;
    while i < |entries| && IsDotEntry(entries[i])
      invariant 0 <= i <= |entries|
      invariant forall j :: 0 <= j < i ==> IsDotEntry(entries[j])
    {
      i := i + 1;
    }
    if i == |entries| {
      if listing.value.failedAtEnd {
        return Failure(CannotEnumerate(dir));
      }
      return Failure(NoDevice(dir));
    }
    r := Success(entries[i]);
  }

  // ---------------------------------------------------------------------
  // Configuration parameters (JrkParams, LibusbGetConfig)
  // ---------------------------------------------------------------------

  // The JrkConfigParam values the table uses (lib/usb.cpp, lines 72-91).
  const ParameterInitialized: nat := 0
  const ParameterInputMode: nat := 1
  const ParameterSerialMode: nat := 30
  const ParameterSerialFixedBaudRate: nat := 31
  const ParameterSerialEnableCrc: nat := 36

  /** One row of JrkParams: display name, parameter id, value width. */
  datatype ConfigParam = ConfigParam(name: string, id: nat, bytes: nat)

  const JrkParams: seq<ConfigParam> := [
    ConfigParam("Initialized", ParameterInitialized, 1),
    ConfigParam("Input mode", ParameterInputMode, 1),
    ConfigParam("Serial mode", ParameterSerialMode, 1),
    ConfigParam("Serial baud", ParameterSerialFixedBaudRate, 2),
    ConfigParam("CRC7", ParameterSerialEnableCrc, 1)
  ]

  /** Size of LibusbGetConfig's `data` buffer. */
  const ConfigDataSize: nat := 2

  /** Every parameter is 1 or 2 bytes wide, so it fits the buffer, and every
      id fits the 8-bit wIndex it is cast to. */
  lemma JrkParamsFitBuffer()
    ensures forall i :: 0 <= i < |JrkParams| ==>
              (JrkParams[i].bytes == 1 || JrkParams[i].bytes == 2) &&
              JrkParams[i].bytes <= ConfigDataSize && JrkParams[i].id < 0x100
  {
  }

  /** What one GET_PARAMETER control transfer returned: `ret` and the bytes
      it wrote to the start of the buffer. */
  datatype ControlResult = ControlResult(ret: int, payload: seq<Byte>)

  /** libusb's side of the contract for a transfer of at most `len` bytes:
      on success it reports how many bytes it wrote. That a failed transfer
      writes none is a modelling assumption that libusb does not promise;
      the source stops at the first failure and never shows the buffer
      after it, so no property depends on it. */
  predicate Delivers(c: ControlResult, len: nat) {
    |c.payload| <= len && |c.payload| == (if c.ret > 0 then c.ret else 0)
  }

  /** The GET_PARAMETER request: wIndex is the parameter id, wLength its width. */
  datatype ConfigRequest = ConfigRequest(index: nat, length: nat)

  /** One output line " <name>: 0x<hex>". */
  datatype ConfigLine = ConfigLine(name: string, hex: string)

  /** The buffer after a transfer wrote `payload` over its start. */
  function Overlay(buffer: seq<Byte>, payload: seq<Byte>): (r: seq<Byte>)
    requires |payload| <= |buffer|
    ensures |r| == |buffer|
  {
    payload + buffer[|payload|..]
  }

  lemma OverlayParts(buffer: seq<Byte>, payload: seq<Byte>)
    requires |payload| <= |buffer|
    ensures Overlay(buffer, payload)[..|payload|] == payload
    ensures Overlay(buffer, payload)[|payload|..] == buffer[|payload|..]
  {
  }

  lemma OverlayWindow(buffer: seq<Byte>, payload: seq<Byte>, w: nat)
    requires |payload| <= w <= |buffer|
    ensures Overlay(buffer, payload)[..w] == payload + buffer[|payload|..w]
  {
    assert (payload + buffer[|payload|..])[..w] == payload + buffer[|payload|..w];
  }

  predicate TransfersFit(transfers: seq<ControlResult>) {
    |transfers| == |JrkParams| &&
    forall i :: 0 <= i < |transfers| ==> Delivers(transfers[i], JrkParams[i].bytes)
  }

  /** The `data` buffer after the first `n` transfers; it starts out as
      `initial` (the source leaves it uninitialised) and is never cleared. */
  function BufferAfter(initial: seq<Byte>, transfers: seq<ControlResult>, n: nat): (r: seq<Byte>)
    requires |initial| == ConfigDataSize && TransfersFit(transfers) && n <= |transfers|
    ensures |r| == ConfigDataSize
    ensures n >= 1 ==> r[..|transfers[n - 1].payload|] == transfers[n - 1].payload
  {
    if n == 0 then initial
    else Overlay(BufferAfter(initial, transfers, n - 1), transfers[n - 1].payload)
  }

  /** A transfer that delivers the whole width shows exactly its bytes. */
  lemma FullTransferShowsPayload(initial: seq<Byte>, transfers: seq<ControlResult>, i: nat)
    requires |initial| == ConfigDataSize && TransfersFit(transfers) && i < |transfers|
    requires |transfers[i].payload| == JrkParams[i].bytes
    ensures BufferAfter(initial, transfers, i + 1)[..JrkParams[i].bytes] == transfers[i].payload
  {
    ConfigStep(initial, transfers, i);
    OverlayParts(BufferAfter(initial, transfers, i), transfers[i].payload);
  }

  /** A short transfer shows, after its own bytes, the bytes left over from
      earlier transfers (or the buffer's initial contents). */
  lemma ShortTransferShowsStaleBytes(initial: seq<Byte>, transfers: seq<ControlResult>, i: nat)
    requires |initial| == ConfigDataSize && TransfersFit(transfers) && i < |transfers|
    requires |transfers[i].payload| < JrkParams[i].bytes
    ensures BufferAfter(initial, transfers, i + 1)[..JrkParams[i].bytes] ==
            transfers[i].payload + BufferAfter(initial, transfers, i)[|transfers[i].payload|..JrkParams[i].bytes]
  {
    JrkParamsFitBuffer();
    OverlayWindow(BufferAfter(initial, transfers, i), transfers[i].payload, JrkParams[i].bytes);
  }

  /** The lines printed for the first `n` parameters. */
  function ConfigLines(initial: seq<Byte>, transfers: seq<ControlResult>, n: nat): (lines: seq<ConfigLine>)
    requires |initial| == ConfigDataSize && TransfersFit(transfers) && n <= |transfers|
    ensures |lines| == n
    ensures n >= 1 ==> lines[n - 1].name == JrkParams[n - 1].name
    ensures n >= 1 ==> |lines[n - 1].hex| == 2 * JrkParams[n - 1].bytes
  {
    if n == 0 then []
    else
      var p := JrkParams[n - 1];
      ConfigLines(initial, transfers, n - 1) +
      [ConfigLine(p.name, JrkPoller.HexString(BufferAfter(initial, transfers, n)[..p.bytes]))]
  }

  /** Line `k` names parameter `k` and shows the first `bytes` bytes of the
      buffer as transfer `k` left it. */
  lemma {:induction false} ConfigLineAt(initial: seq<Byte>, transfers: seq<ControlResult>, n: nat, k: nat)
    requires |initial| == ConfigDataSize && TransfersFit(transfers) && k < n <= |transfers|
    ensures ConfigLines(initial, transfers, n)[k] ==
            ConfigLine(JrkParams[k].name,
                       JrkPoller.HexString(BufferAfter(initial, transfers, k + 1)[..JrkParams[k].bytes]))
    decreases n
  {
    if k < n - 1 {
      ConfigLineAt(initial, transfers, n - 1, k);
    }
  }

  /** The GET_PARAMETER requests for the first `n` parameters. */
  function ConfigRequests(n: nat): (requests: seq<ConfigRequest>)
    requires n <= |JrkParams|
    ensures |requests| == n
    ensures forall i :: 0 <= i < n ==> requests[i] == ConfigRequest(JrkParams[i].id, JrkParams[i].bytes)
  {
    if n == 0 then [] else ConfigRequests(n - 1) + [ConfigRequest(JrkParams[n - 1].id, JrkParams[n - 1].bytes)]
  }

  /** One iteration of LibusbGetConfig's loop, on the specification side. */
  lemma ConfigStep(initial: seq<Byte>, transfers: seq<ControlResult>, i: nat)
    requires |initial| == ConfigDataSize && TransfersFit(transfers) && i < |transfers|
    ensures BufferAfter(initial, transfers, i + 1) == Overlay(BufferAfter(initial, transfers, i), transfers[i].payload)
    ensures ConfigRequests(i + 1) == ConfigRequests(i) + [ConfigRequest(JrkParams[i].id, JrkParams[i].bytes)]
    ensures ConfigLines(initial, transfers, i + 1) ==
            ConfigLines(initial, transfers, i) +
            [ConfigLine(JrkParams[i].name, JrkPoller.HexString(BufferAfter(initial, transfers, i + 1)[..JrkParams[i].bytes]))]
  {
  }

  /** libusb writing a transfer's payload over the start of the buffer. */
  method ReceiveInto(data: array<Byte>, payload: seq<Byte>)
    requires |payload| <= data.Length
    modifies data
    ensures data[..] == Overlay(old(data[..]), payload)
  {
    var j := 0;
    while j < |payload|
      invariant 0 <= j <= |payload|
      invariant forall k :: 0 <= k < j ==> data[k] == payload[k]
      invariant forall k :: j <= k < data.Length ==> data[k] == old(data[k])
    {
      data[j] := payload[j];
      j := j + 1;
    }
    assert data[..] == Overlay(old(data[..]), payload);
  }

  /** One successful transfer of LibusbGetConfig's loop: its payload lands
      in `data`, and the parameter's width of `data` is rendered in hex. */
  method ShowParameter(data: array<Byte>, initial: seq<Byte>, transfers: seq<ControlResult>, i: nat)
    returns (hex: string)
    requires |initial| == ConfigDataSize && TransfersFit(transfers) && i < |transfers|
    requires data.Length == ConfigDataSize && data[..] == BufferAfter(initial, transfers, i)
    modifies data
    ensures data[..] == BufferAfter(initial, transfers, i + 1)
    ensures hex == JrkPoller.HexString(BufferAfter(initial, transfers, i + 1)[..JrkParams[i].bytes])
  {
    JrkParamsFitBuffer();
    ReceiveInto(data, transfers[i].payload);
    hex := JrkPoller.HexOutput(data[..JrkParams[i].bytes]);
  }

  /** LibusbGetConfig: reads the parameters in table order, one control
      transfer each, and prints each as hex; the first transfer that returns
      zero or less stops it with that code (the source throws, after the
      lines already printed). */
  method LibusbGetConfig(transfers: seq<ControlResult>, initial: seq<Byte>)
    returns (requests: seq<ConfigRequest>, lines: seq<ConfigLine>, error: Option<int>)
    requires |initial| == ConfigDataSize && TransfersFit(transfers)
    ensures |requests| <= |JrkParams| && requests == ConfigRequests(|requests|)
    ensures |requests| == |lines| + (if error.Some? then 1 else 0)
    ensures lines == ConfigLines(initial, transfers, |lines|)
    ensures error.None? <==> forall i :: 0 <= i < |transfers| ==> transfers[i].ret > 0
    ensures error.None? ==> |lines| == |JrkParams|
    ensures error.Some? ==>
              |lines| < |transfers| && transfers[|lines|].ret <= 0 && error.value == transfers[|lines|].ret &&
              forall i :: 0 <= i < |lines| ==> transfers[i].ret > 0
  {
    var data := new Byte[ConfigDataSize](j requires 0 <= j < ConfigDataSize => initial[j]);
    requests, lines, error := [], [], None;
    var i := 0;
    while i < |JrkParams|
      invariant 0 <= i <= |JrkParams|
      invariant data.Length == ConfigDataSize
      invariant data[..] == BufferAfter(initial, transfers, i)
      invariant requests == ConfigRequests(i)
      invariant lines == ConfigLines(initial, transfers, i)
      invariant forall k :: 0 <= k < i ==> transfers[k].ret > 0
    {
      var param := JrkParams[i];
      ConfigStep(initial, transfers, i);
      requests := requests + [ConfigRequest(param.id, param.bytes)];
      var result := transfers[i];
      if result.ret <= 0 {
        error := Some(result.ret);
        return;
      }
      var hex := ShowParameter(data, initial, transfers, i);
      lines := lines + [ConfigLine(param.name, hex)];
      i := i + 1;
    }
  }
}
