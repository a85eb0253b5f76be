/**
 * The target monitor: the thread that opens an ADB connection to the Android
 * phone under test, and the executor that runs shell commands on it, looks up
 * the phone's IP address and reports its battery state.
 *
 * The phone is not modelled; what it answers to each shell command is a
 * parameter of type `Shell`.
 */
module TargetMonitor {
  import opened Wrappers
  import opened PyText

  /** What one `device.shell(cmd)` call does: it returns the command's output or raises. */
  datatype ShellResult = Output(text: string) | Raises

  /** The phone's answer to each shell command. */
  type Shell = string -> ShellResult

  const CmdWifiIp: string := "ip addr show wlan0 | grep 'inet ' | cut -d' ' -f6 | cut -d/ -f1"
  const CmdIfconfig: string := "ifconfig wlan0 | grep 'inet addr'"
  const CmdDumpsys: string := "dumpsys connectivity | grep 'IPv4 address' | cut -d' ' -f3"
  const CmdBattery: string := "dumpsys battery"

  /** What `adb_exec` makes of one shell call on a device: the output, or `""`
      when the call raises. */
  function Answer(shell: Shell, cmd: string): (out: string)
    ensures shell(cmd).Output? ==> out == shell(cmd).text
    ensures shell(cmd).Raises? ==> out == ""
  {
    match shell(cmd)
    case Output(text) => text
    case Raises => ""
  }

  /** The marker that an `ifconfig` line carries an IPv4 address. */
  const InetAddrTag: string := "inet addr:"

  /** The battery fields the stats report keeps. */
  const BatteryKeywords: seq<string> := ["level", "scale", "status", "health", "present", "powered"]

  // ---------------------------------------------------------------------
  // Device IP lookup
  // ---------------------------------------------------------------------

  /** `field` sits in `s` at `k` and is followed by a colon or the end of `s`. */
  ghost predicate FieldAt(s: string, field: string, k: int) {
    OccursAt(s, field, k) && (k + |field| == |s| || s[k + |field|] == ':')
  }

  /** `info.split(':')[1]`: the text between the first colon and the next one,
      or the end; `None` where there is no colon and the indexing raises
      IndexError. */
  function SecondField(info: string): (r: Option<string>)
    ensures r.None? <==> ':' !in info
    ensures r.Some? ==> ':' !in r.value && FieldAt(info, r.value, IndexOf(info, ':').value + 1)
  {
    match IndexOf(info, ':')
    case None => None
    case Some(i) =>
      var rest := info[i + 1..];
      match IndexOf(rest, ':')
      case None =>
        assert info[i + 1..|info|] == rest;
        Some(rest)
      case Some(j) =>
        assert info[i + 1..i + 1 + j] == rest[..j] && info[i + 1 + j] == rest[j];
        Some(rest[..j])
  }

  /** `SecondField` is the second piece of Python's `split(':')`, present exactly
      when the split has two or more pieces. */
  lemma SecondFieldIsSplit(info: string)
    ensures SecondField(info).Some? <==> |Split(info, ':')| >= 2
    ensures SecondField(info).Some? ==> SecondField(info).value == Split(info, ':')[1]
  {
    SplitFirstPiece(info, ':');
    match IndexOf(info, ':')
    case None =>
    case Some(i) =>
      var rest := info[i + 1..];
      SplitAt(info, ':', i);
      assert Split(info, ':')[1] == Split(rest, ':')[0];
  }

  /** The address text of an `ifconfig` line such as
      `inet addr:192.168.1.100  Bcast:…`: `split(':')[1].split()[0]`, the first
      token after the first colon. It starts after that colon and the whitespace
      following it, and ends at whitespace, at the next colon or at the end.
      `None` where either indexing raises IndexError (caught by the lookup). */
  function InetAddr(info: string): (r: Option<string>)
    ensures r.Some? ==> r.value != [] && NoSpace(r.value)
    ensures SecondField(info).None? ==> r.None?
    ensures SecondField(info).Some? ==> (r.None? <==> AllSpace(SecondField(info).value))
    ensures SecondField(info).Some? ==> r == FirstToken(SecondField(info).value)
  {
    match SecondField(info)
    case None => None
    case Some(field) => FirstToken(field)
  }

  /** Where the address `addr == InetAddr(info).value` sits: just after the
      first colon, which is at `after - 1`, and the `lead` whitespace characters
      that follow it. */
  lemma InetAddrAt(info: string, field: string, addr: string, after: int, lead: int)
    requires SecondField(info) == Some(field) && InetAddr(info) == Some(addr)
    requires after == IndexOf(info, ':').value + 1 && lead == LeadingSpaces(field)
    ensures OccursAt(info, addr, after + lead)
    ensures EndsField(info, after + lead + |addr|)
  {
    FieldFacts(info, field);
    TokenWithin(info, field, addr, after, lead);
  }

  /** The contract of `SecondField`, for one field. */
  lemma FieldFacts(info: string, field: string)
    requires SecondField(info) == Some(field)
    ensures FieldAt(info, field, IndexOf(info, ':').value + 1)
  {
  }

  /** Position `end` of `s` ends an address: it is the end of the text, or
      whitespace, or a colon. */
  predicate EndsField(s: string, end: int) {
    0 <= end <= |s| && (end == |s| || IsSpace(s[end]) || s[end] == ':')
  }

  /** A token that ends at whitespace or at the end of its field, where the
      field ends at a colon or at the end of the text, ends at whitespace, a
      colon or the end of the text. */
  lemma TokenWithin(s: string, field: string, tok: string, k: int, j: int)
    requires FieldAt(s, field, k) && OccursAt(field, tok, j)
    requires j + |tok| == |field| || IsSpace(field[j + |tok|])
    ensures OccursAt(s, tok, k + j)
    ensures EndsField(s, k + j + |tok|)
  {
    OccursWithin(s, field, tok, k, j);
    if j + |tok| < |field| {
      assert s[k..k + |field|][j + |tok|] == field[j + |tok|];
    }
  }

  /** A line carrying the marker has a colon, so `split(':')[1]` never raises:
      only the token split after it can. */
  lemma InetAddrHasField(info: string)
    ensures Contains(info, InetAddrTag) ==> SecondField(info).Some?
  {
    if Contains(info, InetAddrTag) {
      var i :| OccursAt(info, InetAddrTag, i);
      assert info[i..i + 10][9] == InetAddrTag[9] == ':';
      assert info[i + 9] == ':';
    }
  }

  /** The result of `get_device_ip` and the commands it issued, in order. */
  datatype IpLookup = IpLookup(ip: Option<string>, issued: seq<string>)

  /** The three lookups of `get_device_ip`, each tried only when the ones before
      it found nothing; `exec` is `adb_exec`. */
  function IpFallback(exec: string -> string): (r: IpLookup)
    ensures 1 <= |r.issued| <= 3 && r.issued == [CmdWifiIp, CmdIfconfig, CmdDumpsys][..|r.issued|]
    ensures r.ip.Some? ==> r.ip.value != [] && !IsSpace(r.ip.value[0]) && !IsSpace(r.ip.value[|r.ip.value| - 1])
    ensures r.issued == [CmdWifiIp] ==> r.ip == Some(Strip(exec(CmdWifiIp)))
    ensures |r.issued| == 2 ==> r.ip == InetAddr(Strip(exec(CmdIfconfig)))
    ensures |r.issued| == 3 ==>
              r.ip == (if AllSpace(exec(CmdDumpsys)) then None else Some(Strip(exec(CmdDumpsys))))
  {
    var wifi := Strip(exec(CmdWifiIp));
    if wifi != [] then
      IpLookup(Some(wifi), [CmdWifiIp])
    else
      var info := Strip(exec(CmdIfconfig));
      if info != [] && Contains(info, InetAddrTag) then
        IpLookup(InetAddr(info), [CmdWifiIp, CmdIfconfig])
      else
        var dumpsys := Strip(exec(CmdDumpsys));
        StripEmpty(exec(CmdDumpsys));
        IpLookup(if dumpsys != [] then Some(dumpsys) else None, [CmdWifiIp, CmdIfconfig, CmdDumpsys])
  }

  /** Which lookups run: the `ip` answer wins unless it is blank; the `ifconfig`
      answer is used when it is not blank and carries the marker; otherwise the
      `dumpsys` answer decides, and a blank one means no address. */
  lemma IpFallbackOrder(exec: string -> string)
    ensures IpFallback(exec).issued == [CmdWifiIp] <==> !AllSpace(exec(CmdWifiIp))
    ensures |IpFallback(exec).issued| == 3 <==>
              AllSpace(exec(CmdWifiIp)) && (AllSpace(exec(CmdIfconfig)) || !Contains(Strip(exec(CmdIfconfig)), InetAddrTag))
    ensures |IpFallback(exec).issued| == 3 ==> (IpFallback(exec).ip.None? <==> AllSpace(exec(CmdDumpsys)))
  {
    StripEmpty(exec(CmdWifiIp));
    StripEmpty(exec(CmdIfconfig));
    StripEmpty(exec(CmdDumpsys));
  }

  /** A found address occurs in the answer of the last command issued. */
  lemma IpFallbackFound(exec: string -> string)
    ensures var r := IpFallback(exec);
            r.ip.Some? ==> Contains(exec(r.issued[|r.issued| - 1]), r.ip.value)
  {
    var r := IpFallback(exec);
    if |r.issued| == 2 {
      StrippedOccurs(exec(CmdIfconfig), r.ip);
    } else if |r.issued| == 1 {
      StripOccurs(exec(CmdWifiIp));
    } else {
      StripOccurs(exec(CmdDumpsys));
    }
  }

  /** The stripped text is a substring of the text. */
  lemma StripOccurs(s: string)
    ensures OccursAt(s, Strip(s), LeadingSpaces(s))
  {
  }

  /** An address found in the stripped `ifconfig` answer is in the answer itself. */
  lemma StrippedOccurs(s: string, ip: Option<string>)
    requires ip == InetAddr(Strip(s))
    ensures ip.Some? ==> Contains(s, ip.value)
  {
    if ip.Some? {
      var info := Strip(s);
      InetAddrOccurs(info, ip);
      var j :| OccursAt(info, ip.value, j);
      StripOccurs(s);
      OccursWithin(s, info, ip.value, LeadingSpaces(s), j);
    }
  }

  /** An address taken from a line occurs in that line. */
  lemma InetAddrOccurs(info: string, ip: Option<string>)
    requires ip == InetAddr(info)
    ensures ip.Some? ==> Contains(info, ip.value)
  {
    if ip.Some? {
      var field := SecondField(info).value;
      var after, lead := IndexOf(info, ':').value + 1, LeadingSpaces(field);
      InetAddrAt(info, field, ip.value, after, lead);
    }
  }

  /** The lookup depends on the answers to the commands it issued and on nothing else. */
  lemma IpFallbackDependsOnIssued(e1: string -> string, e2: string -> string)
    requires forall k :: 0 <= k < |IpFallback(e1).issued| ==> e1(IpFallback(e1).issued[k]) == e2(IpFallback(e1).issued[k])
    ensures IpFallback(e1) == IpFallback(e2)
  {
    var r := IpFallback(e1);
    assert e1(CmdWifiIp) == e2(CmdWifiIp) by { assert r.issued[0] == CmdWifiIp; }
    if |r.issued| >= 2 {
      assert r.issued[1] == CmdIfconfig;
    }
    if |r.issued| == 3 {
      assert r.issued[2] == CmdDumpsys;
    }
  }

  /** A phone that answers nothing (every command raises, so `adb_exec` gives
      `""`) has no IP address, and all three lookups are tried. */
  lemma IpFallbackSilent(exec: string -> string)
    requires forall cmd :: exec(cmd) == ""
    ensures IpFallback(exec) == IpLookup(None, [CmdWifiIp, CmdIfconfig, CmdDumpsys])
  {
    assert AllSpace(exec(CmdWifiIp)) && AllSpace(exec(CmdIfconfig)) && AllSpace(exec(CmdDumpsys));
  }

  // ---------------------------------------------------------------------
  // Battery report
  // ---------------------------------------------------------------------

  /** `any(t.startswith(x) for x in keys)`, tried in order. */
  function StartsWithAny(t: string, keys: seq<string>): (b: bool)
    ensures b <==> exists k :: 0 <= k < |keys| && StartsWith(t, keys[k])
  {
    if keys == [] then false
    else if StartsWith(t, keys[0]) then true
    else
      assert forall k :: 1 <= k < |keys| ==> keys[k] == keys[1..][k - 1];
      StartsWithAny(t, keys[1..])
  }

  /** A stripped line the report keeps. */
  predicate Relevant(t: string) {
    StartsWithAny(t, BatteryKeywords)
  }

  /** What one line of the battery dump contributes: its stripped form, if relevant. */
  function Kept(line: string): (r: seq<string>)
    ensures r == [] <==> !Relevant(Strip(line))
    ensures forall x :: x in r ==> x == Strip(line) && Relevant(x)
    ensures Relevant(Strip(line)) ==> r == [Strip(line)]
    ensures |r| <= 1
  {
    var t := Strip(line);
    if Relevant(t) then [t] else []
  }

  /** What each line contributes under `keep`, in the order of the lines. */
  function Collect(lines: seq<string>, keep: string -> seq<string>): seq<string> {
    if lines == [] then []
    else Collect(lines[..|lines| - 1], keep) + keep(lines[|lines| - 1])
  }

  /** The report of a battery dump split into lines. */
  function BatteryLines(lines: seq<string>): (r: seq<string>)
    ensures |r| <= |lines|
  {
    BatteryLinesBound(lines);
    Collect(lines, Kept)
  }

  /** The report has no more lines than the dump. */
  lemma {:induction false} BatteryLinesBound(lines: seq<string>)
    ensures |Collect(lines, Kept)| <= |lines|
  {
    if lines != [] {
      BatteryLinesBound(lines[..|lines| - 1]);
    }
  }

  lemma AppendAssoc(a: seq<string>, b: seq<string>, c: seq<string>)
    ensures a + b + c == a + (b + c)
  {
  }

  /** Collecting over two parts is collecting over each. */
  lemma {:induction false} CollectAppend(xs: seq<string>, ys: seq<string>, keep: string -> seq<string>)
    ensures Collect(xs + ys, keep) == Collect(xs, keep) + Collect(ys, keep)
    decreases |ys|
  {
    if ys == [] {
      assert xs + ys == xs;
    } else {
      var ys0, n := ys[..|ys| - 1], xs + ys;
      assert n[..|n| - 1] == xs + ys0;
      assert n[|n| - 1] == ys[|ys| - 1];
      var last := keep(ys[|ys| - 1]);
      assert Collect(n, keep) == Collect(xs + ys0, keep) + last;
      assert Collect(ys, keep) == Collect(ys0, keep) + last;
      CollectAppend(xs, ys0, keep);
      AppendAssoc(Collect(xs, keep), Collect(ys0, keep), last);
    }
  }

  lemma {:induction false} CollectFrom(lines: seq<string>, keep: string -> seq<string>, x: string)
    requires x in Collect(lines, keep)
    ensures exists j :: 0 <= j < |lines| && x in keep(lines[j])
  {
    var init := lines[..|lines| - 1];
    if x in Collect(init, keep) {
      CollectFrom(init, keep, x);
      var j :| 0 <= j < |init| && x in keep(init[j]);
      assert init[j] == lines[j];
    }
  }

  lemma {:induction false} CollectHas(lines: seq<string>, keep: string -> seq<string>, j: int)
    requires 0 <= j < |lines|
    ensures forall x :: x in keep(lines[j]) ==> x in Collect(lines, keep)
  {
    var init := lines[..|lines| - 1];
    if j < |lines| - 1 {
      assert init[j] == lines[j];
      CollectHas(init, keep, j);
    }
  }

  lemma {:induction false} CollectEmpty(lines: seq<string>, keep: string -> seq<string>)
    ensures Collect(lines, keep) == [] <==> forall j :: 0 <= j < |lines| ==> keep(lines[j]) == []
  {
    if lines != [] {
      var init := lines[..|lines| - 1];
      CollectEmpty(init, keep);
      assert forall j :: 0 <= j < |init| ==> init[j] == lines[j];
    }
  }

  /** The report of a dump taken in two parts is the report of each part. */
  lemma BatteryLinesAppend(xs: seq<string>, ys: seq<string>)
    ensures BatteryLines(xs + ys) == BatteryLines(xs) + BatteryLines(ys)
  {
    CollectAppend(xs, ys, Kept);
  }

  /** One more dump line adds its stripped form to the report once if it is relevant,
      and nothing otherwise. */
  lemma BatteryLinesSnoc(lines: seq<string>, line: string)
    ensures BatteryLines(lines + [line])
         == BatteryLines(lines) + (if Relevant(Strip(line)) then [Strip(line)] else [])
  {
    assert (lines + [line])[..|lines|] == lines;
  }

  /** Every reported line is the stripped form of some line of the dump and starts
      with a battery keyword. */
  lemma BatteryLinesSound(lines: seq<string>, x: string)
    requires x in BatteryLines(lines)
    ensures Relevant(x) && exists j :: 0 <= j < |lines| && x == Strip(lines[j])
  {
    CollectFrom(lines, Kept, x);
  }

  /** Every line of the dump that starts with a battery keyword once stripped is reported. */
  lemma BatteryLinesComplete(lines: seq<string>, j: int)
    requires 0 <= j < |lines| && Relevant(Strip(lines[j]))
    ensures Strip(lines[j]) in BatteryLines(lines)
  {
    CollectHas(lines, Kept, j);
    assert Strip(lines[j]) in Kept(lines[j]);
  }

  /** Nothing is reported exactly when no line of the dump is relevant. */
  lemma BatteryLinesEmpty(lines: seq<string>)
    ensures BatteryLines(lines) == [] <==> forall j :: 0 <= j < |lines| ==> !Relevant(Strip(lines[j]))
  {
    CollectEmpty(lines, Kept);
  }

  /** What `get_phone_stats` prints: no device, or the relevant battery lines and
      whether the "not found" notice follows them. */
  datatype BatteryReport = NoDevice | Report(printed: seq<string>, notFound: bool)

  // ---------------------------------------------------------------------
  // Device and executor
  // ---------------------------------------------------------------------

  /** An `AdbDeviceUsb` handle; the model records how often it was closed. */
  class Device {
    var closes: nat

    constructor ()
      ensures closes == 0
    {
      closes := 0;
    }

    /** `close()`. Every caller catches and logs what it raises, so the attempt is what counts. */
    method Close()
      modifies this
      ensures closes == old(closes) + 1
    {
      closes := closes + 1;
    }
  }

  /** `ADB_Executor`: runs shell commands on one device. */
  class AdbExecutor {
    const device: Device?

    constructor (device: Device?)
      ensures this.device == device
    {
      this.device := device;
    }

    /** `adb_exec(cmd)`: the output of the command, or `""` when the call raises;
        with no device the call raises too. */
    function Exec(shell: Shell, cmd: string): (out: string)
      ensures device != null && shell(cmd).Output? ==> out == shell(cmd).text
      ensures device == null || shell(cmd).Raises? ==> out == ""
    {
      if device == null then "" else Answer(shell, cmd)
    }

    /** `get_phone_stats()`: with a device, the stripped lines of `dumpsys battery`
        that start with a battery keyword, and the notice exactly when there are none. */
    method GetPhoneStats(shell: Shell) returns (report: BatteryReport)
      ensures device == null <==> report == NoDevice
      ensures report.Report? ==> report.printed == BatteryLines(SplitLines(Exec(shell, CmdBattery)))
      ensures report.Report? ==>
                (report.notFound <==> forall j :: 0 <= j < |SplitLines(Exec(shell, CmdBattery))| ==>
                                        !Relevant(Strip(SplitLines(Exec(shell, CmdBattery))[j])))
    {
      if device == null {
        return NoDevice;
      }
      var info := Exec(shell, CmdBattery);
      var kept: seq<string> := [];
      var found := false;
      if info != [] {
        var lines := SplitLines(info);
        var i := 0;
        while i < |lines|
          invariant 0 <= i <= |lines|
          invariant kept == BatteryLines(lines[..i])
          invariant found <==> kept != []
        {
          assert lines[..i + 1][..i] == lines[..i];
          var stripped := Strip(lines[i]);
          if StartsWithAny(stripped, BatteryKeywords) {
            kept := kept + [stripped];
            found := true;
          }
          i := i + 1;
        }
        assert lines[..|lines|] == lines;
      }
      BatteryLinesEmpty(SplitLines(info));
      report := Report(kept, !found);
    }
  }

  // ---------------------------------------------------------------------
  // The monitor thread
  // ---------------------------------------------------------------------

  /** How opening the ADB connection in `run` goes: creating the USB device
      raises, the key set-up or `connect` raises, or the phone is connected. */
  datatype ConnectOutcome = NoUsbDevice | ConnectFails | Connects

  /** `Target_Monitor`: the stay-alive flag, the device and the executor. */
  class Monitor {
    /** The `_stay_alive` event. */
    var stayAlive: bool
    var device: Device?
    var executor: AdbExecutor?
    /** How often the event was set and cleared. */
    ghost var sets: nat
    ghost var clears: nat

    constructor ()
      ensures !stayAlive && device == null && executor == null && sets == 0 && clears == 0
    {
      stayAlive := false;
      device := null;
      executor := null;
      sets := 0;
      clears := 0;
    }

    /** `get_device_ip()` and the commands it sent: nothing without a device and
        an executor, the fallback over the executor's `adb_exec` otherwise. */
    function GetDeviceIp(shell: Shell): (r: IpLookup)
      reads this
      ensures device == null || executor == null ==> r == IpLookup(None, [])
      ensures device != null && executor != null ==> 1 <= |r.issued| <= 3
      ensures r.ip.Some? ==> exists k :: 0 <= k < |r.issued| && Contains(executor.Exec(shell, r.issued[k]), r.ip.value)
      ensures device != null && executor != null ==>
                var ex := executor; r == IpFallback(cmd => ex.Exec(shell, cmd))
      ensures device != null && executor != null && executor.device != null ==>
                r == IpFallback(cmd => Answer(shell, cmd))
    {
      if device == null || executor == null then IpLookup(None, [])
      else
        var ex := executor;
        var exec := cmd => ex.Exec(shell, cmd);
        var r := IpFallback(exec);
        IpFallbackFound(exec);
        assert r.ip.Some? ==> exec(r.issued[|r.issued| - 1]) == ex.Exec(shell, r.issued[|r.issued| - 1]);
        if ex.device != null then
          IpFallbackDependsOnIssued(exec, cmd => Answer(shell, cmd));
          r
        else r
    }

    /** `kill()`: clear the stay-alive event. */
    method Kill()
      modifies this
      ensures !stayAlive && clears == old(clears) + 1
      ensures sets == old(sets) && device == old(device) && executor == old(executor)
    {
      stayAlive := false;
      clears := clears + 1;
    }

    /** `run()`: open the connection; on failure close what was opened and return;
        on success set the event, wait until it is cleared, then clear it and close
        the device. */
    method Run(outcome: ConnectOutcome)
      modifies this, device
      ensures outcome.NoUsbDevice? ==>
                device == old(device) && executor == old(executor) && stayAlive == old(stayAlive) &&
                sets == old(sets) && clears == old(clears) &&
                (device != null ==> device.closes == old(device.closes) + 1)
      ensures outcome.ConnectFails? ==>
                fresh(device) && device.closes == 1 && executor == old(executor) &&
                stayAlive == old(stayAlive) && sets == old(sets) && clears == old(clears)
      ensures outcome.Connects? ==>
                fresh(device) && device.closes == 1 && fresh(executor) && executor.device == device &&
                !stayAlive && sets == old(sets) + 1 && clears == old(clears) + 1
      ensures old(device) != null && !outcome.NoUsbDevice? ==> old(device).closes == old(device.closes)
    {
      if outcome.NoUsbDevice? {
        if device != null {
          device.Close();
        }
        return;
      }
      var d := new Device();
      device := d;
      if outcome.ConnectFails? {
        d.Close();
        return;
      }
      executor := new AdbExecutor(d);
      stayAlive := true;
      sets := sets + 1;
      Kill();
      d.Close();
    }
  }

  /** A monitor created and run once: whatever the connection outcome, the
      stay-alive flag ends cleared; without a connection the IP lookup finds
      nothing and sends no command; with one, it is the fallback over the phone's
      answers. */
  method MonitorSession(outcome: ConnectOutcome, shell: Shell) returns (lookup: IpLookup, alive: bool)
    ensures !alive
    ensures !outcome.Connects? ==> lookup == IpLookup(None, [])
    ensures outcome.Connects? ==> lookup == IpFallback(cmd => Answer(shell, cmd))
  {
    var m := new Monitor();
    m.Run(outcome);
    lookup := m.GetDeviceIp(shell);
    alive := m.stayAlive;
  }
}
