# Frame fuzzer and target monitor: a Dafny model

This project models the two moving parts of a network fuzzer that tests an
Android phone:

- **The transmitter** (`app/transmitter/transmitter.py`). A `Transmitter` holds
  a layered frame (Ethernet, IPv4, TCP or UDP, payload) and an optional
  raw-byte override that wins over the layered frame when set. The override
  comes from one of two sources:
  - `mutate_packet` flips random bits;
  - `modify_raw_bytes` patches bytes at an offset.

  Each cycle of `run` does four things: it resets the frame, mutates it at rate
  0.01, appends a `(time, counter, hex)` record to the caller's tracker and
  sends the frame.
- **The target monitor** (`app/target/target_monitor.py`) does three things:
  - it connects to the phone over ADB and cleans up on failure and on exit;
  - it finds the phone's IP address through a fallback chain of three shell
    commands;
  - it filters the `dumpsys battery` output down to a few keyword lines.

The files and modules:

- `wrappers.dfy` (`Wrappers`): `Option`.
- `raw_bytes.dfy` (`RawBytes`): pure byte-level operations, each with lemmas:
  - bit flips and their counting (Hamming distance);
  - the flip count `max(1, int(8·L·rate))`;
  - the clipped patch of `modify_raw_bytes`, including Python's negative
    indices;
  - hex encoding with its decoder.
- `transmitter.dfy` (`Transmitter`): the `Transmitter` class.
  - Its fields are the ones the Python object updates. Its methods have
    `modifies` frames. The bytes handed to `sendp` are kept in a ghost log.
  - `modify_raw_bytes` and `mutate_packet` work on an `array` copy of the
    bytes inside a `for` loop, as the Python does with a `bytearray`.
  - `run` is a `while` loop over the cycle inputs. Its contract is given by the
    specification functions `Records` and `Frames`.
- `pytext.dfy` (`PyText`): the Python `str` operations the monitor relies on, as
  CPython defines them:
  - `isspace`, `strip`, `startswith`, `in`;
  - `split(sep)` and `split()`;
  - `splitlines()`.
- `target_monitor.dfy` (`TargetMonitor`) has two parts:
  - the IP fallback chain and the battery filter as functions and lemmas;
  - the classes `Device`, `AdbExecutor` (with the `get_phone_stats` loop) and
    `Monitor` (with `run`/`kill`).

Environment inputs stand in for what the code gets from outside:

- scapy's serialisation of a layered frame is a function-typed field `wire`;
- `random.randint` results are a sequence of `(byte_idx, bit_idx)` picks;
- `RandMAC()` and `datetime.now()` are arguments;
- the float mutation rate is a rational `num/den`. Python's `int()` truncates
  toward zero, and the model writes that out. The exact product can differ from
  Python's rounded float product near a whole number (`int(800 * 0.29)` is 231 in
  Python, 232 here); at the 0.01 that `run` uses they agree;
- the phone's answers to shell commands are a function `Shell`, giving output
  or "raises";
- how the connection attempt in `run` ends is an argument: no USB device,
  connect fails, or connected.

Two behaviours of the code worth stating:

- The number of flips is `max(1, int(8·L·rate))`: truncated, then at least one.
  A 64-byte frame at rate 0.01 gets 5 flips, and rate 0 still gets 1.
- After a failed connect, `device` holds the new, closed device object and only
  `executor` stays `None`. The IP lookup therefore still returns `None` without
  issuing a command.

## Model

| member | source | states |
|---|---|---|
| RawBytes.Mask | app/transmitter/transmitter.py:121 | the tabulated mask of bit `k` is `1 << k` |
| RawBytes.BitToggle | app/transmitter/transmitter.py:121 | XOR with `1 << k` inverts bit `k` and keeps every other bit |
| RawBytes.PopCountToggle | app/transmitter/transmitter.py:121 | toggling one bit changes the number of set bits by exactly one |
| RawBytes.BitDiffMask | app/transmitter/transmitter.py:121 | a byte and its one-bit toggle differ in exactly one bit |
| RawBytes.BitDiffToggle | app/transmitter/transmitter.py:121 | toggling a bit of one side moves the bit difference by exactly one |
| RawBytes.BitDiffSelf | app/transmitter/transmitter.py:121 | a byte differs from itself in no bit |
| RawBytes.DistanceSelf | app/transmitter/transmitter.py:118-121 | a buffer is at Hamming distance 0 from itself |
| RawBytes.DistanceUpdate | app/transmitter/transmitter.py:121 | replacing one byte changes the distance by that byte's bit difference only |
| RawBytes.FlipBit | app/transmitter/transmitter.py:119-121 | one flip keeps the buffer length |
| RawBytes.FlipBitOneBit | app/transmitter/transmitter.py:121 | one flip changes exactly one bit of the buffer |
| RawBytes.FlipBitElsewhere | app/transmitter/transmitter.py:121 | one flip leaves every other byte unchanged |
| RawBytes.FlipBitInvolution | app/transmitter/transmitter.py:121 | flipping the same position twice restores the buffer |
| RawBytes.FlipBitDistanceStep | app/transmitter/transmitter.py:118-121 | each further flip moves the distance from the original by exactly one |
| RawBytes.ApplyFlips | app/transmitter/transmitter.py:118-121 | a sequence of in-range flips keeps the buffer length |
| RawBytes.ApplyFlipsDistance | app/transmitter/transmitter.py:118-121 | `n` flips change at most `n` bits, and `n` minus the changed count is even (repeats cancel) |
| RawBytes.ApplyFlipsUntouched | app/transmitter/transmitter.py:118-121 | a byte no pick names is unchanged |
| RawBytes.ApplyFlipsAppend | app/transmitter/transmitter.py:118-121 | applying `fs + gs` is applying `fs` and then `gs` |
| RawBytes.ApplyFlipsTwice | app/transmitter/transmitter.py:118-121 | two picks of the same position leave the buffer as it was |
| RawBytes.FlipsCancel | app/transmitter/transmitter.py:118-121 | a repeated adjacent pair can be dropped from any pick sequence without changing the result |
| RawBytes.TruncDiv | app/transmitter/transmitter.py:115 | Python's `int()` of a quotient, truncated toward zero: `q·d <= x < (q+1)·d` for `x >= 0`, and `(-q)·d <= -x < (-q+1)·d` for `x < 0` |
| RawBytes.FlipCount | app/transmitter/transmitter.py:114-115 | the flip count is at least one |
| RawBytes.FlipCountFloor | app/transmitter/transmitter.py:114-115 | the count is 1 when `8·L·rate < 2`, and the whole part of `8·L·rate` (not rounded up) when `8·L·rate >= 1` |
| RawBytes.FlipCountExamples | app/transmitter/transmitter.py:114-115 | 64 bytes at rate 0.01 give 5 flips; rate 0 still gives 1 |
| RawBytes.SlotOf | app/transmitter/transmitter.py:94-95 | where `offset + i` lands: a non-negative index below the length, an index counted from the end, past the end (dropped), or below `-len` (IndexError) |
| RawBytes.Patch | app/transmitter/transmitter.py:90-98 | a patch that succeeds keeps the buffer length |
| RawBytes.PatchFails | app/transmitter/transmitter.py:93-95 | the patch raises exactly when `nb` is non-empty and `offset < -len` |
| RawBytes.PatchAt | app/transmitter/transmitter.py:93-95 | byte `k` of the patched buffer is `nb[k - offset]` where a write reached `k` directly, else the byte whose negative index reached `k` from the end, else the old byte |
| RawBytes.PatchClipped | app/transmitter/transmitter.py:93-95 | at `offset >= 0`, byte `k` is `nb[k - offset]` for `offset <= k < offset + \|nb\|` and unchanged elsewhere; bytes past the end are dropped |
| RawBytes.Hex | app/transmitter/transmitter.py:129 | the hex text has two characters per byte |
| RawBytes.HexDigitsOnly | app/transmitter/transmitter.py:129 | every character is a lower-case hex digit |
| RawBytes.DigitValue | app/transmitter/transmitter.py:129 | a recognised digit's value names that digit; every hex digit is recognised |
| RawBytes.HexByteRoundTrip | app/transmitter/transmitter.py:129 | the two digits of a byte decode to its high and low nibble, which rebuild the byte |
| RawBytes.HexRoundTrip | app/transmitter/transmitter.py:129 | decoding the hex text gives back the bytes |
| RawBytes.HexInjective | app/transmitter/transmitter.py:129 | different byte strings have different hex texts |
| Transmitter.TemplateFrame | app/transmitter/transmitter.py:24-53 | the reset frame is addressed to the targets, has an empty payload, and uses TCP exactly when `use_tcp` |
| Transmitter.MutatedBytes | app/transmitter/transmitter.py:111-124 | a mutation keeps the byte length and uses at least one flip |
| Transmitter.MutationDistance | app/transmitter/transmitter.py:114-121 | a mutation changes at most `FlipCount` bits, with a count of the same parity |
| Transmitter.CycleBytes | app/transmitter/transmitter.py:177-178 | a cycle's bytes have the length of the freshly reset frame's serialisation |
| Transmitter.RecordsMatchFrames | app/transmitter/transmitter.py:168-180 | record `k` of a run carries counter `n + k`, and its hex decodes to exactly the frame sent in cycle `k` |
| Transmitter.RecordsSplit | app/transmitter/transmitter.py:176-180 | running `xs` then `ys` tracks and sends the same as running `xs + ys`: cycles do not compound |
| Transmitter.Tracker.constructor | app/transmitter/transmitter.py:16 | the tracker starts empty |
| Transmitter.Transmitter.constructor | app/transmitter/transmitter.py:8-22 | the counter is 0, nothing sent, no override, the flag clear, the frame the default template; the targets, interface and `use_tcp` default to `ff:ff:ff:ff:ff:ff`, `192.168.1.1`, `eth0` and true |
| Transmitter.Transmitter.Build | app/transmitter/transmitter.py:56-60 | `build_packet`: the raw override when one is set, otherwise the serialised layered frame |
| Transmitter.Transmitter.ResetPacket | app/transmitter/transmitter.py:24-54 | the layers become the template (a given source MAC, else the random one) and the override is cleared, so `build_packet` is the layered frame |
| Transmitter.Transmitter.SetPayload | app/transmitter/transmitter.py:77-82 | the payload is replaced; an active override still wins |
| Transmitter.Transmitter.SetTargetMac | app/transmitter/transmitter.py:158-161 | the stored target and `ether.dst` both change, and only they |
| Transmitter.Transmitter.SetTargetIp | app/transmitter/transmitter.py:163-166 | the stored target and `ip.dst` both change, and only they |
| Transmitter.Transmitter.ModifyRawBytes | app/transmitter/transmitter.py:84-99 | the override becomes the patch of the current bytes, and `build_packet` returns it; on IndexError the override is left as it was |
| Transmitter.Transmitter.ClearRawOverride | app/transmitter/transmitter.py:101-104 | no override, so `build_packet` is the layered frame |
| Transmitter.Transmitter.MutatePacket | app/transmitter/transmitter.py:106-125 | the override becomes the current bytes with the first `FlipCount` picks applied, of the same length, and `build_packet` returns it |
| Transmitter.Transmitter.GetPacketHex | app/transmitter/transmitter.py:127-129 | the hex of the current bytes, which decodes back to them |
| Transmitter.Transmitter.SendFrame | app/transmitter/transmitter.py:136-153 | the current bytes are sent once and the counter rises by exactly one |
| Transmitter.Transmitter.GetNPacketsSent | app/transmitter/transmitter.py:155-156 | the counter, which equals the number of frames sent |
| Transmitter.Transmitter.TrackPacket | app/transmitter/transmitter.py:168-171 | exactly one record `(now, counter, hex)` is appended, earlier ones untouched, with two hex characters per byte |
| Transmitter.Transmitter.RunCycle | app/transmitter/transmitter.py:176-180 | one cycle sends the mutated fresh template and tracks it under the pre-send counter, and leaves the cycle's template layers with its mutated bytes as the override |
| Transmitter.Transmitter.Run | app/transmitter/transmitter.py:173-180 | the tracker gains exactly the records of the cycles, in order, and the link exactly their frames; afterwards the last cycle's layers and mutated bytes are the frame, or the frame is unchanged when there are no cycles |
| Transmitter.Transmitter.Kill | app/transmitter/transmitter.py:185-186 | the flag is cleared |
| Transmitter.FuzzSession | app/transmitter/transmitter.py:173-180 | for a fresh transmitter, record `k` has counter `k`, that cycle's time, and the hex of that cycle's own mutated template |
| PyText.IsSpaceChars | app/target/target_monitor.py:66 | `IsSpace`: space, tab, newline and carriage return are whitespace; digits, ASCII letters, `.` and `:` are not |
| PyText.LeadingSpaces | app/target/target_monitor.py:66 | the leading run of whitespace that `strip` removes, ended by a non-space or the end |
| PyText.RStrip | app/target/target_monitor.py:66 | the prefix before the trailing whitespace, ending in a non-space |
| PyText.Strip | app/target/target_monitor.py:66 | the stripped text sits in the original with only whitespace on either side and no whitespace at its ends |
| PyText.StripEmpty | app/target/target_monitor.py:67 | the stripped text is empty exactly when the text is all whitespace |
| PyText.StripIdempotent | app/target/target_monitor.py:189 | stripping twice is stripping once |
| PyText.Contains | app/target/target_monitor.py:73 | `sub in s` holds exactly when `sub` occurs at some index |
| PyText.OccursWithin | app/target/target_monitor.py:73-75 | an occurrence inside an occurrence is an occurrence |
| PyText.IndexOf | app/target/target_monitor.py:75 | the first position of the separator, or none exactly when it is absent |
| PyText.Split | app/target/target_monitor.py:75 | at least one piece, and no piece contains the separator |
| PyText.SplitFirstPiece | app/target/target_monitor.py:75 | the first piece is a prefix that ends at the first separator or at the end, and there are two or more pieces exactly when the separator occurs |
| PyText.SplitJoin | app/target/target_monitor.py:75 | joining the pieces with the separator rebuilds the text |
| PyText.JoinSplit | app/target/target_monitor.py:75 | splitting a join of separator-free pieces gives the pieces back |
| PyText.Word | app/target/target_monitor.py:75 | the longest whitespace-free prefix |
| PyText.FirstToken | app/target/target_monitor.py:75 | `split()[0]`: none exactly when the text is all whitespace; otherwise a non-empty whitespace-free token right after the leading whitespace |
| PyText.FirstBreak | app/target/target_monitor.py:188 | the first line boundary, or none exactly when there is none |
| PyText.SplitLines | app/target/target_monitor.py:188 | no line contains a boundary, and there are no lines exactly when the text is empty; the lines themselves are fixed, boundary by boundary, by the three lemmas below |
| PyText.SplitLinesBreak | app/target/target_monitor.py:188 | a boundary-free line ended by any one-character boundary (`\n`, `\r` not followed by `\n`, `\v`, `\f`, `\x1c`-`\x1e`, U+0085, U+2028, U+2029) is the first line, and the rest is split on |
| PyText.SplitLinesCrLf | app/target/target_monitor.py:188 | a boundary-free line ended by `\r\n` is the first line: the pair is one line end |
| PyText.SplitLinesSingle | app/target/target_monitor.py:188 | non-empty text without a boundary is one line |
| PyText.SplitLinesUnlines | app/target/target_monitor.py:188 | boundary-free lines each ended by a newline split back into exactly those lines |
| PyText.LineBreakIsSpace | app/target/target_monitor.py:188-189 | `IsLineBreak`: `\n` and `\r` are boundaries, and every boundary is whitespace |
| TargetMonitor.Answer | app/target/target_monitor.py:141-145 | the shell output, or `""` when the call raises |
| TargetMonitor.SecondField | app/target/target_monitor.py:75 | `split(':')[1]`: none exactly when there is no colon; otherwise the colon-free text right after the first colon, running to the next colon or the end |
| TargetMonitor.SecondFieldIsSplit | app/target/target_monitor.py:75 | `SecondField` is present exactly when `split(':')` has two or more pieces, and is then its second piece |
| TargetMonitor.InetAddr | app/target/target_monitor.py:75 | `split(':')[1].split()[0]`: none without a colon or when the field is blank; otherwise the first token of the field, non-empty and whitespace-free |
| TargetMonitor.InetAddrAt | app/target/target_monitor.py:75 | the address starts right after the first colon and the whitespace that follows it, and ends at whitespace, the next colon or the end of the line |
| TargetMonitor.InetAddrOccurs | app/target/target_monitor.py:75 | an address taken from a line occurs in that line |
| TargetMonitor.TokenWithin | app/target/target_monitor.py:75 | a token ending a field's word, in a field ending at a colon or the end, sits in the line and ends at whitespace, a colon or the end |
| TargetMonitor.InetAddrHasField | app/target/target_monitor.py:73-75 | a line containing `inet addr:` has a second `:` field, so only the token split can raise |
| TargetMonitor.IpFallback | app/target/target_monitor.py:62-87 | the commands run in order, one to three of them; with one command the address is the stripped `ip` answer, with two it is `InetAddr` of the stripped `ifconfig` answer, with three it is the stripped `dumpsys` answer or none when that is blank; a found address has no whitespace at its ends |
| TargetMonitor.IpFallbackOrder | app/target/target_monitor.py:64-84 | only the `ip` command runs exactly when its answer is not blank; all three run exactly when the `ip` answer is blank and the `ifconfig` one is blank or lacks the marker; then the address is absent exactly when the `dumpsys` answer is blank |
| TargetMonitor.IpFallbackFound | app/target/target_monitor.py:64-84 | a found address occurs in the answer of the last command issued |
| TargetMonitor.IpFallbackDependsOnIssued | app/target/target_monitor.py:62-87 | the lookup depends only on the answers to the commands it issued |
| TargetMonitor.IpFallbackSilent | app/target/target_monitor.py:62-87 | when every answer is `""`, all three commands run and no address is found |
| TargetMonitor.StripOccurs | app/target/target_monitor.py:66 | the stripped answer occurs in the answer |
| TargetMonitor.StrippedOccurs | app/target/target_monitor.py:72-75 | an address taken from the stripped `ifconfig` answer occurs in the raw answer |
| PyText.StartsWith | app/target/target_monitor.py:191 | `s.startswith(p)` holds exactly when `p` occurs at index 0 of `s` |
| TargetMonitor.StartsWithAny | app/target/target_monitor.py:191 | `any(startswith)` holds exactly when some keyword is a prefix |
| TargetMonitor.Kept | app/target/target_monitor.py:189-193 | a line contributes nothing exactly when its stripped form starts with no keyword, and otherwise exactly one copy of that stripped form |
| TargetMonitor.BatteryLines | app/target/target_monitor.py:188-193 | the report of the keyword filter has no more lines than the dump |
| TargetMonitor.BatteryLinesBound | app/target/target_monitor.py:188-193 | the report has no more lines than the dump, by induction over the dump |
| TargetMonitor.CollectAppend | app/target/target_monitor.py:188-193 | collecting over two parts concatenates the two results |
| TargetMonitor.CollectFrom | app/target/target_monitor.py:188-193 | every collected item comes from some line |
| TargetMonitor.CollectHas | app/target/target_monitor.py:188-193 | every item a line contributes is collected |
| TargetMonitor.CollectEmpty | app/target/target_monitor.py:188-193 | nothing is collected exactly when no line contributes |
| TargetMonitor.BatteryLinesSnoc | app/target/target_monitor.py:188-193 | one more dump line adds its stripped form to the report exactly once when it starts with a keyword, and nothing otherwise |
| TargetMonitor.BatteryLinesAppend | app/target/target_monitor.py:188-193 | the report over two parts of a dump is the two reports in order |
| TargetMonitor.BatteryLinesSound | app/target/target_monitor.py:189-193 | every reported line starts with a keyword and is the stripped form of a dump line |
| TargetMonitor.BatteryLinesComplete | app/target/target_monitor.py:189-193 | every dump line whose stripped form starts with a keyword is reported |
| TargetMonitor.BatteryLinesEmpty | app/target/target_monitor.py:186-194 | nothing is reported exactly when no dump line is relevant |
| TargetMonitor.Device.constructor | app/target/target_monitor.py:92 | a new device handle has not been closed |
| TargetMonitor.Device.Close | app/target/target_monitor.py:99-104 | each close attempt is recorded once |
| TargetMonitor.AdbExecutor.constructor | app/target/target_monitor.py:134-135 | the executor keeps the device it is given |
| TargetMonitor.AdbExecutor.Exec | app/target/target_monitor.py:138-145 | the shell output on success, and `""` when the call raises or there is no device |
| TargetMonitor.AdbExecutor.GetPhoneStats | app/target/target_monitor.py:177-195 | no device gives no report; otherwise the printed lines are exactly the relevant stripped lines of `dumpsys battery`, in order, and the notice appears exactly when none is relevant |
| TargetMonitor.Monitor.constructor | app/target/target_monitor.py:15-24 | no device, no executor, flag clear |
| TargetMonitor.Monitor.GetDeviceIp | app/target/target_monitor.py:52-87 | without a device or an executor, `None` and no command; otherwise the fallback over the executor's `adb_exec` answers (the device's answers when it has a device), with any found address occurring in one of them |
| TargetMonitor.Monitor.Kill | app/target/target_monitor.py:128-130 | the flag is cleared, one clear per call, nothing else changes |
| TargetMonitor.Monitor.Run | app/target/target_monitor.py:89-125 | no USB device: the old device (if any) is closed and nothing else changes. Connect fails: a new device closed once, no executor, flag never set. Connected: an executor on the new device, the flag set once and cleared once, the device closed once |
| TargetMonitor.MonitorSession | app/target/target_monitor.py:89-130 | after a run the flag is clear; without a connection the IP lookup is `None` with no command, with one it is the fallback over the phone's answers |

## Left out

- The layered Ethernet/IPv4/TCP/UDP serialisation, `RandMAC`, `sendp` and `hexdump` belong to scapy, which is not part of this model. Serialisation is an arbitrary function `wire`, and sending appends to a ghost log. Non-emptiness of the serialised frame is not assumed: a flip pick that is in range already implies a non-empty buffer.
- `send_frame` with a payload argument (app/transmitter/transmitter.py:140-148) is not modelled. It depends on scapy's packet copy and `Raw`-layer lookup.
- `Transmitter.Transmitter.SendFrame`: a `sendp` that raises is not modelled. In the code it leaves `send_frame` before `_n_packets_sent += 1` and ends the thread, because `run` (app/transmitter/transmitter.py:173-183) catches only `KeyboardInterrupt`. In the model every send succeeds.
- `Transmitter.Transmitter.GetPacketHex`: with no override, scapy draws a new `RandMAC()` each time the frame is serialised, so two `get_packet_hex` calls, or a track and the send after it, can differ in the source MAC. The model fixes the source MAC when the frame is reset (`wire` is a function of the layers). `run` is unaffected: `mutate_packet` fixes the bytes before they are tracked and sent.
- `set_ether_field`, `set_ip_field` and `set_transport_field` are not modelled. They set arbitrary scapy attributes by name.
- `set_payload` with a `str` is not modelled: its UTF-8 encoding is out of scope. Only the bytes form is.
- `print_packet`, and every `print` in both files, are output only.
- Threading is not modelled:
  - `threading.Event` is a boolean field;
  - `KeyboardInterrupt` handling is left out;
  - the transmitter's `run` loop is bounded by the cycle inputs it is given, because only another thread's `kill` ends it;
  - the monitor's wait loop (app/target/target_monitor.py:110-113) is assumed to end, through an outside `kill` or an interrupt, before the `finally` path runs.
- `get_adb_signer`, `adb_connect` and the ADB USB transport are file, cryptography and USB I/O. They are reduced to the connection outcome given to `Monitor.Run`. The `if not self.device` branch of `adb_connect` never runs from `run`.
- `ADB_Executor.command_stream` is an interactive console loop and is not modelled.
- `TargetMonitor.Device.Close`: an exception from `close()` is caught and printed by every caller, so only the attempt is recorded. What a closed device answers is not modelled: the shell answers are a parameter.
- `TargetMonitor.Monitor.GetDeviceIp`: the broad `except Exception` can only be reached through the IndexError of `split()[0]`, which the model returns as `None`. No other exception source (for example a non-string shell result) is modelled.
- `PyText.IsSpace` and `PyText.IsLineBreak` are CPython's character tables. They are listed by code point, not derived from the Unicode database.
- Concrete whole-string examples are not proved, for instance that `"inet addr:192.168.1.100  Bcast:..."` gives `"192.168.1.100"`. `InetAddr`, `SecondField`, `FirstToken` and `InetAddrAt` pin the address down for every line, but evaluating them on a literal line is beyond the solver budget.
- `app/cli/cli.py`, `app/controller/target_monitor.py`, `transimitter.py`, `main.py` and `docs/conf.py` are not part of this model.
