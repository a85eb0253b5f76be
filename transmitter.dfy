/**
 * The frame mutator and tracker: a transmitter holds a layered frame
 * (Ethernet, IPv4, TCP or UDP, payload) and an optional raw-byte override
 * that takes precedence over it. Each cycle of its loop resets the frame,
 * flips random bits, appends a record to the caller's tracker and sends.
 */
module Transmitter {
  import opened Wrappers
  import opened RawBytes

  type Mac = string
  type IpAddress = string

  /** A wall-clock reading (`datetime.now()`), supplied by the caller. */
  type Timestamp = int

  const DefaultTargetMac: Mac := "ff:ff:ff:ff:ff:ff"
  const DefaultTargetIp: IpAddress := "192.168.1.1"
  const DefaultInterface: string := "eth0"
  const DefaultSrcIp: IpAddress := "192.168.1.100"
  const DefaultSrcPort: int := 12345
  const DefaultDstPort: int := 80
  const DefaultTtl: nat := 64
  /** TCP flags of the template: SYN. */
  const SynFlags: string := "S"

  datatype Ether = Ether(src: Mac, dst: Mac)
  datatype Ipv4 = Ipv4(src: IpAddress, dst: IpAddress, ttl: nat)
  datatype Transport = Tcp(sport: int, dport: int, flags: string) | Udp(sport: int, dport: int)
  datatype Frame = Frame(ether: Ether, ip: Ipv4, transport: Transport, payload: seq<byte>)

  /** The byte serialisation of a layered frame (`raw(ether / ip / transport / payload)`).
      Its encoding is left abstract. */
  type Serialiser = Frame -> seq<byte>

  /** One entry of the tracker: when, the sent-packet count at that moment, and the frame as hex. */
  datatype PacketRecord = PacketRecord(time: Timestamp, seqNo: nat, hex: string)

  /** The layered frame `reset_packet` assembles. */
  function TemplateFrame(targetMac: Mac, targetIp: IpAddress, useTcp: bool,
                         srcIp: IpAddress, srcMac: Mac, srcPort: int, dstPort: int): (fr: Frame)
    ensures fr.ether.dst == targetMac && fr.ip.dst == targetIp && fr.payload == []
    ensures fr.transport.Tcp? <==> useTcp
  {
    Frame(Ether(srcMac, targetMac),
          Ipv4(srcIp, targetIp, DefaultTtl),
          if useTcp then Tcp(srcPort, dstPort, SynFlags) else Udp(srcPort, dstPort),
          [])
  }

  /** The bytes `mutate_packet(rate)` stores: the first `FlipCount` picks applied to `bs`. */
  function MutatedBytes(bs: seq<byte>, rate: Rate, picks: seq<Flip>): (r: seq<byte>)
    requires rate.den > 0 && |picks| >= FlipCount(|bs|, rate) && AllInRange(picks, |bs|)
    ensures |r| == |bs|
    ensures 1 <= FlipCount(|bs|, rate)
  {
    var used := picks[..FlipCount(|bs|, rate)];
    assert AllInRange(used, |bs|);
    ApplyFlips(bs, used)
  }

  /** A mutation is the flipping of `FlipCount` picked bits, some of which may land
      on the same bit and cancel out: it changes at most `FlipCount` bits, and the
      number changed has the parity of `FlipCount`. */
  lemma MutationDistance(bs: seq<byte>, rate: Rate, picks: seq<Flip>)
    requires rate.den > 0 && |picks| >= FlipCount(|bs|, rate) && AllInRange(picks, |bs|)
    ensures Distance(bs, MutatedBytes(bs, rate, picks)) <= FlipCount(|bs|, rate)
    ensures (FlipCount(|bs|, rate) - Distance(bs, MutatedBytes(bs, rate, picks))) % 2 == 0
  {
    var used := picks[..FlipCount(|bs|, rate)];
    assert AllInRange(used, |bs|);
    ApplyFlipsDistance(bs, used);
  }

  /** The random inputs of one loop cycle: `RandMAC()` for the source address,
      the `random.randint` picks, and `datetime.now()` at tracking time. */
  datatype Cycle = Cycle(randomMac: Mac, picks: seq<Flip>, time: Timestamp)

  /** What a cycle depends on besides its own inputs: the serialiser, the target
      addresses and the choice of TCP or UDP. */
  datatype Setup = Setup(wire: Serialiser, targetMac: Mac, targetIp: IpAddress, useTcp: bool)

  /** The frame a cycle starts from: `reset_packet()` with its defaults. */
  function CycleFrame(cfg: Setup, c: Cycle): Frame {
    TemplateFrame(cfg.targetMac, cfg.targetIp, cfg.useTcp, DefaultSrcIp, c.randomMac, DefaultSrcPort, DefaultDstPort)
  }

  /** The picks suffice for `mutate_packet(0.01)` on the cycle's frame, and lie in range. */
  predicate CycleOk(cfg: Setup, c: Cycle) {
    var n := |cfg.wire(CycleFrame(cfg, c))|;
    |c.picks| >= FlipCount(n, DefaultRate) && AllInRange(c.picks, n)
  }

  predicate AllCyclesOk(cfg: Setup, cycles: seq<Cycle>) {
    forall k :: 0 <= k < |cycles| ==> CycleOk(cfg, cycles[k])
  }

  /** What one cycle tracks and sends: it depends on the setup and that cycle's
      inputs only, never on earlier cycles, so mutations do not compound. */
  function CycleBytes(cfg: Setup, c: Cycle): (r: seq<byte>)
    requires CycleOk(cfg, c)
    ensures |r| == |cfg.wire(CycleFrame(cfg, c))|
  {
    MutatedBytes(cfg.wire(CycleFrame(cfg, c)), DefaultRate, c.picks)
  }

  /** The record a cycle appends when the counter stands at `n`. */
  function CycleRecord(cfg: Setup, c: Cycle, n: nat): PacketRecord
    requires CycleOk(cfg, c)
  {
    PacketRecord(c.time, n, Hex(CycleBytes(cfg, c)))
  }

  /** The records `cycles` append when the counter starts at `n`: one per cycle, in order. */
  function Records(cfg: Setup, cycles: seq<Cycle>, n: nat): seq<PacketRecord>
    requires AllCyclesOk(cfg, cycles)
  {
    seq(|cycles|, k requires 0 <= k < |cycles| => CycleRecord(cfg, cycles[k], n + k))
  }

  /** The frames `cycles` send: one per cycle, in order. */
  function Frames(cfg: Setup, cycles: seq<Cycle>): seq<seq<byte>>
    requires AllCyclesOk(cfg, cycles)
  {
    seq(|cycles|, k requires 0 <= k < |cycles| => CycleBytes(cfg, cycles[k]))
  }

  /** Cycle `i` appends the `i`-th record and frame. */
  lemma RunStep(cfg: Setup, cycles: seq<Cycle>, n: nat, i: nat)
    requires AllCyclesOk(cfg, cycles) && i < |cycles|
    ensures Records(cfg, cycles, n)[..i + 1] == Records(cfg, cycles, n)[..i] + [CycleRecord(cfg, cycles[i], n + i)]
    ensures Frames(cfg, cycles)[..i + 1] == Frames(cfg, cycles)[..i] + [CycleBytes(cfg, cycles[i])]
  {
    var rs, fs := Records(cfg, cycles, n), Frames(cfg, cycles);
    assert rs[..i + 1] == rs[..i] + [rs[i]];
    assert fs[..i + 1] == fs[..i] + [fs[i]];
  }

  /** Each record holds the hex of the frame sent in the same cycle, and that hex
      decodes back to exactly those bytes. */
  lemma RecordsMatchFrames(cfg: Setup, cycles: seq<Cycle>, n: nat)
    requires AllCyclesOk(cfg, cycles)
    ensures |Records(cfg, cycles, n)| == |Frames(cfg, cycles)| == |cycles|
    ensures forall k :: 0 <= k < |cycles| ==>
              Records(cfg, cycles, n)[k].seqNo == n + k &&
              UnHex(Records(cfg, cycles, n)[k].hex) == Some(Frames(cfg, cycles)[k])
  {
    forall k | 0 <= k < |cycles|
      ensures UnHex(Records(cfg, cycles, n)[k].hex) == Some(Frames(cfg, cycles)[k])
    {
      HexRoundTrip(CycleBytes(cfg, cycles[k]));
    }
  }

  /** Running `xs` and then `ys` appends the same records as running `xs + ys`:
      a cycle's record depends only on its position, never on earlier cycles. */
  lemma RecordsSplit(cfg: Setup, xs: seq<Cycle>, ys: seq<Cycle>, n: nat)
    requires AllCyclesOk(cfg, xs) && AllCyclesOk(cfg, ys)
    ensures AllCyclesOk(cfg, xs + ys)
    ensures Records(cfg, xs + ys, n) == Records(cfg, xs, n) + Records(cfg, ys, n + |xs|)
    ensures Frames(cfg, xs + ys) == Frames(cfg, xs) + Frames(cfg, ys)
  {
    assert forall k :: 0 <= k < |xs| ==> (xs + ys)[k] == xs[k];
    assert forall k :: |xs| <= k < |xs + ys| ==> (xs + ys)[k] == ys[k - |xs|];
  }

  /** The caller-supplied list the transmitter appends to. */
  class Tracker {
    var records: seq<PacketRecord>

    constructor ()
      ensures records == []
    {
      records := [];
    }
  }

  class Transmitter {
    var stayAlive: bool
    const interface: string
    var targetMac: Mac
    var targetIp: IpAddress
    var nSent: nat
    const useTcp: bool
    const tracker: Tracker
    var ether: Ether
    var ip: Ipv4
    var transport: Transport
    var payload: seq<byte>
    /** The raw-byte override; `None` means the layered frame is used. */
    var raw: Option<seq<byte>>
    const wire: Serialiser
    /** The frames handed to `sendp`, oldest first. */
    ghost var sent: seq<seq<byte>>

    ghost predicate Valid()
      reads this
    {
      |sent| == nSent
    }

    function CurrentSetup(): Setup
      reads this
    {
      Setup(wire, targetMac, targetIp, useTcp)
    }

    function Layers(): Frame
      reads this
    {
      Frame(ether, ip, transport, payload)
    }

    /** The state cycle `c` leaves: its template layers, and its mutated bytes as the override. */
    ghost predicate AfterCycle(cfg: Setup, c: Cycle)
      reads this
      requires CycleOk(cfg, c)
    {
      raw == Some(CycleBytes(cfg, c)) && Layers() == CycleFrame(cfg, c)
    }

    /** `build_packet`, serialised: the override when set, else the layered frame. */
    function Build(): (bs: seq<byte>)
      reads this
      requires Valid()
      ensures raw.Some? ==> bs == raw.value
      ensures raw.None? ==> bs == wire(Layers())
    {
      if raw.Some? then raw.value else wire(Layers())
    }

    /** `Transmitter(tracker, target_mac='ff:ff:ff:ff:ff:ff', target_ip='192.168.1.1',
        interface='eth0', use_tcp=True)`; `wire` is scapy's serialisation and
        `randomMac` the `RandMAC()` value of the first `reset_packet`. */
    constructor (tracker: Tracker, wire: Serialiser, randomMac: Mac,
                 targetMac: Mac := DefaultTargetMac, targetIp: IpAddress := DefaultTargetIp,
                 interface: string := DefaultInterface, useTcp: bool := true)
      ensures Valid() && !stayAlive
      ensures this.tracker == tracker && this.interface == interface && this.useTcp == useTcp
      ensures this.wire == wire && this.targetMac == targetMac && this.targetIp == targetIp
      ensures nSent == 0 && sent == [] && raw == None
      ensures Layers() == TemplateFrame(targetMac, targetIp, useTcp, DefaultSrcIp, randomMac, DefaultSrcPort, DefaultDstPort)
    {
      this.interface := interface;
      this.targetMac := targetMac;
      this.targetIp := targetIp;
      this.nSent := 0;
      this.useTcp := useTcp;
      this.tracker := tracker;
      this.wire := wire;
      this.stayAlive := false;
      this.sent := [];
      this.raw := None;
      new;
      ResetPacket(DefaultSrcIp, None, DefaultSrcPort, DefaultDstPort, randomMac);
      raw := None;
    }

    /** `reset_packet`: a fresh template frame and no override. `randomMac` stands
        for `RandMAC()`, used when no source address is given. */
    method ResetPacket(srcIp: IpAddress, srcMac: Option<Mac>, srcPort: int, dstPort: int, randomMac: Mac)
      requires Valid()
      modifies this`ether, this`ip, this`transport, this`payload, this`raw
      ensures Valid() && raw == None
      ensures Layers() == TemplateFrame(targetMac, targetIp, useTcp, srcIp,
                                        if srcMac.Some? then srcMac.value else randomMac, srcPort, dstPort)
      ensures Build() == wire(Layers())
    {
      ether := Ether(if srcMac.None? then randomMac else srcMac.value, targetMac);
      ip := Ipv4(srcIp, targetIp, DefaultTtl);
      if useTcp {
        transport := Tcp(srcPort, dstPort, SynFlags);
      } else {
        transport := Udp(srcPort, dstPort);
      }
      payload := [];
      raw := None;
    }

    /** `set_payload` with bytes. */
    method SetPayload(p: seq<byte>)
      requires Valid()
      modifies this`payload
      ensures Valid() && payload == p
      ensures raw.Some? ==> Build() == old(Build())
    {
      payload := p;
    }

    /** `set_target_mac`: the stored target and `ether.dst`; an active override still wins. */
    method SetTargetMac(mac: Mac)
      requires Valid()
      modifies this`targetMac, this`ether
      ensures Valid() && targetMac == mac && ether == old(ether).(dst := mac)
      ensures raw.Some? ==> Build() == old(Build())
    {
      targetMac := mac;
      ether := ether.(dst := mac);
    }

    /** `set_target_ip`: the stored target and `ip.dst`; an active override still wins. */
    method SetTargetIp(addr: IpAddress)
      requires Valid()
      modifies this`targetIp, this`ip
      ensures Valid() && targetIp == addr && ip == old(ip).(dst := addr)
      ensures raw.Some? ==> Build() == old(Build())
    {
      targetIp := addr;
      ip := ip.(dst := addr);
    }

    /** `modify_raw_bytes`: write `nb` at `offset` into a copy of the current bytes
        and store it as the override. `ok` is false where Python raises IndexError
        (a write below `-len`); the override is then left as it was. */
    method ModifyRawBytes(offset: int, nb: seq<byte>) returns (ok: bool)
      requires Valid()
      modifies this`raw
      ensures Valid()
      ensures ok == Patch(old(Build()), offset, nb).Some?
      ensures ok ==> raw == Some(Patch(old(Build()), offset, nb).value) && Build() == raw.value
      ensures !ok ==> raw == old(raw)
    {
      var bs := Build();
      var a := new byte[|bs|](k requires 0 <= k < |bs| => bs[k]);
      assert a[..] == bs && nb[..0] == [];
      for i := 0 to |nb|
        invariant a.Length == |bs| && raw == old(raw)
        invariant Patch(bs, offset, nb[..i]) == Some(a[..])
      {
        assert nb[..i + 1][..i] == nb[..i];
        var j := offset + i;
        if j < a.Length {
          if j >= 0 {
            a[j] := nb[i];
          } else if j >= -a.Length {
            a[a.Length + j] := nb[i];
          } else {
            PatchFails(bs, offset, nb);
            return false;
          }
        }
      }
      assert nb[..|nb|] == nb;
      raw := Some(a[..]);
      ok := true;
    }

    /** `clear_raw_override`: back to the layered frame. */
    method ClearRawOverride()
      requires Valid()
      modifies this`raw
      ensures Valid() && raw == None && Build() == wire(Layers())
    {
      raw := None;
    }

    /** `mutate_packet(rate)`: flip `FlipCount` bits of a copy of the current bytes,
        one pick each, and store the result as the override. */
    method MutatePacket(rate: Rate, picks: seq<Flip>)
      requires Valid() && rate.den > 0
      requires |picks| >= FlipCount(|Build()|, rate) && AllInRange(picks, |Build()|)
      modifies this`raw
      ensures Valid()
      ensures raw == Some(MutatedBytes(old(Build()), rate, picks))
      ensures Build() == raw.value && |Build()| == |old(Build())|
    {
      var bs := Build();
      var a := new byte[|bs|](k requires 0 <= k < |bs| => bs[k]);
      assert a[..] == bs && picks[..0] == [];
      var bitsToFlip := FlipCount(a.Length, rate);
      for i := 0 to bitsToFlip
        invariant a.Length == |bs| && raw == old(raw)
        invariant AllInRange(picks[..i], |bs|)
        invariant a[..] == ApplyFlips(bs, picks[..i])
      {
        ApplyFlipsStep(bs, picks, i);
        var f := picks[i];
        a[f.byteIdx] := a[f.byteIdx] ^ Mask(f.bitIdx);
      }
      raw := Some(a[..]);
    }

    /** `get_packet_hex` */
    method GetPacketHex() returns (h: string)
      requires Valid()
      ensures h == Hex(Build())
      ensures UnHex(h) == Some(Build())
    {
      h := Hex(Build());
      HexRoundTrip(Build());
    }

    /** `send_frame()` without a payload: the current bytes go to the link and the
        counter goes up by one. */
    method SendFrame()
      requires Valid()
      modifies this`nSent, this`sent
      ensures Valid()
      ensures nSent == old(nSent) + 1
      ensures sent == old(sent) + [Build()]
    {
      sent := sent + [Build()];
      nSent := nSent + 1;
    }

    /** `get_n_packets_sent` */
    method GetNPacketsSent() returns (n: nat)
      requires Valid()
      ensures n == nSent == |sent|
    {
      n := nSent;
    }

    /** `track_packet(now)`: append exactly one record, earlier entries untouched. */
    method TrackPacket(now: Timestamp)
      requires Valid()
      modifies tracker
      ensures tracker.records == old(tracker.records) + [PacketRecord(now, nSent, Hex(Build()))]
      ensures |tracker.records[|tracker.records| - 1].hex| == 2 * |Build()|
    {
      var n := GetNPacketsSent();
      var h := GetPacketHex();
      tracker.records := tracker.records + [PacketRecord(now, n, h)];
    }

    /** One iteration of `run`'s loop: reset, mutate at 0.01, track, send.
        `cfg` names the current setup, which the cycle leaves unchanged. */
    method RunCycle(c: Cycle, ghost cfg: Setup)
      requires Valid() && cfg == CurrentSetup() && CycleOk(cfg, c)
      modifies this`ether, this`ip, this`transport, this`payload, this`raw, this`nSent, this`sent, tracker
      ensures Valid() && cfg == CurrentSetup()
      ensures AfterCycle(cfg, c)
      ensures nSent == old(nSent) + 1
      ensures sent == old(sent) + [CycleBytes(cfg, c)]
      ensures tracker.records == old(tracker.records) + [CycleRecord(cfg, c, old(nSent))]
    {
      ResetPacket(DefaultSrcIp, None, DefaultSrcPort, DefaultDstPort, c.randomMac);
      MutatePacket(DefaultRate, c.picks);
      TrackPacket(c.time);
      SendFrame();
    }

    /** `run`: set the flag and loop over the cycles while it stays set. */
    method Run(cycles: seq<Cycle>)
      requires Valid() && AllCyclesOk(CurrentSetup(), cycles)
      modifies this`stayAlive, this`ether, this`ip, this`transport, this`payload, this`raw,
               this`nSent, this`sent, tracker
      ensures Valid() && stayAlive && CurrentSetup() == old(CurrentSetup())
      ensures nSent == old(nSent) + |cycles|
      ensures tracker.records == old(tracker.records) + Records(CurrentSetup(), cycles, old(nSent))
      ensures sent == old(sent) + Frames(CurrentSetup(), cycles)
      ensures cycles == [] ==> (raw == old(raw) && Layers() == old(Layers()))
      ensures cycles != [] ==> AfterCycle(CurrentSetup(), cycles[|cycles| - 1])
    {
      stayAlive := true;
      ghost var cfg := CurrentSetup();
      ghost var records0, sent0, n0 := tracker.records, sent, nSent;
      ghost var raw0, layers0 := raw, Layers();
      ghost var expected, frames := Records(cfg, cycles, n0), Frames(cfg, cycles);
      var i := 0;
      while stayAlive && i < |cycles|
        invariant stayAlive && 0 <= i <= |cycles| && Valid() && CurrentSetup() == cfg
        invariant nSent == n0 + i
        invariant tracker.records == records0 + expected[..i]
        invariant sent == sent0 + frames[..i]
        invariant i == 0 ==> (raw == raw0 && Layers() == layers0)
        invariant i > 0 ==> AfterCycle(cfg, cycles[i - 1])
      {
        RunStep(cfg, cycles, n0, i);
        RunCycle(cycles[i], cfg);
        i := i + 1;
      }
      assert expected[..i] == expected && frames[..i] == frames;
    }

    /** `kill`: clear the flag so the loop stops. */
    method Kill()
      modifies this`stayAlive
      ensures !stayAlive
    {
      stayAlive := false;
    }
  }

  /** A transmitter built on a fresh tracker and run for the given cycles: the k-th
      record (0-based) carries sequence number k, every cycle is sent once, and each
      record holds the hex of that cycle's own mutated template. */
  method FuzzSession(cfg: Setup, interface: string, startMac: Mac, cycles: seq<Cycle>)
    returns (records: seq<PacketRecord>, sentCount: nat)
    requires AllCyclesOk(cfg, cycles)
    ensures sentCount == |records| == |cycles|
    ensures forall k :: 0 <= k < |records| ==>
              records[k].seqNo == k && records[k].time == cycles[k].time &&
              records[k].hex == Hex(CycleBytes(cfg, cycles[k])) &&
              UnHex(records[k].hex) == Some(CycleBytes(cfg, cycles[k]))
  {
    var tracker := new Tracker();
    var t := new Transmitter(tracker, cfg.wire, startMac, cfg.targetMac, cfg.targetIp, interface, cfg.useTcp);
    assert t.CurrentSetup() == cfg;
    t.Run(cycles);
    records := tracker.records;
    sentCount := t.GetNPacketsSent();
    SessionRecords(cfg, cycles, records);
  }

  /** The records of a run from sequence number 0, cycle by cycle. */
  lemma SessionRecords(cfg: Setup, cycles: seq<Cycle>, records: seq<PacketRecord>)
    requires AllCyclesOk(cfg, cycles) && records == Records(cfg, cycles, 0)
    ensures |records| == |cycles|
    ensures forall k :: 0 <= k < |records| ==>
              records[k].seqNo == k && records[k].time == cycles[k].time &&
              records[k].hex == Hex(CycleBytes(cfg, cycles[k])) &&
              UnHex(records[k].hex) == Some(CycleBytes(cfg, cycles[k]))
  {
    RecordsMatchFrames(cfg, cycles, 0);
  }
}
