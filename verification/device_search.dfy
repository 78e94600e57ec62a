/**
 * Device discovery (`find_device`): one probe of the USB bus per attempt, repeated under
 * a fixed-delay retry until a probe opens a device or the delays run out.
 *
 * The USB library is an oracle indexed by the attempt number: `open(t, (vid, pid))` is
 * what `open_device_with_vid_pid` answers during attempt `t`, and `devices(t)` is the
 * (vid, pid) list `rusb::devices()` enumerates then, or `None` when libusb fails.
 */
module DeviceSearch {
  import opened Ints
  import opened Wrappers
  import opened ChipTable
  import opened Options

  /** An opened USB device, with the ids its device descriptor reports. */
  datatype Handle = Handle(vid: u16, pid: u16, id: nat)

  datatype Usb = Usb(open: (nat, Pair) -> Option<Handle>, devices: nat -> Option<seq<Pair>>)

  /** Which of the three search strategies an attempt runs. */
  datatype Criteria = Explicit(vid: u16, pid: u16) | ChipName(name: string) | AnyKnown

  /** The outcome of one attempt: a handle, the retryable "no device found", or the libusb panic. */
  datatype ProbeResult = Opened(handle: Handle) | NoDeviceFound | EnumerationFailed

  /** The outcome of the whole search; `Aborted` is the panic of `rusb::devices().expect`. */
  datatype SearchOutcome = Found(handle: Handle) | NotFound | Aborted

  /** Branch precedence: both explicit ids, else a chip name, else any known pair. */
  function CriteriaOf(opt: Opt): (c: Criteria)
    ensures c.Explicit? <==> opt.vid.Some? && opt.pid.Some?
    ensures c.Explicit? ==> c.vid == opt.vid.value && c.pid == opt.pid.value
    ensures c.ChipName? <==> !(opt.vid.Some? && opt.pid.Some?) && opt.chip.Some?
    ensures c.ChipName? ==> c.name == opt.chip.value
    ensures c.AnyKnown? <==> !(opt.vid.Some? && opt.pid.Some?) && opt.chip.None?
  {
    if opt.vid.Some? && opt.pid.Some? then Explicit(opt.vid.value, opt.pid.value)
    else if opt.chip.Some? then ChipName(opt.chip.value)
    else AnyKnown
  }

  /** A lone vendor id or product id is ignored: the search is as if neither were given. */
  lemma LoneIdIgnored(opt: Opt)
    requires opt.vid.None? || opt.pid.None?
    ensures CriteriaOf(opt) == CriteriaOf(opt.(vid := None, pid := None))
  {
  }

  /** The first pair of `pairs[i..]`, in list order, that opens during attempt `t`. */
  function FirstOpened(usb: Usb, t: nat, pairs: seq<Pair>, i: nat): (r: Option<Handle>)
    requires i <= |pairs|
    ensures r.None? <==> forall k :: i <= k < |pairs| ==> usb.open(t, pairs[k]).None?
    decreases |pairs| - i
  {
    if i == |pairs| then None
    else if usb.open(t, pairs[i]).Some? then usb.open(t, pairs[i])
    else FirstOpened(usb, t, pairs, i + 1)
  }

  /** The handle found is that of a pair that opens, and every pair listed before it fails to open. */
  lemma {:induction false} FirstOpenedIsFirst(usb: Usb, t: nat, pairs: seq<Pair>, i: nat)
    requires i <= |pairs| && FirstOpened(usb, t, pairs, i).Some?
    ensures exists k :: i <= k < |pairs| && usb.open(t, pairs[k]) == FirstOpened(usb, t, pairs, i)
                        && forall j :: i <= j < k ==> usb.open(t, pairs[j]).None?
    decreases |pairs| - i
  {
    if usb.open(t, pairs[i]).None? {
      FirstOpenedIsFirst(usb, t, pairs, i + 1);
    }
  }

  /** The last of the first `n` enumerated devices that is in the table and opens during attempt `t`. */
  function LastKnownOpened(usb: Usb, t: nat, devs: seq<Pair>, n: nat): (r: Option<Handle>)
    requires n <= |devs|
    ensures r.None? <==> forall k :: 0 <= k < n ==> !(Known(devs[k]) && usb.open(t, devs[k]).Some?)
  {
    if n == 0 then None
    else if Known(devs[n - 1]) && usb.open(t, devs[n - 1]).Some? then usb.open(t, devs[n - 1])
    else LastKnownOpened(usb, t, devs, n - 1)
  }

  /** The handle found is that of a known device that opens, and no known device enumerated after it opens. */
  lemma {:induction false} LastKnownOpenedIsLast(usb: Usb, t: nat, devs: seq<Pair>, n: nat)
    requires n <= |devs| && LastKnownOpened(usb, t, devs, n).Some?
    ensures exists k :: 0 <= k < n && Known(devs[k]) && usb.open(t, devs[k]) == LastKnownOpened(usb, t, devs, n)
                        && forall j :: k < j < n ==> !(Known(devs[j]) && usb.open(t, devs[j]).Some?)
  {
    if !(Known(devs[n - 1]) && usb.open(t, devs[n - 1]).Some?) {
      LastKnownOpenedIsLast(usb, t, devs, n - 1);
    }
  }

  /** What one attempt yields under each strategy. */
  function ProbeSpec(c: Criteria, usb: Usb, t: nat): ProbeResult {
    match c
    case Explicit(v, p) =>
      if usb.open(t, (v, p)).Some? then Opened(usb.open(t, (v, p)).value) else NoDeviceFound
    case ChipName(name) =>
      (match Lookup(name)
       case None => NoDeviceFound
       case Some(pairs) =>
         var r := FirstOpened(usb, t, pairs, 0);
         if r.Some? then Opened(r.value) else NoDeviceFound)
    case AnyKnown =>
      match usb.devices(t)
      case None => EnumerationFailed
      case Some(devs) =>
        var r := LastKnownOpened(usb, t, devs, |devs|);
        if r.Some? then Opened(r.value) else NoDeviceFound
  }

  /** An unknown chip name never finds a device and never fails hard: every attempt is retryable. */
  lemma UnknownChipNeverFound(name: string, usb: Usb, t: nat)
    requires name != "stm32" && name != "gd32vf103"
    ensures ProbeSpec(ChipName(name), usb, t) == NoDeviceFound
  {
  }

  /** The chip branch: try the chip's pairs in table order, keep the first that opens. */
  method ProbeChip(usb: Usb, t: nat, name: string) returns (r: Option<Handle>)
    ensures Lookup(name).None? ==> r.None?
    ensures Lookup(name).Some? ==> r == FirstOpened(usb, t, Lookup(name).value, 0)
  {
    var device: Option<Handle> := None;
    var vendor := VendorMap();
    if name in vendor {
      var products := vendor[name];
      for i := 0 to |products|
        invariant device.None?
        invariant FirstOpened(usb, t, products, 0) == FirstOpened(usb, t, products, i)
      {
        var d := usb.open(t, products[i]);
        if d.Some? {
          device := d;
          break;
        }
      }
    }
    r := device;
  }

  /**
   * The loop over the table for one enumerated device `d`: the first entry listing `d`
   * leads to an attempt to open it; on success the inner loop breaks with the handle.
   */
  method MatchTable(usb: Usb, t: nat, d: Pair) returns (r: Option<Handle>)
    ensures r == if Known(d) && usb.open(t, d).Some? then usb.open(t, d) else None
  {
    r := None;
    for j := 0 to |Entries|
      invariant r.None?
      invariant (exists e :: 0 <= e < j && d in Entries[e].1) ==> usb.open(t, d).None?
    {
      if d in Entries[j].1 {
        var h := usb.open(t, d);
        if h.Some? {
          r := h;
          break;
        }
      }
    }
  }

  /**
   * The any-known branch. The `break` leaves only the loop over the table; the loop over
   * the enumerated devices goes on, so a later match overwrites an earlier one.
   */
  method ProbeAny(usb: Usb, t: nat) returns (r: ProbeResult)
    ensures usb.devices(t).None? <==> r == EnumerationFailed
    ensures usb.devices(t).Some? ==>
              var found := LastKnownOpened(usb, t, usb.devices(t).value, |usb.devices(t).value|);
              r == if found.Some? then Opened(found.value) else NoDeviceFound
  {
    var enumeration := usb.devices(t);
    if enumeration.None? {
      return EnumerationFailed;
    }
    var devices := enumeration.value;
    var device: Option<Handle> := None;
    for k := 0 to |devices|
      invariant device == LastKnownOpened(usb, t, devices, k)
    {
      var matched := MatchTable(usb, t, devices[k]);
      if matched.Some? {
        device := matched;
      }
    }
    r := if device.Some? then Opened(device.value) else NoDeviceFound;
  }

  /** One attempt of the retried closure. */
  method ProbeOnce(c: Criteria, usb: Usb, t: nat) returns (r: ProbeResult)
    ensures r == ProbeSpec(c, usb, t)
  {
    match c
    case Explicit(v, p) =>
      var d := usb.open(t, (v, p));
      r := if d.Some? then Opened(d.value) else NoDeviceFound;
    case ChipName(name) =>
      var d := ProbeChip(usb, t, name);
      r := if d.Some? then Opened(d.value) else NoDeviceFound;
    case AnyKnown =>
      r := ProbeAny(usb, t);
  }

  /** The first attempt in `t..retries` whose probe does not come back empty, if any. */
  function FirstAnswer(c: Criteria, usb: Usb, t: nat, retries: nat): (r: Option<nat>)
    ensures r.Some? ==> t <= r.value <= retries && ProbeSpec(c, usb, r.value) != NoDeviceFound
    ensures r.Some? ==> forall s :: t <= s < r.value ==> ProbeSpec(c, usb, s) == NoDeviceFound
    ensures r.None? <==> forall s :: t <= s <= retries ==> ProbeSpec(c, usb, s) == NoDeviceFound
    decreases retries - t
  {
    if t > retries then None
    else if ProbeSpec(c, usb, t) != NoDeviceFound then Some(t)
    else FirstAnswer(c, usb, t + 1, retries)
  }

  /** The outcome of the search: decided by the first probe that answers, `NotFound` if none does. */
  function SearchSpec(opt: Opt, usb: Usb): SearchOutcome {
    match FirstAnswer(CriteriaOf(opt), usb, 0, opt.retries)
    case None => NotFound
    case Some(t) =>
      match ProbeSpec(CriteriaOf(opt), usb, t)
      case Opened(h) => Found(h)
      case _ => Aborted
  }

  /** The number of delays slept: one before each probe after the first. */
  function SleepCount(opt: Opt, usb: Usb): nat {
    match FirstAnswer(CriteriaOf(opt), usb, 0, opt.retries)
    case None => opt.retries
    case Some(t) => t
  }

  /** The search gives up exactly when all `retries + 1` probes come back empty. */
  lemma NotFoundIffAllProbesEmpty(opt: Opt, usb: Usb)
    ensures SearchSpec(opt, usb) == NotFound <==>
              forall t :: 0 <= t <= opt.retries ==> ProbeSpec(CriteriaOf(opt), usb, t) == NoDeviceFound
    ensures SearchSpec(opt, usb) == NotFound ==> SleepCount(opt, usb) == opt.retries
  {
    var first := FirstAnswer(CriteriaOf(opt), usb, 0, opt.retries);
    if first.Some? {
      assert ProbeSpec(CriteriaOf(opt), usb, first.value) != NoDeviceFound;
    }
  }

  /**
   * With none of the search flags given, the any-known strategy runs, and the search waits
   * at most `DEFAULT_RETRIES` delays of `DEFAULT_DELAY` ms: the 30 s the "Looping" line announces.
   */
  lemma DefaultSearchWaitsThirtySeconds(usb: Usb)
    ensures var opt := Opt(None, None, None, false, DEFAULT_DELAY, DEFAULT_RETRIES);
            CriteriaOf(opt) == AnyKnown &&
            SleepCount(opt, usb) <= DEFAULT_RETRIES &&
            SleepCount(opt, usb) * DEFAULT_DELAY as nat <= 30_000
  {
  }

  /**
   * `find_device`: probe once, then for each of the `opt.retries` delays sleep and probe
   * again, stopping at the first probe that opens a device. `sleeps` lists the delays
   * slept, in order; the number of probes made is `|sleeps| + 1`.
   */
  method FindDevice(opt: Opt, usb: Usb) returns (r: SearchOutcome, sleeps: seq<u64>)
    ensures r == SearchSpec(opt, usb) && |sleeps| == SleepCount(opt, usb)
    ensures |sleeps| <= opt.retries
    ensures forall k :: 0 <= k < |sleeps| ==> sleeps[k] == opt.delay
    ensures forall t :: 0 <= t < |sleeps| ==> ProbeSpec(CriteriaOf(opt), usb, t) == NoDeviceFound
    ensures r.Found? <==> ProbeSpec(CriteriaOf(opt), usb, |sleeps|).Opened?
    ensures r.Found? ==> ProbeSpec(CriteriaOf(opt), usb, |sleeps|) == Opened(r.handle)
    ensures r.Aborted? <==> ProbeSpec(CriteriaOf(opt), usb, |sleeps|) == EnumerationFailed
    ensures r.NotFound? ==> |sleeps| == opt.retries
  {
    var c := CriteriaOf(opt);
    sleeps := [];
    var t := 0;
    var p := ProbeOnce(c, usb, t);
    while p == NoDeviceFound && t < opt.retries
      invariant t == |sleeps| <= opt.retries
      invariant forall k :: 0 <= k < |sleeps| ==> sleeps[k] == opt.delay
      invariant forall s :: 0 <= s < t ==> ProbeSpec(c, usb, s) == NoDeviceFound
      invariant p == ProbeSpec(c, usb, t)
      invariant FirstAnswer(c, usb, 0, opt.retries) == FirstAnswer(c, usb, t, opt.retries)
    {
      sleeps := sleeps + [opt.delay];
      t := t + 1;
      p := ProbeOnce(c, usb, t);
    }
    r := match p
      case Opened(h) => Found(h)
      case NoDeviceFound => NotFound
      case EnumerationFailed => Aborted;
  }

  /** The oracle reports, for every handle it opens, the ids it was asked for. */
  ghost predicate Faithful(usb: Usb) {
    forall t: nat, p: Pair {:trigger usb.open(t, p)} ::
      usb.open(t, p).Some? ==> (usb.open(t, p).value.vid, usb.open(t, p).value.pid) == p
  }

  /** The ids of a handle satisfy the criteria of the strategy that produced it. */
  ghost predicate Satisfies(c: Criteria, h: Handle) {
    match c
    case Explicit(v, p) => h.vid == v && h.pid == p
    case ChipName(name) => Lookup(name).Some? && (h.vid, h.pid) in Lookup(name).value
    case AnyKnown => Known((h.vid, h.pid))
  }

  /**
   * With a faithful oracle, a device is only ever selected when its ids match the
   * strategy: the explicit pair, one of the named chip's pairs, or some pair of the table.
   */
  lemma ProbeSatisfiesCriteria(c: Criteria, usb: Usb, t: nat)
    requires Faithful(usb)
    requires ProbeSpec(c, usb, t).Opened?
    ensures Satisfies(c, ProbeSpec(c, usb, t).handle)
  {
    var h := ProbeSpec(c, usb, t).handle;
    match c
    case Explicit(v, p) =>
      assert usb.open(t, (v, p)) == Some(h);
    case ChipName(name) =>
      var pairs := Lookup(name).value;
      FirstOpenedIsFirst(usb, t, pairs, 0);
      var k :| 0 <= k < |pairs| && usb.open(t, pairs[k]) == Some(h);
      assert (h.vid, h.pid) == pairs[k];
    case AnyKnown =>
      var devs := usb.devices(t).value;
      LastKnownOpenedIsLast(usb, t, devs, |devs|);
      var k :| 0 <= k < |devs| && Known(devs[k]) && usb.open(t, devs[k]) == Some(h);
      assert (h.vid, h.pid) == devs[k];
  }

  /**
   * With two known devices attached and both opening, the any-known search yields the
   * one enumerated last, not the first.
   */
  lemma AnyKnownYieldsLastMatch()
    ensures var stm := Handle(0x0483, 0xdf11, 1);
            var gd := Handle(0x28e9, 0x0189, 2);
            var usb := Usb((t: nat, p: Pair) => if p == (0x0483, 0xdf11) then Some(stm)
                                                else if p == (0x28e9, 0x0189) then Some(gd) else None,
                           (t: nat) => Some([(0x0483, 0xdf11), (0x28e9, 0x0189)]));
            ProbeSpec(AnyKnown, usb, 0) == Opened(gd)
  {
    KnownPairs((0x28e9, 0x0189));
  }
}
