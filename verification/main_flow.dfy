/**
 * The `cargo dfu` command (`main`): list the chip table and return, or strip this tool's
 * flags, build with `cargo build`, search for the device, convert the ELF artifact to a
 * flat binary and flash it.
 *
 * What the program observes of the outside world is an `Environment` fixed for one run;
 * what it does is a sequence of `Event`s and how it ends an `Exit`.
 */
module CargoDfu {
  import opened Ints
  import opened Wrappers
  import opened Errors
  import opened ElfImage
  import opened ChipTable
  import opened Options
  import opened DeviceSearch
  import opened Flash
  import opened Cli

  /** The outside world of one run. */
  datatype Environment = Environment(
    /** The status `cargo build` ends with for these arguments, as `exit_with_process_status` would exit; 0 is success. */
    build: seq<string> -> int,
    usb: Usb,
    /** Reading and parsing the artifact: the parsed ELF, or the `UtilError` for a file or parse failure. */
    artifact: Result<Elf, UtilError>,
    dfu: DfuLibrary)

  /** What the program does that is visible from outside. */
  datatype Event =
    | Listed(name: string)                        // one line of `--list-chips`
    | Built(args: seq<string>)                    // `cargo build` run with these arguments
    | Slept(ms: u64)                              // one delay of the retry
    | Flashing(binary: seq<u8>, device: Handle)   // `flash_bin` called
    | ErrorPrinted(error: UtilError)              // "Error flashing binary: ..."
    | Finished                                    // "Finished in ...s"

  /** How the process ends: returning from `main`, `process::exit(code)`, or a panic. */
  datatype Exit = Returned | Exited(code: int) | Panicked

  /** The listing of `--list-chips`: one line per table entry. */
  function Listing(): (events: seq<Event>)
    ensures |events| == |Entries|
    ensures forall k :: 0 <= k < |events| ==> events[k] == Listed(Entries[k].0)
  {
    seq(|Entries|, k requires 0 <= k < |Entries| => Listed(Entries[k].0))
  }

  /** The `--list-chips` loop. */
  method ListChips() returns (events: seq<Event>)
    ensures events == Listing()
  {
    events := [];
    for i := 0 to |Entries|
      invariant events == Listing()[..i]
    {
      events := events + [Listed(Entries[i].0)];
    }
  }

  /** `n` delays of `delay` milliseconds. */
  function Sleeps(n: nat, delay: u64): (events: seq<Event>)
    ensures |events| == n && forall k :: 0 <= k < n ==> events[k] == Slept(delay)
  {
    seq(n, _ => Slept(delay))
  }

  /** The end of the run once a device `h` is found: convert the artifact, flash it, report. */
  ghost function FlashPhase(h: Handle, env: Environment): (seq<Event>, Exit)
    requires env.artifact.Ok? ==> Convertible(env.artifact.value)
  {
    if env.artifact.Err? then ([], Panicked)
    else
      var sel := Selected(env.artifact.value.programHeaders, env.artifact.value.ehsize);
      if StartAddress(sel) > U32_MAX then ([], Panicked)
      else
        var binary := Layout(sel, env.artifact.value.file);
        var outcome := Classify(FlashBin(binary, h, env.dfu));
        var report := if outcome.Reported? then [ErrorPrinted(outcome.error)] else [];
        ([Flashing(binary, h)] + report + [Finished], Returned)
  }

  /** The run after a successful build: search, then exit 101, panic, or flash. */
  ghost function DevicePhase(opt: Opt, env: Environment): (seq<Event>, Exit)
    requires env.artifact.Ok? ==> Convertible(env.artifact.value)
  {
    var waited := Sleeps(SleepCount(opt, env.usb), opt.delay);
    match SearchSpec(opt, env.usb)
    case NotFound => (waited, Exited(101))
    case Aborted => (waited, Panicked)
    case Found(h) => (waited + FlashPhase(h, env).0, FlashPhase(h, env).1)
  }

  /** The run, as a function of the options, the raw arguments and the environment. */
  ghost function Expected(opt: Opt, args: seq<string>, env: Environment): (seq<Event>, Exit)
    requires env.artifact.Ok? ==> Convertible(env.artifact.value)
  {
    if opt.listChips then (Listing(), Returned)
    else match StripSteps(args, FLAGS, |FLAGS|)
      case None => ([], Panicked)
      case Some(forward) =>
        if env.build(forward) != 0 then ([Built(forward)], Exited(env.build(forward)))
        else ([Built(forward)] + DevicePhase(opt, env).0, DevicePhase(opt, env).1)
  }

  /** Converting and flashing, once `find_device` has returned a device. */
  method FlashDevice(d: Handle, env: Environment) returns (events: seq<Event>, exit: Exit)
    requires env.artifact.Ok? ==> Convertible(env.artifact.value)
    ensures (events, exit) == FlashPhase(d, env)
  {
    if env.artifact.Err? {
      return [], Panicked;
    }
    var converted := ElfToBin(env.artifact.value);
    if converted.Err? {
      return [], Panicked;
    }
    var (binary, _) := converted.value;
    events := [Flashing(binary, d)];
    var outcome := Classify(FlashBin(binary, d, env.dfu));
    if outcome.Reported? {
      events := events + [ErrorPrinted(outcome.error)];
    }
    events := events + [Finished];
    exit := Returned;
    assert FlashPhase(d, env).0 == events;
  }

  /** Searching for the device after the build, then flashing it. */
  method SearchAndFlash(opt: Opt, env: Environment) returns (events: seq<Event>, exit: Exit)
    requires env.artifact.Ok? ==> Convertible(env.artifact.value)
    ensures (events, exit) == DevicePhase(opt, env)
  {
    var found, sleeps := FindDevice(opt, env.usb);
    events := Sleeps(|sleeps|, opt.delay);
    match found
    case NotFound =>
      exit := Exited(101);
    case Aborted =>
      exit := Panicked;
    case Found(d) =>
      var flashed, finish := FlashDevice(d, env);
      events, exit := events + flashed, finish;
  }

  /**
   * `main`. The arguments are those after the program name and the `dfu` subcommand;
   * `opt` is what the argument parser made of them.
   */
  method Run(opt: Opt, args: seq<string>, env: Environment) returns (events: seq<Event>, exit: Exit)
    requires env.artifact.Ok? ==> Convertible(env.artifact.value)
    ensures (events, exit) == Expected(opt, args, env)
  {
    if opt.listChips {
      events := ListChips();
      return events, Returned;
    }
    var forward := StripFlags(args, FLAGS);
    if forward.None? {
      return [], Panicked;
    }
    var status := env.build(forward.value);
    if status != 0 {
      return [Built(forward.value)], Exited(status);
    }
    var rest, finish := SearchAndFlash(opt, env);
    events, exit := [Built(forward.value)] + rest, finish;
  }

  /** The listing names every chip of the table, each on exactly one line. */
  lemma ListingNamesEachChipOnce()
    ensures forall k :: 0 <= k < |Listing()| ==> Listing()[k].Listed?
    ensures (set k | 0 <= k < |Listing()| :: Listing()[k].name) == VendorMap().Keys
    ensures |Listing()| == |VendorMap().Keys|
  {
    var names := set k | 0 <= k < |Listing()| :: Listing()[k].name;
    assert Listing()[0].name == "stm32" && Listing()[1].name == "gd32vf103";
    assert names == {"stm32", "gd32vf103"};
    assert "stm32" != "gd32vf103";
    assert |{"stm32", "gd32vf103"}| == 2;
  }

  /** With `--list-chips`, the listing is all that happens: no build, no search, no flashing, and `main` returns. */
  lemma ListChipsReturnsEarly(opt: Opt, args: seq<string>, env: Environment)
    requires env.artifact.Ok? ==> Convertible(env.artifact.value)
    requires opt.listChips
    ensures Expected(opt, args, env) == (Listing(), Returned)
  {
  }

  /** A failed build ends the run with the build's own status, before any search. */
  lemma BuildFailureExitsWithStatus(opt: Opt, args: seq<string>, env: Environment, forward: seq<string>)
    requires env.artifact.Ok? ==> Convertible(env.artifact.value)
    requires !opt.listChips && StripSteps(args, FLAGS, |FLAGS|) == Some(forward)
    requires env.build(forward) != 0
    ensures Expected(opt, args, env) == ([Built(forward)], Exited(env.build(forward)))
  {
  }

  /** The arguments handed to `cargo build` are the raw ones with the tool's own flags stripped. */
  lemma BuildSeesStrippedArguments(opt: Opt, args: seq<string>, env: Environment)
    requires env.artifact.Ok? ==> Convertible(env.artifact.value)
    requires !opt.listChips
    ensures var (events, exit) := Expected(opt, args, env);
            match StripSteps(args, FLAGS, |FLAGS|)
            case None => events == [] && exit == Panicked
            case Some(forward) => |events| >= 1 && events[0] == Built(forward)
  {
  }

  /**
   * When every probe comes back empty, the program sleeps `retries` times and exits with
   * status 101 without converting or flashing anything.
   */
  lemma NoDeviceExits101(opt: Opt, args: seq<string>, env: Environment, forward: seq<string>)
    requires env.artifact.Ok? ==> Convertible(env.artifact.value)
    requires !opt.listChips && StripSteps(args, FLAGS, |FLAGS|) == Some(forward) && env.build(forward) == 0
    requires forall t :: 0 <= t <= opt.retries ==> ProbeSpec(CriteriaOf(opt), env.usb, t) == NoDeviceFound
    ensures var (events, exit) := Expected(opt, args, env);
            exit == Exited(101) &&
            events == [Built(forward)] + Sleeps(opt.retries, opt.delay) &&
            forall k :: 0 <= k < |events| ==> !events[k].Flashing?
  {
    NotFoundIffAllProbesEmpty(opt, env.usb);
  }

  /**
   * What is flashed is the flat image of the ELF's selected segments, whatever the start
   * address was (it is only checked to fit in 32 bits and then dropped), and the device
   * flashed is the one the probe after the last sleep opened.
   */
  lemma FlashedBinaryIsLayout(opt: Opt, args: seq<string>, env: Environment, k: nat)
    requires env.artifact.Ok? ==> Convertible(env.artifact.value)
    requires k < |Expected(opt, args, env).0| && Expected(opt, args, env).0[k].Flashing?
    ensures env.artifact.Ok?
    ensures var sel := Selected(env.artifact.value.programHeaders, env.artifact.value.ehsize);
            var e := Expected(opt, args, env).0[k];
            StartAddress(sel) <= U32_MAX &&
            e.binary == Layout(sel, env.artifact.value.file) &&
            k >= 1 && ProbeSpec(CriteriaOf(opt), env.usb, k - 1) == Opened(e.device)
  {
    var forward := StripSteps(args, FLAGS, |FLAGS|).value;
    var n := SleepCount(opt, env.usb);
    var first := FirstAnswer(CriteriaOf(opt), env.usb, 0, opt.retries);
    assert first.Some? && first.value == n;
    assert k == n + 1;
  }

  /**
   * A flash error never aborts the run: once `flash_bin` has been called, the run prints
   * the error when it is not the ignored disconnect, then "Finished", and returns.
   */
  lemma FlashErrorDoesNotAbort(opt: Opt, args: seq<string>, env: Environment, k: nat)
    requires env.artifact.Ok? ==> Convertible(env.artifact.value)
    requires k < |Expected(opt, args, env).0| && Expected(opt, args, env).0[k].Flashing?
    ensures var (events, exit) := Expected(opt, args, env);
            var e := events[k];
            var outcome := Classify(FlashBin(e.binary, e.device, env.dfu));
            exit == Returned &&
            events[k + 1..] == (if outcome.Reported? then [ErrorPrinted(outcome.error)] else []) + [Finished]
  {
    var forward := StripSteps(args, FLAGS, |FLAGS|).value;
    var n := SleepCount(opt, env.usb);
    assert |[Built(forward)] + Sleeps(n, opt.delay)| == n + 1;
    assert k == n + 1;
  }
}
