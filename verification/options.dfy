/** The command-line options the core reads (the `Opt` record filled in by the argument parser). */
module Options {
  import opened Ints
  import opened Wrappers

  datatype Opt = Opt(
    pid: Option<u16>,
    vid: Option<u16>,
    chip: Option<string>,
    listChips: bool,
    delay: u64,     // milliseconds between probes, DEFAULT_DELAY unless given
    retries: nat)   // number of delays, DEFAULT_RETRIES unless given

  /** The `default_value_t` of `--delay` and `--retries`. */
  const DEFAULT_DELAY: u64 := 500
  const DEFAULT_RETRIES: nat := 60
}
