/**
 * Flashing (`flash_bin`) and the classification of its result by `main`.
 *
 * The DFU library is an oracle: `open(s)` is what `DfuLibusb::open` answers for a
 * session request `s`, and `download(s, bytes)` what `download_from_slice` answers.
 */
module Flash {
  import opened Ints
  import opened Wrappers
  import opened Errors
  import opened DeviceSearch

  /** The arguments `flash_bin` passes to `DfuLibusb::open`. */
  datatype Session = Session(vid: u16, pid: u16, iface: nat, alt: nat)

  datatype DfuLibrary = DfuLibrary(open: Session -> Result<(), DfuError>,
                                download: (Session, seq<u8>) -> Result<(), DfuError>)

  /** The session `flash_bin` requests for a device: its descriptor ids, interface 0, alternate setting 0. */
  function SessionFor(h: Handle): (s: Session)
    ensures s.vid == h.vid && s.pid == h.pid
    ensures s.iface == 0 && s.alt == 0
  {
    Session(h.vid, h.pid, 0, 0)
  }

  /**
   * `flash_bin`: open a DFU session for the device, then download the whole binary.
   * The first failure is returned wrapped as `UtilError::Dfu`; the download is not
   * attempted when opening fails.
   */
  function FlashBin(binary: seq<u8>, h: Handle, dfu: DfuLibrary): (r: Result<(), UtilError>)
    ensures r.Ok? <==> dfu.open(SessionFor(h)).Ok? && dfu.download(SessionFor(h), binary).Ok?
    ensures dfu.open(SessionFor(h)).Err? ==> r == Err(Dfu(dfu.open(SessionFor(h)).error))
    ensures dfu.open(SessionFor(h)).Ok? && dfu.download(SessionFor(h), binary).Err? ==>
              r == Err(Dfu(dfu.download(SessionFor(h), binary).error))
    ensures r.Err? ==> r.error.Dfu?
  {
    var s := SessionFor(h);
    match dfu.open(s)
    case Err(e) => Err(Dfu(e))
    case Ok(_) =>
      match dfu.download(s, binary)
      case Err(e) => Err(Dfu(e))
      case Ok(_) => Ok(())
  }

  /** What `main` does with the result of `flash_bin`. */
  datatype FlashOutcome = Flashed | DisconnectIgnored | Reported(error: UtilError)

  /**
   * A success reports nothing; the device vanishing from the bus
   * (`Dfu(LibUsb(NoDevice))`) is silently treated like a success; every other error is
   * reported unchanged.
   */
  function Classify(r: Result<(), UtilError>): (o: FlashOutcome)
    ensures o.Flashed? <==> r.Ok?
    ensures o.DisconnectIgnored? <==> r == Err(Dfu(LibUsb(NoDevice)))
    ensures o.Reported? <==> r.Err? && r.error != Dfu(LibUsb(NoDevice))
    ensures o.Reported? ==> o.error == r.error
  {
    match r
    case Ok(_) => Flashed
    case Err(Dfu(LibUsb(NoDevice))) => DisconnectIgnored
    case Err(e) => Reported(e)
  }

  /**
   * Only `NoDevice` from the USB layer is ignored: another USB error, or a DFU protocol
   * error, from either step of `flash_bin` is reported.
   */
  lemma OnlyDisconnectIsIgnored(binary: seq<u8>, h: Handle, dfu: DfuLibrary)
    requires Classify(FlashBin(binary, h, dfu)).DisconnectIgnored?
    ensures var s := SessionFor(h);
            dfu.open(s) == Err(LibUsb(NoDevice)) ||
            (dfu.open(s).Ok? && dfu.download(s, binary) == Err(LibUsb(NoDevice)))
  {
  }
}
