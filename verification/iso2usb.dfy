/**
 * The checks iso2usb makes before writing an ISO image to a USB device
 * (contrib/iso2usb.py): whether the image is already hybrid, read from the
 * output of `fdisk -l` on it, and whether the target path names a whole USB
 * disk, read from the path itself and from the output of `udevadm info`.
 * The commands' outputs are parameters.
 */
module IsoUsb {
  import opened Wrappers
  import opened Text

  const HybridMark: string := "Hidden HPFS/NTFS"
  const NoDiskIdentifier: string := "Disk identifier: 0x00000000"
  const NoPartitionTable: string := "doesn't contain a valid partition table"

  /**
   * Iso.is_hybrid over the fdisk output: the hybrid mark decides first, then
   * either sign of a plain image means not hybrid, and any other output is an error.
   */
  function IsHybrid(output: string): (r: Result<bool, string>)
    ensures r == Ok(true) <==> Contains(output, HybridMark)
    ensures r == Ok(false) <==>
      !Contains(output, HybridMark) && (Contains(output, NoDiskIdentifier) || Contains(output, NoPartitionTable))
    ensures r.Err? ==> r.error == "unable to determine ISO hybrid status"
  {
    if Contains(output, HybridMark) then Ok(true)
    else if Contains(output, NoDiskIdentifier) then Ok(false)
    else if Contains(output, NoPartitionTable) then Ok(false)
    else Err("unable to determine ISO hybrid status")
  }

  /** A text holds every piece it is built around. */
  lemma {:induction false} ContainsMiddle(a: string, m: string, b: string)
    ensures Contains(a + m + b, m)
    decreases |a|
  {
    if a == [] {
      assert a + m + b == m + b;
      assert (m + b)[..|m|] == m;
    } else {
      assert (a + m + b)[1..] == a[1..] + m + b;
      ContainsMiddle(a[1..], m, b);
    }
  }

  /** The hybrid mark wins wherever it appears, whatever else the output says. */
  lemma HybridMarkWins(before: string, after: string)
    ensures IsHybrid(before + HybridMark + after) == Ok(true)
  {
    ContainsMiddle(before, HybridMark, after);
  }

  /** Without the hybrid mark, a zero disk identifier means a plain image. */
  lemma ZeroIdentifierPlain(before: string, after: string)
    requires !Contains(before + NoDiskIdentifier + after, HybridMark)
    ensures IsHybrid(before + NoDiskIdentifier + after) == Ok(false)
  {
    ContainsMiddle(before, NoDiskIdentifier, after);
  }

  /** Without the hybrid mark, an image without a partition table is plain. */
  lemma NoTablePlain(before: string, after: string)
    requires !Contains(before + NoPartitionTable + after, HybridMark)
    ensures IsHybrid(before + NoPartitionTable + after) == Ok(false)
  {
    ContainsMiddle(before, NoPartitionTable, after);
  }

  /** Iso.make_hybrid, given the fdisk output after isohybrid has run. */
  function MakeHybrid(outputAfter: string): (r: Result<(), string>)
    ensures r.Ok? <==> IsHybrid(outputAfter) == Ok(true)
    ensures IsHybrid(outputAfter) == Ok(false) ==> r == Err("iso not verified as hybrid mode")
    ensures IsHybrid(outputAfter).Err? ==> r == Err(IsHybrid(outputAfter).error)
  {
    match IsHybrid(outputAfter)
    case Err(e) => Err(e)
    case Ok(hybrid) => if !hybrid then Err("iso not verified as hybrid mode") else Ok(())
  }

  /**
   * Usb.is_partition: whether the path's last character reads as an integer;
   * an empty path has no last character and raises.
   */
  function IsPartition(path: string): (r: Result<bool, string>)
    ensures r.Err? <==> path == []
    ensures r.Ok? ==> (r.value <==> IsDigit(path[|path| - 1]))
  {
    if path == [] then Err("IndexError: string index out of range")
    else Ok(IsDigit(path[|path| - 1]))
  }

  /** A device path followed by a digit reads as a partition; the path alone, ending in a letter, does not. */
  lemma PartitionSuffix(device: string, d: char)
    requires device != [] && !IsDigit(device[|device| - 1]) && IsDigit(d)
    ensures IsPartition(device + [d]) == Ok(true)
    ensures IsPartition(device) == Ok(false)
  {
  }

  /** Usb.name: the first space separated token of the udevadm output. */
  function Name(output: string): (r: string)
    ensures IsPrefix(r, output) && ' ' !in r
    ensures |r| < |output| ==> output[|r|] == ' '
  {
    Split(output, ' ')[0]
  }

  /** The first token is read back whatever follows the space. */
  lemma NameOfTokens(first: string, rest: string)
    requires ' ' !in first
    ensures Name(first + " " + rest) == first
  {
    assert first + " " + rest == first + [' '] + rest;
    BeforeFirst(first, ' ', rest);
  }

  /** Usb.is_usb_device: "usb" occurs in the device name. */
  predicate IsUsbDevice(output: string) {
    Contains(Name(output), "usb")
  }

  /** A first token that mentions usb makes a usb device; what follows it does not count. */
  lemma UsbInFirstToken(before: string, after: string, rest: string)
    requires ' ' !in before + "usb" + after
    ensures IsUsbDevice(before + "usb" + after + " " + rest)
  {
    NameOfTokens(before + "usb" + after, rest);
    ContainsMiddle(before, "usb", after);
  }

  /**
   * Usb.__init__: the path must exist, be a block device, not look like a
   * partition and be named as a usb device, checked in that order.
   */
  function CheckUsb(path: string, pathExists: bool, isBlockDevice: bool, udevOutput: string): (r: Result<(), string>)
    ensures r.Ok? <==>
      pathExists && isBlockDevice && path != [] && !IsDigit(path[|path| - 1]) && IsUsbDevice(udevOutput)
    ensures !pathExists ==> r == Err("usb path does not exist: " + path)
    ensures pathExists && !isBlockDevice ==> r == Err("usb path is not a block device: " + path)
  {
    if !pathExists then Err("usb path does not exist: " + path)
    else if !isBlockDevice then Err("usb path is not a block device: " + path)
    else match IsPartition(path)
      case Err(e) => Err(e)
      case Ok(partition) =>
        if partition then Err("usb path seems to be a partition: " + path)
        else if !IsUsbDevice(udevOutput) then Err("usb path is not verifiable as a usb device: " + path)
        else Ok(())
  }

  /** subprocess.run(...).stdout: the output when it is captured, None otherwise. */
  function Stdout(output: string, captured: bool): (r: Option<string>)
    ensures r.Some? <==> captured
    ensures r.Some? ==> r.value == output
  {
    if captured then Some(output) else None
  }

  /** Usb.name as written: udevadm runs without its output captured, and None has no split. */
  function NameAsWritten(output: string): (r: Result<string, string>)
    ensures r.Ok? ==> r.value == Name(output)
  {
    match Stdout(output, false)
    case None => Err("AttributeError: 'NoneType' object has no attribute 'split'")
    case Some(o) => Ok(Name(o))
  }

  /** Usb.__init__ as written, with the name read as NameAsWritten reads it. */
  function CheckUsbAsWritten(path: string, pathExists: bool, isBlockDevice: bool, udevOutput: string): (r: Result<(), string>)
    ensures !pathExists || !isBlockDevice ==> r == CheckUsb(path, pathExists, isBlockDevice, udevOutput)
  {
    if !pathExists then Err("usb path does not exist: " + path)
    else if !isBlockDevice then Err("usb path is not a block device: " + path)
    else match IsPartition(path)
      case Err(e) => Err(e)
      case Ok(partition) =>
        if partition then Err("usb path seems to be a partition: " + path)
        else match NameAsWritten(udevOutput)
          case Err(e) => Err(e)
          case Ok(name) =>
            if !Contains(name, "usb") then Err("usb path is not verifiable as a usb device: " + path)
            else Ok(())
  }

  /** A whole disk (its path ends in a non-digit) named as a usb device passes the intended checks. */
  lemma UsbDiskAccepted(path: string, before: string, after: string, rest: string)
    requires path != [] && !IsDigit(path[|path| - 1])
    requires ' ' !in before + "usb" + after
    ensures CheckUsb(path, true, true, before + "usb" + after + " " + rest) == Ok(())
  {
    UsbInFirstToken(before, after, rest);
  }

  /**
   * As written, no device is ever accepted: every path that passes the earlier
   * checks fails on reading its name, even the usb disks UsbDiskAccepted accepts.
   */
  lemma AsWrittenRefusesEveryDevice(path: string, udevOutput: string)
    ensures CheckUsbAsWritten(path, true, true, udevOutput).Err?
  {
  }
}
