/**
 * Choosing the partition of a USB device to copy a CD root onto
 * (contrib/cdroot2usb.py): the device's partition table lines, as `fdisk -l`
 * prints them, are parsed into partitions; the first bootable one is chosen,
 * and its type must be one of the allowed filesystem ids.
 */
module CdrootUsb {
  import opened Wrappers
  import opened Text

  /** One partition table line. */
  datatype Partition = Partition(
    path: string, isBootable: bool, start: string, end: string, blocks: string, id: string, fs: string)

  /** Why a device is refused. */
  datatype UsbError =
    | UnexpectedStructure(line: string)
    | NoBootablePartition
    | TypeNotAllowed(id: string)

  /**
   * Partition.__init__: the line must split into exactly eight whitespace
   * separated fields (at most seven splits); a `*` in the second field marks
   * the partition bootable and is dropped before the remaining fields are read.
   */
  function ParsePartition(s: string): (r: Result<Partition, UsbError>)
    ensures r.Err? <==> |SplitWs(s, 7, Bytes)| != 8
    ensures r.Ok? ==> r.value.path == SplitWs(s, 7, Bytes)[0]
    ensures r.Ok? ==> (r.value.isBootable <==> SplitWs(s, 7, Bytes)[1] == "*")
  {
    var fields := SplitWs(s, 7, Bytes);
    if |fields| != 8 then Err(UnexpectedStructure(s))
    else if fields[1] == "*" then
      Ok(Partition(fields[0], true, fields[2], fields[3], fields[4], fields[5], fields[6]))
    else
      Ok(Partition(fields[0], false, fields[1], fields[2], fields[3], fields[4], fields[5]))
  }

  /** The partitions of the lines that start with the device path, in order, or the first line refused. */
  function PartitionsOf(path: string, lines: seq<string>): Result<seq<Partition>, UsbError>
    decreases |lines|
  {
    if |lines| == 0 then Ok([])
    else
      var line := lines[|lines| - 1];
      match PartitionsOf(path, lines[..|lines| - 1])
      case Err(e) => Err(e)
      case Ok(parts) =>
        if !IsPrefix(path, line) then Ok(parts)
        else match ParsePartition(line)
          case Err(e) => Err(e)
          case Ok(p) => Ok(parts + [p])
  }

  /** A refused line stops the reading: the lines after it make no difference. */
  lemma {:induction false} ErrorStops(path: string, lines: seq<string>, n: nat)
    requires n <= |lines| && PartitionsOf(path, lines[..n]).Err?
    ensures PartitionsOf(path, lines) == PartitionsOf(path, lines[..n])
    decreases |lines| - n
  {
    if n < |lines| {
      assert lines[..n + 1][..n] == lines[..n];
      ErrorStops(path, lines, n + 1);
    } else {
      assert lines[..n] == lines;
    }
  }

  /** _read_partition_table, given the lines of the `fdisk -l` output. */
  method ReadPartitionTable(path: string, lines: seq<string>) returns (r: Result<seq<Partition>, UsbError>)
    ensures r == PartitionsOf(path, lines)
  {
    var partitions: seq<Partition> := [];
    for n := 0 to |lines|
      invariant PartitionsOf(path, lines[..n]) == Ok(partitions)
    {
      assert lines[..n + 1][..n] == lines[..n];
      var line := lines[n];
      if IsPrefix(path, line) {
        var p := ParsePartition(line);
        if p.Err? {
          ErrorStops(path, lines, n + 1);
          return Err(p.error);
        }
        partitions := partitions + [p.value];
      }
    }
    assert lines[..|lines|] == lines;
    r := Ok(partitions);
  }

  /** The index of the first bootable partition, if any. */
  function FirstBootable(parts: seq<Partition>): (r: Option<nat>)
    ensures r.Some? ==> r.value < |parts| && parts[r.value].isBootable
    ensures r.Some? ==> forall j :: 0 <= j < r.value ==> !parts[j].isBootable
    ensures r.None? ==> forall j :: 0 <= j < |parts| ==> !parts[j].isBootable
    decreases |parts|
  {
    if |parts| == 0 then None
    else if parts[0].isBootable then Some(0)
    else match FirstBootable(parts[1..])
      case None => None
      case Some(i) => Some(i + 1)
  }

  /** The partition FirstBootable points at. */
  function Chosen(parts: seq<Partition>): Option<Partition> {
    match FirstBootable(parts)
    case None => None
    case Some(i) => Some(parts[i])
  }

  /** _get_bootable_partition: the first bootable partition of the table, or None. */
  method GetBootablePartition(path: string, lines: seq<string>) returns (r: Result<Option<Partition>, UsbError>)
    ensures PartitionsOf(path, lines).Err? ==> r == Err(PartitionsOf(path, lines).error)
    ensures PartitionsOf(path, lines).Ok? ==> r == Ok(Chosen(PartitionsOf(path, lines).value))
  {
    var table := ReadPartitionTable(path, lines);
    if table.Err? {
      return Err(table.error);
    }
    var parts := table.value;
    var i := 0;
    while i < |parts|
      invariant i <= |parts|
      invariant forall j :: 0 <= j < i ==> !parts[j].isBootable
    {
      if parts[i].isBootable {
        return Ok(Some(parts[i]));
      }
      i := i + 1;
    }
    r := Ok(None);
  }

  /** The partition type check as written: `id not in filesystem_ids` with the ids given as one string. */
  predicate AllowedAsWritten(filesystemIds: string, id: string) {
    Contains(filesystemIds, id)
  }

  /** The partition type check as intended: the id is one of the allowed ids. */
  predicate Allowed(filesystemIds: seq<string>, id: string) {
    id in filesystemIds
  }

  /**
   * The checks of UsbDev.__init__ on the partition table (the device path, the
   * mount test and the partition table read are the caller's): there must be a
   * bootable partition and its type must be allowed.
   */
  function CheckBootPartition(boot: Option<Partition>, filesystemIds: seq<string>): (r: Result<Partition, UsbError>)
    ensures r.Ok? <==> boot.Some? && boot.value.id in filesystemIds
    ensures r.Ok? ==> r.value == boot.value
  {
    match boot
    case None => Err(NoBootablePartition)
    case Some(p) => if !Allowed(filesystemIds, p.id) then Err(TypeNotAllowed(p.id)) else Ok(p)
  }

  /** The same check as written, where `('16')` is the string "16" and not a one-element tuple. */
  function CheckBootPartitionAsWritten(boot: Option<Partition>, filesystemIds: string): (r: Result<Partition, UsbError>)
    ensures r.Ok? <==> boot.Some? && Contains(filesystemIds, boot.value.id)
  {
    match boot
    case None => Err(NoBootablePartition)
    case Some(p) => if !AllowedAsWritten(filesystemIds, p.id) then Err(TypeNotAllowed(p.id)) else Ok(p)
  }

  /** The ids the caller allows: Hidden FAT16 only. */
  const HiddenFat16: seq<string> := ["16"]

  /**
   * As written, the check against "16" also lets through type 1 (FAT12), type 6 (FAT16)
   * and an empty id, since each is a substring of "16".
   */
  lemma AsWrittenAcceptsOtherTypes()
    ensures AllowedAsWritten("16", "1") && AllowedAsWritten("16", "6") && AllowedAsWritten("16", "")
    ensures !Allowed(HiddenFat16, "1") && !Allowed(HiddenFat16, "6") && !Allowed(HiddenFat16, "")
  {
    assert IsPrefix("1", "16");
    assert "16"[1..] == "6";
    assert IsPrefix("6", "16"[1..]);
    assert IsPrefix("", "16");
  }

  /** As intended, only a Hidden FAT16 boot partition is accepted. */
  lemma OnlyHiddenFat16(boot: Option<Partition>)
    ensures CheckBootPartition(boot, HiddenFat16).Ok? <==> boot.Some? && boot.value.id == "16"
  {
  }

  /** Eight words, the second `*`, read as a bootable partition with the fields after the mark. */
  lemma BootableLine(words: seq<string>)
    requires |words| == 8 && words[1] == "*"
    requires forall i :: 0 <= i < 8 ==> IsWord(words[i], Bytes)
    ensures ParsePartition(Join(words, " ")) ==
      Ok(Partition(words[0], true, words[2], words[3], words[4], words[5], words[6]))
  {
    SplitWsJoin(words, 7, Bytes);
  }

  /** Eight words, the second not `*`, read as a partition that is not bootable. */
  lemma PlainLine(words: seq<string>)
    requires |words| == 8 && words[1] != "*"
    requires forall i :: 0 <= i < 8 ==> IsWord(words[i], Bytes)
    ensures ParsePartition(Join(words, " ")) ==
      Ok(Partition(words[0], false, words[1], words[2], words[3], words[4], words[5]))
  {
    SplitWsJoin(words, 7, Bytes);
  }

  /**
   * Exactly eight fields are required, so a line of seven words (a partition that is not
   * bootable and whose system type is two words, say) is refused.
   */
  lemma SevenWordsRefused(words: seq<string>)
    requires |words| == 7
    requires forall i :: 0 <= i < 7 ==> IsWord(words[i], Bytes)
    ensures ParsePartition(Join(words, " ")).Err?
  {
    SplitWsJoin(words, 7, Bytes);
  }

  /** Every line of the device's own is parsed, and its partition is in the table. */
  lemma {:induction false} PartitionsOfLines(path: string, lines: seq<string>, i: nat)
    requires PartitionsOf(path, lines).Ok?
    requires i < |lines| && IsPrefix(path, lines[i])
    ensures ParsePartition(lines[i]).Ok?
    ensures ParsePartition(lines[i]).value in PartitionsOf(path, lines).value
    decreases |lines|
  {
    var m := |lines| - 1;
    var front := lines[..m];
    if PartitionsOf(path, front).Err? {
      assert false;
    }
    if i < m {
      assert front[i] == lines[i];
      PartitionsOfLines(path, front, i);
    }
  }

  /** Lines that do not start with the device path contribute nothing. */
  lemma OtherLineSkipped(path: string, lines: seq<string>, line: string)
    requires !IsPrefix(path, line)
    ensures PartitionsOf(path, lines + [line]) == PartitionsOf(path, lines)
  {
    assert (lines + [line])[..|lines|] == lines;
  }
}
