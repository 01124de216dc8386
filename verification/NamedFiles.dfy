/** Files by the names that are typed: what is written under one is read under it, in capitals or not. */
module NamedFiles {
  import opened Machine
  import opened Wrappers
  import opened FatLayout
  import FatWalk
  import opened FatVolume
  import opened FatFiles
  import opened FatRefinement
  import opened FatNames

  lemma FileNamesAreVisible(file: Bytes)
    requires IsFileName(file)
    ensures IsVisible(FatName(file))
  {
    FormattedNamesAreVisible(file);
  }

  lemma {:induction false} NewFilesAreRead(s: State, name: Bytes, data: Bytes, max: nat)
    requires FirstNamed(s.slots, name, 0) == |s.slots| && FirstEmpty(s.slots, 0) < |s.slots| && s.free > 0
    requires |data| <= 512 && max > 0
    ensures CanWrite(s, data) && CanRead(Written(s, name, data), name, max)
    ensures Text(Written(s, name, data), name, max) == data[..Least(|data|, max - 1)]
  {
    NewNameIsFound(s.slots, name, 0, data);
  }

  /** A guarded write under a name that is new is read back under every spelling of it. */
  lemma {:induction false} FilesAreFoundInAnyCase(
    g: Geometry, disk: Disk, beyond: FatWalk.Links, written: Bytes, read: Bytes, data: Bytes, max: nat, d: Disk)
    requires WellFormed(g, disk) && IsFileName(written) && SameButForCase(written, read)
    requires FirstNamed(Slots(g, disk), FatName(written), 0) == DIR_ENTRIES
    requires FirstEmpty(Slots(g, disk), 0) < DIR_ENTRIES && |FreeClusters(Fat(g, disk))| > 0
    requires |data| <= 512 && max >= 17 && d == Apply(disk, WriteTrace(g, disk, FatName(written), data))
    ensures WellFormed(g, d)
    ensures ReadText(g, d, beyond, FatName(read), max) == Some(data[..Least(|data|, max - 1)])
  {
    var name := FatName(written);
    FileNamesAreVisible(written);
    NamesIgnoreCase(written, read);
    NewFilesAreRead(Abs(g, disk), name, data, max);
    WriteRefines(g, disk, name, data);
    ReadRefines(g, d, beyond, name, max);
  }
}
