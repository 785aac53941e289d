/** The block accounting and per-algorithm metadata of the file-system
    simulator, as pure transitions over a snapshot of its state. Each
    transition takes the dialog answers and the outcome of the host storage
    call as parameters and returns the new state with the branch the source
    ends in. */
module FileSystem {
  import opened Text
  import opened Ledger

  const FAT32: string := "FAT32"
  const NTFS: string := "NTFS"
  const EXT: string := "EXT"

  /** The number of blocks the simulated disk starts with. */
  const DefaultDiskBlocks: nat := 1000

  /** An allocation-table (FAT32) record. */
  datatype FatEntry = FatEntry(blocks: int, path: string)

  /** A master-file-table (NTFS) record; `size` is always the block count. */
  datatype MftEntry = MftEntry(size: int, blocks: int, path: string)

  datatype State = State(
    currentDirectory: string,
    allocationTable: map<string, FatEntry>,
    journal: seq<string>,
    mft: map<string, MftEntry>,
    diskBlocks: nat,
    usedBlocks: int,
    blockUsage: map<string, int>,
    reservedBlocks: nat,
    selectedAlgorithm: string)

  /** Which way an operation ends: every update made, nothing done because
      a dialog was cancelled or left empty, refused with the "not enough
      space" warning, or stopped by a failed host storage call. */
  datatype Status = Done | Ignored | NoSpace | StorageFailed

  datatype Step = Step(state: State, status: Status)

  /** The state when no saved session exists. */
  function Initial(workingDirectory: string): (s: State)
    ensures s.currentDirectory == workingDirectory && s.diskBlocks == DefaultDiskBlocks
    ensures Bounded(s) && Ledgered(s)
  {
    State(workingDirectory, map[], [], map[], DefaultDiskBlocks, 0, map[], 0, "")
  }

  /** Capacity invariant: the used count never exceeds the disk, and every
      ledger entry holds at least one block. */
  predicate Bounded(s: State)
  {
    && s.usedBlocks <= s.diskBlocks
    && forall name :: name in s.blockUsage ==> s.blockUsage[name] >= 1
  }

  /** Ledger invariant: the used count is the reserved area plus the blocks
      charged to files. */
  ghost predicate Ledgered(s: State)
  {
    s.usedBlocks == s.reservedBlocks + Total(s.blockUsage)
  }

  /** The disk size, the reserved area, the selected scheme and the working
      directory are as they were. */
  predicate SameSetting(s: State, t: State)
  {
    && t.currentDirectory == s.currentDirectory
    && t.diskBlocks == s.diskBlocks
    && t.reservedBlocks == s.reservedBlocks
    && t.selectedAlgorithm == s.selectedAlgorithm
  }

  // ---------------------------------------------------------------------
  // Applying an allocation algorithm

  /** Blocks set aside for the algorithm's own structures: 16% of the disk
      for FAT32, 12.5% for NTFS, 5% for EXT, rounded down; none for any
      other choice. */
  function ReservedFor(algorithm: string, diskBlocks: nat): (reserved: nat)
    ensures reserved <= diskBlocks
    ensures algorithm == FAT32 ==> reserved * 100 <= diskBlocks * 16 < (reserved + 1) * 100
    ensures algorithm == NTFS ==> reserved * 1000 <= diskBlocks * 125 < (reserved + 1) * 1000
    ensures algorithm == EXT ==> reserved * 100 <= diskBlocks * 5 < (reserved + 1) * 100
    ensures algorithm != FAT32 && algorithm != NTFS && algorithm != EXT ==> reserved == 0
  {
    if algorithm == FAT32 then diskBlocks * 16 / 100
    else if algorithm == NTFS then diskBlocks * 125 / 1000
    else if algorithm == EXT then diskBlocks * 5 / 100
    else 0
  }

  /** Only the reserved area and the used count change, and the used count
      becomes exactly the reserved area, which fits on the disk. */
  function CalculateReserved(s: State): (t: State)
    ensures t == s.(reservedBlocks := t.reservedBlocks, usedBlocks := t.usedBlocks)
    ensures t.usedBlocks == t.reservedBlocks <= t.diskBlocks
    ensures t.reservedBlocks == ReservedFor(s.selectedAlgorithm, s.diskBlocks)
  {
    var reserved := ReservedFor(s.selectedAlgorithm, s.diskBlocks);
    s.(reservedBlocks := reserved, usedBlocks := reserved)
  }

  /** The chosen scheme is stored and its reserved area computed from the
      disk size; nothing else changes. */
  function ApplyAlgorithm(s: State, choice: string): (t: State)
    ensures t == s.(selectedAlgorithm := choice, reservedBlocks := t.reservedBlocks, usedBlocks := t.usedBlocks)
    ensures t.reservedBlocks == ReservedFor(choice, s.diskBlocks)
  {
    CalculateReserved(s.(selectedAlgorithm := choice))
  }

  /** Applying an algorithm recomputes the reserved area and resets the used
      count to it, dropping every file's blocks from the count while the
      ledger and all records stay as they were. */
  lemma ApplyAlgorithmEffect(s: State, choice: string)
    ensures var t := ApplyAlgorithm(s, choice);
      && t.selectedAlgorithm == choice
      && t.reservedBlocks == ReservedFor(choice, s.diskBlocks)
      && t.usedBlocks == t.reservedBlocks
      && t.blockUsage == s.blockUsage
      && t.allocationTable == s.allocationTable
      && t.mft == s.mft
      && t.journal == s.journal
      && t.diskBlocks == s.diskBlocks
      && t.currentDirectory == s.currentDirectory
    ensures Bounded(s) ==> Bounded(ApplyAlgorithm(s, choice))
    ensures Ledgered(ApplyAlgorithm(s, choice)) <==> Total(s.blockUsage) == 0
    ensures Bounded(s) ==> (Ledgered(ApplyAlgorithm(s, choice)) <==> s.blockUsage == map[])
  {
    if Bounded(s) {
      TotalAtLeastSize(s.blockUsage);
      if s.blockUsage != map[] {
        var name :| name in s.blockUsage;
        assert name in s.blockUsage.Keys;
      }
    }
  }

  // ---------------------------------------------------------------------
  // Recording an allocation in the active algorithm's structure

  /** The EXT journal line of a creation: it names the file right after
      its fixed 16-character prefix and ends with the file's path. */
  function CreatedLine(name: string, blocks: nat, path: string): (line: string)
    ensures |line| >= 16 + |name| + |path|
    ensures line[..16] == "Archivo creado: " && OccursAt(line, name, 16)
    ensures line[|line| - |path|..] == path
  {
    "Archivo creado: " + name + ", Bloques: " + Decimal(blocks) + ", Path: " + path
  }

  /** The EXT journal line of a save/replace: it names the file right
      after its fixed 30-character prefix and ends with the file's path. */
  function ReplacedLine(name: string, blocks: nat, path: string): (line: string)
    ensures |line| >= 30 + |name| + |path|
    ensures line[..30] == "Archivo guardado/reemplazado: " && OccursAt(line, name, 30)
    ensures line[|line| - |path|..] == path
  {
    "Archivo guardado/reemplazado: " + name + ", Bloques: " + Decimal(blocks) + ", Path: " + path
  }

  /** Adds or overwrites the record for `name` in the structure of the
      selected algorithm (FAT32, EXT, NTFS are tested in that order); any
      other choice records nothing. */
  function Record(s: State, name: string, blocks: nat, path: string, line: string): (t: State)
    ensures SameSetting(s, t) && t.usedBlocks == s.usedBlocks && t.blockUsage == s.blockUsage
    ensures |s.journal| <= |t.journal| <= |s.journal| + 1
  {
    if s.selectedAlgorithm == FAT32 then s.(allocationTable := s.allocationTable[name := FatEntry(blocks, path)])
    else if s.selectedAlgorithm == EXT then s.(journal := s.journal + [line])
    else if s.selectedAlgorithm == NTFS then s.(mft := s.mft[name := MftEntry(blocks, blocks, path)])
    else s
  }

  /** The record written for an allocation, per algorithm; nothing but that
      one structure changes. */
  predicate Recorded(s: State, t: State, name: string, blocks: nat, path: string, line: string)
  {
    && SameSetting(s, t)
    && t.allocationTable == (if s.selectedAlgorithm == FAT32 then s.allocationTable[name := FatEntry(blocks, path)]
                             else s.allocationTable)
    && t.mft == (if s.selectedAlgorithm == NTFS then s.mft[name := MftEntry(blocks, blocks, path)] else s.mft)
    && t.journal == (if s.selectedAlgorithm == EXT then s.journal + [line] else s.journal)
  }

  /** Recording touches only the selected algorithm's structure. */
  lemma RecordIsRecorded(s: State, name: string, blocks: nat, path: string, line: string)
    ensures var t := Record(s, name, blocks, path, line);
      && Recorded(s, t, name, blocks, path, line)
      && t.usedBlocks == s.usedBlocks
      && t.blockUsage == s.blockUsage
  {
  }

  // ---------------------------------------------------------------------
  // Creating a file

  /** The state once create has charged `blocks` and set the ledger entry. */
  function Charge(s: State, name: string, blocks: nat): (t: State)
  {
    s.(usedBlocks := s.usedBlocks + blocks, blockUsage := s.blockUsage[name := blocks])
  }

  /** Create keeps the setting, changes nothing unless it succeeds, and on
      success charges the file's blocks to its name in the ledger. */
  function Create(s: State, name: string, blocks: nat, hasContent: bool, writeOk: bool): (r: Step)
    ensures SameSetting(s, r.state)
    ensures r.status != Done ==> r.state == s
    ensures r.status == Done ==> name in r.state.blockUsage && r.state.blockUsage[name] == blocks
  {
    if !(name != "" && blocks != 0 && hasContent) then Step(s, Ignored)
    else if s.usedBlocks + blocks > s.diskBlocks then Step(s, NoSpace)
    else if !writeOk then Step(s, StorageFailed)
    else
      var path := Join(s.currentDirectory, name);
      Step(Record(Charge(s, name, blocks), name, blocks, path, CreatedLine(name, blocks, path)), Done)
  }

  /** Create succeeds exactly when the name is non-empty, at least one block
      is asked for, content was given (possibly empty), the blocks fit and the
      host write succeeds; in every other case nothing changes. */
  lemma CreateGuard(s: State, name: string, blocks: nat, hasContent: bool, writeOk: bool)
    ensures var r := Create(s, name, blocks, hasContent, writeOk);
      && (r.status == Done <==>
            name != "" && blocks >= 1 && hasContent && s.usedBlocks + blocks <= s.diskBlocks && writeOk)
      && (r.status == Ignored <==> name == "" || blocks == 0 || !hasContent)
      && (r.status == NoSpace <==> name != "" && blocks >= 1 && hasContent && s.usedBlocks + blocks > s.diskBlocks)
      && (r.status != Done ==> r.state == s)
      && (r.state == s <==> r.status != Done)
  {
  }

  /** A successful create charges exactly `blocks` more, records the file in
      the ledger and adds one record to the selected algorithm's structure. */
  lemma CreateEffect(s: State, name: string, blocks: nat, hasContent: bool, writeOk: bool)
    requires Create(s, name, blocks, hasContent, writeOk).status == Done
    ensures var t := Create(s, name, blocks, hasContent, writeOk).state;
      var path := Join(s.currentDirectory, name);
      && t.usedBlocks == s.usedBlocks + blocks
      && t.blockUsage == s.blockUsage[name := blocks]
      && Recorded(s, t, name, blocks, path, CreatedLine(name, blocks, path))
  {
    var path := Join(s.currentDirectory, name);
    RecordIsRecorded(Charge(s, name, blocks), name, blocks, path, CreatedLine(name, blocks, path));
  }

  lemma CreatePreservesBounded(s: State, name: string, blocks: nat, hasContent: bool, writeOk: bool)
    requires Bounded(s)
    ensures Bounded(Create(s, name, blocks, hasContent, writeOk).state)
  {
    var r := Create(s, name, blocks, hasContent, writeOk);
    if r.status == Done {
      CreateEffect(s, name, blocks, hasContent, writeOk);
      assert r.state.usedBlocks <= r.state.diskBlocks;
    } else {
      CreateGuard(s, name, blocks, hasContent, writeOk);
    }
  }

  /** Create keeps the ledger invariant exactly when the name is new: for a
      name already in the ledger the new blocks are charged while the old
      ones are never released. */
  lemma CreateLedger(s: State, name: string, blocks: nat, hasContent: bool, writeOk: bool)
    requires Bounded(s) && Ledgered(s)
    requires Create(s, name, blocks, hasContent, writeOk).status == Done
    ensures Ledgered(Create(s, name, blocks, hasContent, writeOk).state) <==> name !in s.blockUsage
  {
    var t := Create(s, name, blocks, hasContent, writeOk).state;
    CreateEffect(s, name, blocks, hasContent, writeOk);
    if name in s.blockUsage {
      TotalOverwrite(s.blockUsage, name, blocks);
      assert t.usedBlocks == t.reservedBlocks + Total(t.blockUsage) + s.blockUsage[name];
    } else {
      TotalInsert(s.blockUsage, name, blocks);
    }
  }

  // ---------------------------------------------------------------------
  // Saving or replacing a file

  /** The state once replace has released the blocks the ledger held for
      the name (none if it held nothing), charged `blocks` and overwritten the
      ledger entry. */
  function Recharge(s: State, name: string, blocks: nat): (t: State)
  {
    var released := if name in s.blockUsage then s.usedBlocks - s.blockUsage[name] else s.usedBlocks;
    s.(usedBlocks := released + blocks, blockUsage := s.blockUsage[name := blocks])
  }

  /** Save/replace keeps the setting, changes nothing unless it succeeds,
      and on success charges the new block count to the name in the ledger. */
  function SaveReplace(s: State, name: string, blocks: nat, writeOk: bool): (r: Step)
    ensures SameSetting(s, r.state)
    ensures r.status != Done ==> r.state == s
    ensures r.status == Done ==> name in r.state.blockUsage && r.state.blockUsage[name] == blocks
  {
    if !(name != "" && blocks != 0 && s.usedBlocks + blocks <= s.diskBlocks) then Step(s, NoSpace)
    else if !writeOk then Step(s, StorageFailed)
    else
      var path := Join(s.currentDirectory, name);
      Step(Record(Recharge(s, name, blocks), name, blocks, path, ReplacedLine(name, blocks, path)), Done)
  }

  /** Replace is refused, with the space warning, whenever the name is empty,
      no blocks are asked for or the gross amount does not fit; the blocks
      the file already holds are not credited in that check. */
  lemma SaveReplaceGuard(s: State, name: string, blocks: nat, writeOk: bool)
    ensures var r := SaveReplace(s, name, blocks, writeOk);
      && (r.status == Done <==> name != "" && blocks >= 1 && s.usedBlocks + blocks <= s.diskBlocks && writeOk)
      && (r.status == NoSpace <==> name == "" || blocks == 0 || s.usedBlocks + blocks > s.diskBlocks)
      && (r.status == StorageFailed <==> name != "" && blocks >= 1 && s.usedBlocks + blocks <= s.diskBlocks && !writeOk)
      && (r.status != Done ==> r.state == s)
  {
  }

  /** A successful replace releases the blocks the ledger held for the name
      (none if it held nothing), charges the new amount and overwrites the
      ledger entry; FAT32 and NTFS records are overwritten, EXT appends. */
  lemma SaveReplaceEffect(s: State, name: string, blocks: nat, writeOk: bool)
    requires SaveReplace(s, name, blocks, writeOk).status == Done
    ensures var t := SaveReplace(s, name, blocks, writeOk).state;
      var path := Join(s.currentDirectory, name);
      var held := if name in s.blockUsage then s.blockUsage[name] else 0;
      && t.usedBlocks == s.usedBlocks - held + blocks
      && t.blockUsage == s.blockUsage[name := blocks]
      && t.blockUsage.Keys == s.blockUsage.Keys + {name}
      && Recorded(s, t, name, blocks, path, ReplacedLine(name, blocks, path))
  {
    var path := Join(s.currentDirectory, name);
    RecordIsRecorded(Recharge(s, name, blocks), name, blocks, path, ReplacedLine(name, blocks, path));
  }

  lemma SaveReplacePreservesBounded(s: State, name: string, blocks: nat, writeOk: bool)
    requires Bounded(s)
    ensures Bounded(SaveReplace(s, name, blocks, writeOk).state)
  {
    if SaveReplace(s, name, blocks, writeOk).status == Done {
      var path := Join(s.currentDirectory, name);
      var c := Recharge(s, name, blocks);
      assert c.usedBlocks <= c.diskBlocks && c.blockUsage == s.blockUsage[name := blocks];
      RecordIsRecorded(c, name, blocks, path, ReplacedLine(name, blocks, path));
    }
  }

  lemma SaveReplacePreservesLedger(s: State, name: string, blocks: nat, writeOk: bool)
    requires Ledgered(s)
    ensures Ledgered(SaveReplace(s, name, blocks, writeOk).state)
  {
    if SaveReplace(s, name, blocks, writeOk).status == Done {
      SaveReplaceEffect(s, name, blocks, writeOk);
      if name in s.blockUsage {
        TotalOverwrite(s.blockUsage, name, blocks);
      } else {
        TotalInsert(s.blockUsage, name, blocks);
      }
    }
  }

  // ---------------------------------------------------------------------
  // The journal, searched by substring

  /** Some journal line mentions `name` (Python's `any(name in entry ...)`). */
  predicate AnyMentions(journal: seq<string>, name: string)
    ensures AnyMentions(journal, name) <==> LinesWithout(journal, name) != journal
  {
    FilterChangesIffMention(journal, name);
    exists i :: 0 <= i < |journal| && Contains(journal[i], name)
  }

  /** Filtering the journal by a name changes it exactly when some line
      mentions the name. */
  lemma {:induction false} FilterChangesIffMention(journal: seq<string>, name: string)
    ensures (exists i :: 0 <= i < |journal| && Contains(journal[i], name))
            <==> LinesWithout(journal, name) != journal
    decreases |journal|
  {
    if journal != [] && !Contains(journal[0], name) {
      var tail := journal[1..];
      FilterChangesIffMention(tail, name);
      assert LinesWithout(journal, name) == [journal[0]] + LinesWithout(tail, name);
      if LinesWithout(journal, name) == journal {
        assert LinesWithout(tail, name) == journal[1..];
      }
      if LinesWithout(tail, name) == tail {
        assert [journal[0]] + tail == journal;
      }
      if exists i :: 0 <= i < |journal| && Contains(journal[i], name) {
        var i :| 0 <= i < |journal| && Contains(journal[i], name);
        assert tail[i - 1] == journal[i];
      }
      if exists i :: 0 <= i < |tail| && Contains(tail[i], name) {
        var i :| 0 <= i < |tail| && Contains(tail[i], name);
        assert journal[i + 1] == tail[i];
      }
    }
  }

  /** In every line that mentions `name`, every occurrence of `from` is
      replaced by `to`; the other lines are kept as they are. */
  function RewriteLines(journal: seq<string>, name: string, from: string, to: string): (rewritten: seq<string>)
    requires from != ""
    ensures |rewritten| == |journal|
    ensures forall i :: 0 <= i < |journal| && !Contains(journal[i], name) ==> rewritten[i] == journal[i]
    ensures from == to ==> rewritten == journal
  {
    seq(|journal|, i requires 0 <= i < |journal| =>
      if Contains(journal[i], name) then ReplaceAll(journal[i], from, to) else journal[i])
  }

  /** The journal without the lines that mention `name`, in order. */
  function LinesWithout(journal: seq<string>, name: string): (kept: seq<string>)
    ensures |kept| <= |journal|
    ensures forall i :: 0 <= i < |kept| ==> !Contains(kept[i], name) && kept[i] in journal
    ensures forall line :: line in journal && !Contains(line, name) ==> line in kept
  {
    if journal == [] then []
    else if Contains(journal[0], name) then LinesWithout(journal[1..], name)
    else [journal[0]] + LinesWithout(journal[1..], name)
  }

  /** Filtering a journal extended by one line filters the old journal and
      then that line. */
  lemma {:induction false} LinesWithoutAppend(journal: seq<string>, line: string, name: string)
    ensures LinesWithout(journal + [line], name)
         == LinesWithout(journal, name) + (if Contains(line, name) then [] else [line])
    decreases |journal|
  {
    if journal == [] {
      assert [] + [line] == [line];
    } else {
      assert (journal + [line])[1..] == journal[1..] + [line];
      LinesWithoutAppend(journal[1..], line, name);
    }
  }

  /** When no line mentions the name, filtering keeps the whole journal. */
  lemma {:induction false} LinesWithoutNoMention(journal: seq<string>, name: string)
    requires !AnyMentions(journal, name)
    ensures LinesWithout(journal, name) == journal
    decreases |journal|
  {
    if journal != [] {
      assert !Contains(journal[0], name);
      assert !AnyMentions(journal[1..], name) by {
        forall i | 0 <= i < |journal[1..]|
          ensures !Contains(journal[1..][i], name)
        {
          assert journal[1..][i] == journal[i + 1];
        }
      }
      LinesWithoutNoMention(journal[1..], name);
      assert [journal[0]] + journal[1..] == journal;
    }
  }

  // ---------------------------------------------------------------------
  // Moving a file

  /** Move neither adds nor forgets a record: the key sets of both maps and
      the number of journal lines stay as they were. */
  function Move(s: State, name: string, newDirectory: string, moveOk: bool): (r: Step)
    ensures r.state.allocationTable.Keys == s.allocationTable.Keys && r.state.mft.Keys == s.mft.Keys
    ensures |r.state.journal| == |s.journal|
  {
    if !(name != "" && newDirectory != "") then Step(s, Ignored)
    else if !moveOk then Step(s, StorageFailed)
    else Step(Relocate(s, name, Join(s.currentDirectory, name), Join(newDirectory, name)), Done)
  }

  /** Rewrites the path recorded for `name` in the first structure that
      knows it: the allocation table, else the MFT, else the journal lines
      that mention the name. */
  function Relocate(s: State, name: string, oldPath: string, newPath: string): (t: State)
    requires oldPath != ""
    ensures t.allocationTable.Keys == s.allocationTable.Keys && t.mft.Keys == s.mft.Keys
    ensures |t.journal| == |s.journal|
  {
    if name in s.allocationTable then
      s.(allocationTable := s.allocationTable[name := s.allocationTable[name].(path := newPath)])
    else if name in s.mft then
      s.(mft := s.mft[name := s.mft[name].(path := newPath)])
    else if AnyMentions(s.journal, name) then
      s.(journal := RewriteLines(s.journal, name, oldPath, newPath))
    else s
  }

  lemma RelocateKeepsAccounting(s: State, name: string, oldPath: string, newPath: string)
    requires oldPath != ""
    ensures var t := Relocate(s, name, oldPath, newPath);
      t == s.(allocationTable := t.allocationTable, mft := t.mft, journal := t.journal)
  {
    if name !in s.allocationTable && name !in s.mft && AnyMentions(s.journal, name) {
      assert Relocate(s, name, oldPath, newPath) == s.(journal := RewriteLines(s.journal, name, oldPath, newPath));
    }
  }

  /** Move never touches the accounting, and changes nothing unless both
      dialogs were answered and the host move succeeded. */
  lemma MoveGuard(s: State, name: string, newDirectory: string, moveOk: bool)
    ensures var r := Move(s, name, newDirectory, moveOk);
      && (r.status == Done <==> name != "" && newDirectory != "" && moveOk)
      && (r.status == Ignored <==> name == "" || newDirectory == "")
      && (r.status == StorageFailed <==> name != "" && newDirectory != "" && !moveOk)
      && (r.status != Done ==> r.state == s)
      && r.state.usedBlocks == s.usedBlocks
      && r.state.reservedBlocks == s.reservedBlocks
      && r.state.blockUsage == s.blockUsage
      && r.state.diskBlocks == s.diskBlocks
      && r.state.selectedAlgorithm == s.selectedAlgorithm
      && r.state.currentDirectory == s.currentDirectory
  {
    if name != "" && newDirectory != "" && moveOk {
      RelocateKeepsAccounting(s, name, Join(s.currentDirectory, name), Join(newDirectory, name));
    }
  }

  /** A name in the allocation table has its FAT32 path rewritten, whatever
      the selected algorithm; the MFT and the journal are left alone. */
  lemma MoveInAllocationTable(s: State, name: string, newDirectory: string)
    requires name != "" && newDirectory != "" && name in s.allocationTable
    ensures var t := Move(s, name, newDirectory, true).state;
      && t.allocationTable == s.allocationTable[name := FatEntry(s.allocationTable[name].blocks, Join(newDirectory, name))]
      && t.mft == s.mft
      && t.journal == s.journal
  {
  }

  /** Otherwise a name in the MFT has its NTFS path rewritten, size and
      blocks kept. */
  lemma MoveInMft(s: State, name: string, newDirectory: string)
    requires name != "" && newDirectory != "" && name !in s.allocationTable && name in s.mft
    ensures var t := Move(s, name, newDirectory, true).state;
      && t.mft == s.mft[name := MftEntry(s.mft[name].size, s.mft[name].blocks, Join(newDirectory, name))]
      && t.allocationTable == s.allocationTable
      && t.journal == s.journal
  {
  }

  /** Otherwise every journal line that mentions the name has each
      occurrence of the old path replaced by the new one; other lines, and
      the number of lines, stay as they were. */
  lemma MoveInJournal(s: State, name: string, newDirectory: string)
    requires name != "" && newDirectory != "" && name !in s.allocationTable && name !in s.mft
    ensures var t := Move(s, name, newDirectory, true).state;
      var oldPath := Join(s.currentDirectory, name);
      var newPath := Join(newDirectory, name);
      && t.allocationTable == s.allocationTable
      && t.mft == s.mft
      && |t.journal| == |s.journal|
      && forall i :: 0 <= i < |s.journal| ==>
           t.journal[i] == if Contains(s.journal[i], name) then ReplaceAll(s.journal[i], oldPath, newPath)
                           else s.journal[i]
  {
    var oldPath := Join(s.currentDirectory, name);
    var newPath := Join(newDirectory, name);
    var t := Move(s, name, newDirectory, true).state;
    assert t == Relocate(s, name, oldPath, newPath);
    if AnyMentions(s.journal, name) {
      assert t.journal == RewriteLines(s.journal, name, oldPath, newPath);
    } else {
      assert t.journal == s.journal;
      forall i | 0 <= i < |s.journal|
        ensures !Contains(s.journal[i], name)
      {
      }
    }
  }

  /** Moving a file into the working directory itself, the directory its
      old path is computed from, leaves the journal text as it was. */
  lemma MoveToSameDirectoryKeepsJournal(s: State, name: string, moveOk: bool)
    ensures Move(s, name, s.currentDirectory, moveOk).state.journal == s.journal
  {
    var path := Join(s.currentDirectory, name);
    if name != "" && s.currentDirectory != "" && moveOk {
      assert Move(s, name, s.currentDirectory, moveOk).state == Relocate(s, name, path, path);
    }
  }


  // ---------------------------------------------------------------------
  // Deleting a file

  /** Delete keeps the setting, changes nothing unless it succeeds, and on
      success leaves no ledger entry for the name. */
  function Delete(s: State, name: string, removeOk: bool): (r: Step)
    ensures SameSetting(s, r.state)
    ensures r.status != Done ==> r.state == s
    ensures r.status == Done ==> name !in r.state.blockUsage
  {
    if name == "" then Step(s, Ignored)
    else if !removeOk then Step(s, StorageFailed)
    else
      var released :=
        if name in s.blockUsage then
          s.(usedBlocks := s.usedBlocks - s.blockUsage[name], blockUsage := s.blockUsage - {name})
        else s;
      Step(Erase(released, name), Done)
  }

  /** Removes `name` from the first structure that knows it: the allocation
      table, else the MFT, else every journal line that mentions it. */
  function Erase(s: State, name: string): (t: State)
    ensures t.allocationTable.Keys == s.allocationTable.Keys - {name} && t.mft.Keys <= s.mft.Keys
    ensures |t.journal| <= |s.journal| && forall line :: line in t.journal ==> line in s.journal
  {
    if name in s.allocationTable then s.(allocationTable := s.allocationTable - {name})
    else if name in s.mft then s.(mft := s.mft - {name})
    else if AnyMentions(s.journal, name) then s.(journal := LinesWithout(s.journal, name))
    else s
  }

  lemma EraseEffect(s: State, name: string)
    ensures var t := Erase(s, name);
      && t == s.(allocationTable := t.allocationTable, mft := t.mft, journal := t.journal)
      && (name in s.allocationTable ==>
            t.allocationTable == s.allocationTable - {name} && t.mft == s.mft && t.journal == s.journal)
      && (name !in s.allocationTable && name in s.mft ==>
            t.allocationTable == s.allocationTable && t.mft == s.mft - {name} && t.journal == s.journal)
      && (name !in s.allocationTable && name !in s.mft ==>
            t.allocationTable == s.allocationTable && t.mft == s.mft
            && t.journal == LinesWithout(s.journal, name))
  {
    if name !in s.allocationTable && name !in s.mft {
      if AnyMentions(s.journal, name) {
        assert Erase(s, name) == s.(journal := LinesWithout(s.journal, name));
      } else {
        LinesWithoutNoMention(s.journal, name);
      }
    }
  }

  /** Delete does something only when a name was given and the host
      removal succeeded; it then releases the blocks the ledger holds for the
      name (none if it holds nothing) and drops the ledger entry. */
  lemma DeleteEffect(s: State, name: string, removeOk: bool)
    ensures var r := Delete(s, name, removeOk);
      && (r.status == Done <==> name != "" && removeOk)
      && (r.status == Ignored <==> name == "")
      && (r.status == StorageFailed <==> name != "" && !removeOk)
      && (r.status != Done ==> r.state == s)
    ensures var r := Delete(s, name, removeOk);
      var t := r.state;
      var held := if name in s.blockUsage then s.blockUsage[name] else 0;
      r.status == Done ==>
        && t.usedBlocks == s.usedBlocks - held
        && t.blockUsage == s.blockUsage - {name}
        && t.reservedBlocks == s.reservedBlocks
        && t.diskBlocks == s.diskBlocks
        && t.selectedAlgorithm == s.selectedAlgorithm
        && t.currentDirectory == s.currentDirectory
  {
    var r := Delete(s, name, removeOk);
    if r.status == Done {
      var released :=
        if name in s.blockUsage then
          s.(usedBlocks := s.usedBlocks - s.blockUsage[name], blockUsage := s.blockUsage - {name})
        else s;
      EraseEffect(released, name);
      if name !in s.blockUsage {
        assert s.blockUsage - {name} == s.blockUsage;
      }
    }
  }

  /** A successful delete removes the name from the allocation table, else
      from the MFT, else drops every journal line that mentions the name
      (other files' lines included), whatever the selected algorithm. */
  lemma DeleteRecords(s: State, name: string)
    requires name != ""
    ensures var t := Delete(s, name, true).state;
      && (name in s.allocationTable ==>
            t.allocationTable == s.allocationTable - {name} && t.mft == s.mft && t.journal == s.journal)
      && (name !in s.allocationTable && name in s.mft ==>
            t.allocationTable == s.allocationTable && t.mft == s.mft - {name} && t.journal == s.journal)
      && (name !in s.allocationTable && name !in s.mft ==>
            t.allocationTable == s.allocationTable && t.mft == s.mft
            && t.journal == LinesWithout(s.journal, name))
  {
    var released :=
      if name in s.blockUsage then
        s.(usedBlocks := s.usedBlocks - s.blockUsage[name], blockUsage := s.blockUsage - {name})
      else s;
    EraseEffect(released, name);
  }

  lemma DeletePreservesBounded(s: State, name: string, removeOk: bool)
    requires Bounded(s)
    ensures Bounded(Delete(s, name, removeOk).state)
  {
    DeleteEffect(s, name, removeOk);
  }

  lemma DeletePreservesLedger(s: State, name: string, removeOk: bool)
    requires Ledgered(s)
    ensures Ledgered(Delete(s, name, removeOk).state)
  {
    DeleteEffect(s, name, removeOk);
    if Delete(s, name, removeOk).status == Done && name in s.blockUsage {
      TotalRemove(s.blockUsage, name);
    }
  }

  // ---------------------------------------------------------------------
  // Operations together

  lemma CreatedLineMentions(name: string, blocks: nat, path: string)
    ensures Contains(CreatedLine(name, blocks, path), name)
  {
    var line := CreatedLine(name, blocks, path);
    var prefix := "Archivo creado: ";
    assert line[|prefix|..|prefix| + |name|] == name;
    assert OccursAt(line, name, |prefix|);
  }

  /** Deleting a name gives back the ledger and the used count it had
      before `blocks` were charged to it as a new entry. */
  lemma DeleteReleasesCharge(s: State, c: State, name: string, blocks: nat)
    requires name != "" && name !in s.blockUsage
    requires c.usedBlocks == s.usedBlocks + blocks && c.blockUsage == s.blockUsage[name := blocks]
    ensures var t := Delete(c, name, true).state;
      t.usedBlocks == s.usedBlocks && t.blockUsage == s.blockUsage
  {
    DeleteEffect(c, name, true);
    assert c.blockUsage - {name} == s.blockUsage;
  }

  /** Deleting a file right after creating it under a fresh name gives the
      used count and the ledger back. */
  lemma CreateThenDeleteReleases(s: State, name: string, blocks: nat, hasContent: bool, writeOk: bool)
    requires name !in s.blockUsage
    requires Create(s, name, blocks, hasContent, writeOk).status == Done
    ensures var t := Delete(Create(s, name, blocks, hasContent, writeOk).state, name, true).state;
      t.usedBlocks == s.usedBlocks && t.blockUsage == s.blockUsage
  {
    CreateGuard(s, name, blocks, hasContent, writeOk);
    CreateEffect(s, name, blocks, hasContent, writeOk);
    DeleteReleasesCharge(s, Create(s, name, blocks, hasContent, writeOk).state, name, blocks);
  }

  /** Deleting a name undoes a record of it that was just added, provided
      no record map knew the name before and the journal line mentions it. */
  lemma DeleteUndoesRecord(s: State, t: State, name: string, blocks: nat, path: string, line: string)
    requires name != "" && name !in s.allocationTable && name !in s.mft && Contains(line, name)
    requires Recorded(s, t, name, blocks, path, line)
    ensures var e := Delete(t, name, true).state;
      && e.allocationTable == s.allocationTable
      && e.mft == s.mft
      && e.journal == (if s.selectedAlgorithm == FAT32 || s.selectedAlgorithm == NTFS then s.journal
                       else LinesWithout(s.journal, name))
  {
    DeleteRecords(t, name);
    if s.selectedAlgorithm == FAT32 {
      assert t.allocationTable - {name} == s.allocationTable;
    } else if s.selectedAlgorithm == NTFS {
      assert t.mft - {name} == s.mft;
    } else if s.selectedAlgorithm == EXT {
      LinesWithoutAppend(s.journal, line, name);
    }
  }

  /** Deleting a file right after creating it under a name no structure
      knows gives both record maps back; the journal loses the creation line
      and every older line that mentions the name. */
  lemma CreateThenDeleteRecords(s: State, name: string, blocks: nat, hasContent: bool, writeOk: bool)
    requires name !in s.allocationTable && name !in s.mft
    requires Create(s, name, blocks, hasContent, writeOk).status == Done
    ensures var t := Delete(Create(s, name, blocks, hasContent, writeOk).state, name, true).state;
      && t.allocationTable == s.allocationTable
      && t.mft == s.mft
      && t.journal == (if s.selectedAlgorithm == FAT32 || s.selectedAlgorithm == NTFS then s.journal
                       else LinesWithout(s.journal, name))
  {
    var path := Join(s.currentDirectory, name);
    CreateGuard(s, name, blocks, hasContent, writeOk);
    CreateEffect(s, name, blocks, hasContent, writeOk);
    CreatedLineMentions(name, blocks, path);
    DeleteUndoesRecord(s, Create(s, name, blocks, hasContent, writeOk).state, name, blocks, path,
                       CreatedLine(name, blocks, path));
  }

  /** Worked run: on a fresh 1000-block disk FAT32 reserves 160 blocks; a
      50-block file brings the count to 210. Switching to NTFS resets the
      count to 125 while the file stays in the FAT32 table and the ledger. */
  lemma SwitchKeepsRecordRun(cwd: string)
    ensures var s0 := ApplyAlgorithm(Initial(cwd), FAT32);
      var s1 := Create(s0, "a.txt", 50, true, true).state;
      var s2 := ApplyAlgorithm(s1, NTFS);
      && s0.reservedBlocks == 160 && s0.usedBlocks == 160
      && s1.usedBlocks == 210 && s1.allocationTable["a.txt"].blocks == 50
      && s2.reservedBlocks == 125 && s2.usedBlocks == 125
      && "a.txt" in s2.allocationTable && "a.txt" !in s2.mft && s2.blockUsage == map["a.txt" := 50]
  {
    var s0 := ApplyAlgorithm(Initial(cwd), FAT32);
    assert s0 == Initial(cwd).(selectedAlgorithm := FAT32, reservedBlocks := 160, usedBlocks := 160);
    CreateGuard(s0, "a.txt", 50, true, true);
    CreateEffect(s0, "a.txt", 50, true, true);
  }

  /** Continuing that run, deleting the file still frees its 50 blocks and
      removes its FAT32 record, leaving fewer blocks counted as used than
      are reserved. */
  lemma OrphanedRecordRun(cwd: string)
    ensures var s2 := ApplyAlgorithm(Create(ApplyAlgorithm(Initial(cwd), FAT32), "a.txt", 50, true, true).state, NTFS);
      var s3 := Delete(s2, "a.txt", true).state;
      && s3.usedBlocks == 75 && s3.usedBlocks < s3.reservedBlocks
      && "a.txt" !in s3.allocationTable && s3.blockUsage == map[]
  {
    var s2 := ApplyAlgorithm(Create(ApplyAlgorithm(Initial(cwd), FAT32), "a.txt", 50, true, true).state, NTFS);
    SwitchKeepsRecordRun(cwd);
    DeleteEffect(s2, "a.txt", true);
    DeleteRecords(s2, "a.txt");
    assert map["a.txt" := 50] - {"a.txt"} == map[];
  }

  /** Worked run: with no algorithm selected, a 10-block file is charged,
      re-applying the empty choice resets the count to zero, and deleting the
      file then releases its 10 blocks again: the used count goes negative. */
  lemma NegativeUsedRun(cwd: string)
    ensures var s1 := Create(Initial(cwd), "a", 10, true, true).state;
      var s2 := ApplyAlgorithm(s1, "");
      var s3 := Delete(s2, "a", true).state;
      s1.usedBlocks == 10 && s2.usedBlocks == 0 && s3.usedBlocks == -10
  {
  }
}
