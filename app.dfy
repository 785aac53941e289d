/** The application object of the simulator: the fields it keeps and the
    operations that update them in place. Dialog answers and the outcome of
    each host storage call are parameters; every method is specified by the
    matching transition of module FileSystem. */
module App {
  import opened Text
  import opened FileSystem

  class FileSystemApp {
    var currentDirectory: string
    var allocationTable: map<string, FatEntry>
    var journal: seq<string>
    var mft: map<string, MftEntry>
    var diskBlocks: nat
    var usedBlocks: int
    var blockUsage: map<string, int>
    var reservedBlocks: nat
    var selectedAlgorithm: string

    /** The object's fields as one value. */
    function Snapshot(): State
      reads this
    {
      State(currentDirectory, allocationTable, journal, mft, diskBlocks,
            usedBlocks, blockUsage, reservedBlocks, selectedAlgorithm)
    }

    /** Start-up without a saved session: a 1000-block disk, nothing used,
        reserved or recorded, and no algorithm selected. */
    constructor (workingDirectory: string)
      ensures Snapshot() == Initial(workingDirectory)
      ensures Bounded(Snapshot()) && Ledgered(Snapshot())
    {
      currentDirectory := workingDirectory;
      allocationTable := map[];
      journal := [];
      mft := map[];
      diskBlocks := DefaultDiskBlocks;
      usedBlocks := 0;
      blockUsage := map[];
      reservedBlocks := 0;
      selectedAlgorithm := "";
    }

    /** Changes the working directory when the directory dialog returns one. */
    method SetDirectory(chosen: string)
      modifies this
      ensures Snapshot() == old(Snapshot()).(currentDirectory := if chosen != "" then chosen else old(currentDirectory))
    {
      if chosen != "" {
        currentDirectory := chosen;
      }
    }

    method CalculateReservedBlocks()
      modifies this
      ensures Snapshot() == CalculateReserved(old(Snapshot()))
      ensures usedBlocks == reservedBlocks <= diskBlocks
    {
      if selectedAlgorithm == FAT32 {
        reservedBlocks := diskBlocks * 16 / 100;
      } else if selectedAlgorithm == NTFS {
        reservedBlocks := diskBlocks * 125 / 1000;
      } else if selectedAlgorithm == EXT {
        reservedBlocks := diskBlocks * 5 / 100;
      } else {
        reservedBlocks := 0;
      }
      usedBlocks := reservedBlocks;
    }

    method ApplyAlgorithm(choice: string)
      modifies this
      ensures Snapshot() == FileSystem.ApplyAlgorithm(old(Snapshot()), choice)
      ensures Bounded(old(Snapshot())) ==> Bounded(Snapshot())
    {
      ghost var before := Snapshot();
      selectedAlgorithm := choice;
      CalculateReservedBlocks();
      ApplyAlgorithmEffect(before, choice);
    }

    /** Adds or overwrites the record of an allocation in the selected
        algorithm's structure: the FAT32 table, the EXT journal or the NTFS
        MFT, tested in that order. */
    method RecordAllocation(name: string, blocks: nat, path: string, line: string)
      modifies this
      ensures Snapshot() == Record(old(Snapshot()), name, blocks, path, line)
    {
      if selectedAlgorithm == FAT32 {
        allocationTable := allocationTable[name := FatEntry(blocks, path)];
      } else if selectedAlgorithm == EXT {
        journal := journal + [line];
      } else if selectedAlgorithm == NTFS {
        mft := mft[name := MftEntry(blocks, blocks, path)];
      }
    }

    /** Charges `blocks` to the used count and sets the ledger entry. */
    method ChargeBlocks(name: string, blocks: nat)
      modifies this
      ensures Snapshot() == Charge(old(Snapshot()), name, blocks)
    {
      usedBlocks := usedBlocks + blocks;
      blockUsage := blockUsage[name := blocks];
    }

    method CreateFile(name: string, blocks: nat, hasContent: bool, writeOk: bool) returns (status: Status)
      modifies this
      ensures Snapshot() == Create(old(Snapshot()), name, blocks, hasContent, writeOk).state
      ensures status == Create(old(Snapshot()), name, blocks, hasContent, writeOk).status
      ensures Bounded(old(Snapshot())) ==> Bounded(Snapshot())
      ensures Bounded(old(Snapshot())) && Ledgered(old(Snapshot())) && status == Done ==>
                (Ledgered(Snapshot()) <==> name !in old(blockUsage))
    {
      ghost var before := Snapshot();
      if name != "" && blocks != 0 && hasContent {
        if usedBlocks + blocks <= diskBlocks {
          var path := Join(currentDirectory, name);
          if writeOk {
            ChargeBlocks(name, blocks);
            RecordAllocation(name, blocks, path, CreatedLine(name, blocks, path));
            status := Done;
          } else {
            status := StorageFailed;
          }
        } else {
          status := NoSpace;
        }
      } else {
        status := Ignored;
      }
      if Bounded(before) {
        CreatePreservesBounded(before, name, blocks, hasContent, writeOk);
      }
      if Bounded(before) && Ledgered(before) && status == Done {
        CreateLedger(before, name, blocks, hasContent, writeOk);
      }
    }

    /** Releases the blocks the ledger holds for the name, charges `blocks`
        and overwrites the ledger entry. */
    method RechargeBlocks(name: string, blocks: nat)
      modifies this
      ensures Snapshot() == Recharge(old(Snapshot()), name, blocks)
    {
      if name in blockUsage {
        usedBlocks := usedBlocks - blockUsage[name];
      }
      usedBlocks := usedBlocks + blocks;
      blockUsage := blockUsage[name := blocks];
    }

    method SaveReplaceFile(name: string, blocks: nat, writeOk: bool) returns (status: Status)
      modifies this
      ensures Snapshot() == SaveReplace(old(Snapshot()), name, blocks, writeOk).state
      ensures status == SaveReplace(old(Snapshot()), name, blocks, writeOk).status
      ensures Bounded(old(Snapshot())) ==> Bounded(Snapshot())
      ensures Ledgered(old(Snapshot())) ==> Ledgered(Snapshot())
    {
      ghost var before := Snapshot();
      if name != "" && blocks != 0 && usedBlocks + blocks <= diskBlocks {
        var path := Join(currentDirectory, name);
        if writeOk {
          RechargeBlocks(name, blocks);
          RecordAllocation(name, blocks, path, ReplacedLine(name, blocks, path));
          status := Done;
        } else {
          status := StorageFailed;
        }
      } else {
        status := NoSpace;
      }
      if Bounded(before) {
        SaveReplacePreservesBounded(before, name, blocks, writeOk);
      }
      if Ledgered(before) {
        SaveReplacePreservesLedger(before, name, blocks, writeOk);
      }
    }

    /** Rewrites the recorded path of `name` in the first structure that
        knows it. */
    method RelocateRecord(name: string, filePath: string, newPath: string)
      requires filePath != ""
      modifies this
      ensures Snapshot() == Relocate(old(Snapshot()), name, filePath, newPath)
    {
      if name in allocationTable {
        allocationTable := allocationTable[name := allocationTable[name].(path := newPath)];
      } else if name in mft {
        mft := mft[name := mft[name].(path := newPath)];
      } else if AnyMentions(journal, name) {
        journal := RewriteLines(journal, name, filePath, newPath);
      }
    }

    method MoveFile(name: string, newDirectory: string, moveOk: bool) returns (status: Status)
      modifies this
      ensures Snapshot() == Move(old(Snapshot()), name, newDirectory, moveOk).state
      ensures status == Move(old(Snapshot()), name, newDirectory, moveOk).status
      ensures usedBlocks == old(usedBlocks) && reservedBlocks == old(reservedBlocks) && blockUsage == old(blockUsage)
    {
      ghost var before := Snapshot();
      if name != "" && newDirectory != "" {
        var filePath := Join(currentDirectory, name);
        var newPath := Join(newDirectory, name);
        if moveOk {
          RelocateRecord(name, filePath, newPath);
          status := Done;
        } else {
          status := StorageFailed;
        }
      } else {
        status := Ignored;
      }
      MoveGuard(before, name, newDirectory, moveOk);
    }

    /** Removes `name` from the first structure that knows it. */
    method EraseRecord(name: string)
      modifies this
      ensures Snapshot() == Erase(old(Snapshot()), name)
    {
      if name in allocationTable {
        allocationTable := allocationTable - {name};
      } else if name in mft {
        mft := mft - {name};
      } else if AnyMentions(journal, name) {
        journal := LinesWithout(journal, name);
      }
    }

    method DeleteFile(name: string, removeOk: bool) returns (status: Status)
      modifies this
      ensures Snapshot() == Delete(old(Snapshot()), name, removeOk).state
      ensures status == Delete(old(Snapshot()), name, removeOk).status
      ensures Bounded(old(Snapshot())) ==> Bounded(Snapshot())
      ensures Ledgered(old(Snapshot())) ==> Ledgered(Snapshot())
    {
      ghost var before := Snapshot();
      if name != "" {
        if removeOk {
          if name in blockUsage {
            usedBlocks := usedBlocks - blockUsage[name];
            blockUsage := blockUsage - {name};
          }
          EraseRecord(name);
          status := Done;
        } else {
          status := StorageFailed;
        }
      } else {
        status := Ignored;
      }
      if Bounded(before) {
        DeletePreservesBounded(before, name, removeOk);
      }
      if Ledgered(before) {
        DeletePreservesLedger(before, name, removeOk);
      }
    }
  }
}
