# File-system simulator: block accounting and per-algorithm records

`SO_Proyecto.py` is a Tkinter teaching application that simulates a disk of
1000 blocks managed by one of three allocation schemes: FAT32 (an allocation
table), NTFS (a master file table, MFT) or EXT (a journal of text lines).
Under its dialogs is a small sequential state machine, held in the fields of
`FileSystemApp`:

- the disk size;
- the used-block count;
- the reserved area of the selected scheme;
- a ledger from file name to the blocks charged to that file;
- the three record structures.

Five operations change that state:

- applying a scheme;
- creating a file;
- saving or replacing a file;
- moving a file;
- deleting a file.

This project models that state machine and proves what each operation does
to it.

Layout:

- `text.dfy` (module `Text`) covers the string operations the bookkeeping relies on:
  - Python's substring test `p in s` (`Contains`);
  - `str.replace` (`ReplaceAll`);
  - POSIX `os.path.join` with two components (`Join`);
  - `str(n)` for a block count (`Decimal`).
- `ledger.dfy` (module `Ledger`) defines the sum of the ledger's block counts (`Total`). It also holds lemmas on how the sum changes when one entry is added, overwritten or removed.
- `filesystem.dfy` (module `FileSystem`) has these parts:
  - the state as a value, `State`;
  - each operation as a pure transition that returns the new state and the branch the source ends in (`Done`, `Ignored`, `NoSpace`, `StorageFailed`);
  - the two invariants: `Bounded` (used ≤ disk, ledger entries ≥ 1) and `Ledgered` (used = reserved + sum of the ledger);
  - the lemmas about the transitions, including two worked runs.
- `app.dfy` (module `App`) holds the class `FileSystemApp`. It has the object's nine fields, and one method per operation that updates them in place. Each method's postcondition ties the new field values to the matching transition of `FileSystem`.

The dialog answers are parameters:

- The file name is `""` when the dialog was cancelled or left empty.
- The block count is `0` when the integer dialog was cancelled; that dialog only returns integers ≥ 1.
- `hasContent` records whether the content dialog returned a string, which may be empty.
- The new directory is `""` when cancelled.

Each host storage call is a boolean parameter that says whether it succeeded:

- `open(...).write` for create and save/replace;
- `shutil.move` for move;
- `os.remove` for delete.

The source makes that call before it touches any field, so a failed call leaves the state unchanged.

## Model

| member | source | states |
|---|---|---|
| App.FileSystemApp.constructor | SO_Proyecto.py:11-19 | With no saved session the object starts in the given working directory, with a 1000-block disk. Nothing is used, reserved or recorded, and no scheme is selected. This start state satisfies both invariants. |
| App.FileSystemApp.SetDirectory | SO_Proyecto.py:99-102 | The working directory changes to the chosen one when the dialog returns one. Otherwise nothing changes. |
| App.FileSystemApp.CalculateReservedBlocks | SO_Proyecto.py:79-97 | The reserved area becomes the floor of the selected scheme's share of the disk (16%, 12.5%, 5%, else 0), and the used count is set to exactly that area, which never exceeds the disk. |
| App.FileSystemApp.ApplyAlgorithm | SO_Proyecto.py:73-75 | Stores the chosen scheme and recomputes the reserved area as `FileSystem.ApplyAlgorithm` describes. It keeps the capacity invariant. |
| App.FileSystemApp.RecordAllocation | SO_Proyecto.py:315-320 | Writes the record of an allocation into the selected scheme's structure, which is tested in the order FAT32, EXT, NTFS. |
| App.FileSystemApp.ChargeBlocks | SO_Proyecto.py:311-312 | Adds the file's blocks to the used count and sets its ledger entry, as `FileSystem.Charge` describes. |
| App.FileSystemApp.CreateFile | SO_Proyecto.py:303-320 | The in-place create follows the `Create` transition: status and new state. It keeps the capacity invariant. From a ledgered state, the ledger invariant holds afterwards exactly when the name was not already in the ledger. |
| App.FileSystemApp.RechargeBlocks | SO_Proyecto.py:340-344 | Releases the blocks the ledger holds for the name, charges the new amount and overwrites the entry, as `FileSystem.Recharge` describes. |
| App.FileSystemApp.SaveReplaceFile | SO_Proyecto.py:333-352 | The in-place save/replace follows the `SaveReplace` transition. It keeps both the capacity invariant and the ledger invariant. |
| App.FileSystemApp.RelocateRecord | SO_Proyecto.py:373-378 | Rewrites the recorded path in the first structure that knows the name: the allocation table, else the MFT, else the journal lines that mention the name. |
| App.FileSystemApp.MoveFile | SO_Proyecto.py:365-378 | The in-place move follows the `Move` transition. The used count, the reserved area and the ledger are left exactly as they were. |
| App.FileSystemApp.EraseRecord | SO_Proyecto.py:397-402 | Removes the name from the first structure that knows it. In the journal this drops every line that mentions the name. |
| App.FileSystemApp.DeleteFile | SO_Proyecto.py:387-402 | The in-place delete follows the `Delete` transition. It keeps both the capacity invariant and the ledger invariant. |
| FileSystem.Initial | SO_Proyecto.py:440-448 | The default state keeps the working directory and has a 1000-block disk, and it satisfies both the capacity invariant and the ledger invariant. |
| FileSystem.CalculateReserved | SO_Proyecto.py:79-97 | Only the reserved area and the used count change. The reserved area becomes `ReservedFor` of the selected scheme and the disk, and the used count becomes exactly that area, which fits on the disk. |
| FileSystem.ApplyAlgorithm | SO_Proyecto.py:73-75 | The chosen scheme is stored and the reserved area becomes `ReservedFor` of that scheme and the disk size. Apart from the used count, nothing else changes. |
| FileSystem.CreatedLine | SO_Proyecto.py:318 | The creation line starts with the 16-character prefix "Archivo creado: ", names the file right after it, and ends with the file's path. |
| FileSystem.ReplacedLine | SO_Proyecto.py:350 | The save/replace line starts with the 30-character prefix "Archivo guardado/reemplazado: ", names the file right after it, and ends with the file's path. |
| FileSystem.Record | SO_Proyecto.py:315-320 | Recording keeps the setting, the used count and the ledger, and the journal grows by at most one line. |
| FileSystem.Create | SO_Proyecto.py:298-327 | Create keeps the disk, reserved area, scheme and directory. It changes nothing unless it succeeds, and on success the ledger charges exactly the file's blocks to its name. |
| FileSystem.SaveReplace | SO_Proyecto.py:329-359 | Save/replace keeps the disk, reserved area, scheme and directory. It changes nothing unless it succeeds, and on success the ledger entry for the name holds exactly the new block count. |
| FileSystem.AnyMentions | SO_Proyecto.py:401-402 | The `any` guard holds exactly when dropping the lines that mention the name would change the journal, so the journal branch of delete is taken only when it removes something. |
| FileSystem.FilterChangesIffMention | SO_Proyecto.py:401-402 | Filtering the journal by a name changes it if and only if some line contains the name as a substring. |
| FileSystem.RewriteLines | SO_Proyecto.py:378 | The rewritten journal has as many lines as before. Lines that do not mention the name are kept as they are. Rewriting a path into itself gives the journal back. |
| FileSystem.Move | SO_Proyecto.py:361-382 | Move neither adds nor forgets a record: both maps keep their key sets and the journal keeps its number of lines. |
| FileSystem.Relocate | SO_Proyecto.py:373-378 | Rewriting a path keeps the key sets of both maps and the number of journal lines. |
| FileSystem.Delete | SO_Proyecto.py:384-407 | Delete keeps the disk, reserved area, scheme and directory. It changes nothing unless it succeeds, and on success the ledger holds no entry for the name. |
| FileSystem.Erase | SO_Proyecto.py:397-402 | Erasing leaves the name out of the allocation table and never adds to the MFT. The journal only loses lines, and every line kept was there before. |
| FileSystem.ReservedFor | SO_Proyecto.py:85-95 | The reserved area is the floor of 16% of the disk for FAT32, 12.5% for NTFS and 5% for EXT, and 0 for any other choice. It never exceeds the disk. |
| FileSystem.ApplyAlgorithmEffect | SO_Proyecto.py:73-97 | Applying a scheme sets the used count to the reserved area. This discards the blocks charged to files. The ledger and all three structures stay as they were. The capacity invariant is kept. The ledger invariant holds afterwards exactly when the ledger sums to zero; from a state within capacity, exactly when no file is charged at all. |
| FileSystem.RecordIsRecorded | SO_Proyecto.py:315-320 | Recording changes only the selected scheme's structure, and leaves the counts and the ledger alone. FAT32 sets a `{blocks, path}` entry. NTFS sets an entry whose size equals its blocks. EXT appends one line. Any other choice records nothing. |
| FileSystem.CreateGuard | SO_Proyecto.py:303-327 | Create succeeds if and only if all of these hold: the name is non-empty, at least one block is asked for, content was given, the blocks fit and the write succeeds. It does nothing, silently, exactly when an input is missing. It gives the space warning exactly when all inputs are there but the blocks do not fit. In every case but success the state is unchanged. |
| FileSystem.CreateEffect | SO_Proyecto.py:311-320 | A successful create adds exactly `blocks` to the used count and sets the ledger entry to `blocks`. It adds exactly the one record the selected scheme calls for. |
| FileSystem.CreatePreservesBounded | SO_Proyecto.py:304 | Create never takes the used count past the disk size, and every ledger entry stays at least 1. |
| FileSystem.CreateLedger | SO_Proyecto.py:311-312 | After a successful create, the ledger invariant holds exactly when the name was new. Re-creating a name charges the new blocks without releasing the old ones. |
| FileSystem.SaveReplaceGuard | SO_Proyecto.py:333-359 | Replace succeeds if and only if all of these hold: the name is non-empty, at least one block is asked for, the gross amount fits and the write succeeds. The blocks the file already holds are not credited in that check. A missing input and a lack of space both give the space warning. The storage error comes exactly when the check passes but the write fails. Refusal changes nothing. |
| FileSystem.SaveReplaceEffect | SO_Proyecto.py:340-352 | A successful replace sets used to old used − old ledger amount (0 if none) + blocks. The ledger entry is overwritten and its key set gains only the name. FAT32 and NTFS records are overwritten, and EXT appends a line. |
| FileSystem.SaveReplacePreservesBounded | SO_Proyecto.py:333 | Replace keeps the used count within the disk and every ledger entry at least 1. |
| FileSystem.SaveReplacePreservesLedger | SO_Proyecto.py:340-344 | Replace keeps the used count equal to the reserved area plus the sum of the ledger. |
| FileSystem.LinesWithout | SO_Proyecto.py:402 | The filtered journal keeps exactly the lines that do not mention the name, and no others. |
| FileSystem.LinesWithoutAppend | SO_Proyecto.py:402 | Filtering a journal with one line appended gives the filtered journal, followed by that line if it does not mention the name. |
| FileSystem.LinesWithoutNoMention | SO_Proyecto.py:401-402 | When no line mentions the name, filtering gives the journal back unchanged. |
| FileSystem.RelocateKeepsAccounting | SO_Proyecto.py:373-378 | Rewriting a path touches only the three record structures. |
| FileSystem.MoveGuard | SO_Proyecto.py:365-382 | Move succeeds if and only if both dialogs were answered and the host move succeeded. It does nothing, silently, exactly when an answer is missing; the storage error comes exactly when both were answered and the host move failed. In every case but success nothing changes, and in every case the counts, the ledger, the scheme and the working directory stay the same. |
| FileSystem.MoveInAllocationTable | SO_Proyecto.py:373-374 | A name in the allocation table gets its FAT32 path set to the joined new path, with its blocks kept. The MFT and the journal are untouched, whatever scheme is selected. |
| FileSystem.MoveInMft | SO_Proyecto.py:375-376 | Otherwise, a name in the MFT gets its NTFS path rewritten, with its size and blocks kept. The other structures are untouched. |
| FileSystem.MoveInJournal | SO_Proyecto.py:377-378 | Otherwise, each journal line that mentions the name has every occurrence of the old joined path replaced by the new one. All other lines, and the number of lines, are kept. |
| FileSystem.MoveToSameDirectoryKeepsJournal | SO_Proyecto.py:366-378 | Moving a file into the working directory itself leaves the journal text unchanged. |
| FileSystem.EraseEffect | SO_Proyecto.py:397-402 | Erasing removes the name from the allocation table, else from the MFT, else drops the journal lines that mention it. Nothing else changes. |
| FileSystem.DeleteEffect | SO_Proyecto.py:387-407 | Delete succeeds if and only if a name was given and the removal succeeded. It does nothing, silently, exactly when no name was given; the storage error comes exactly when a name was given and the removal failed. In every case but success nothing changes. On success the used count drops by the ledger amount (0 if absent), the ledger entry is removed, and the reserved area, disk, scheme and directory are kept. |
| FileSystem.DeleteRecords | SO_Proyecto.py:397-402 | A successful delete removes the record by key from the allocation table, else from the MFT. Otherwise it drops every journal line mentioning the name, including other files' lines. This does not depend on the selected scheme. |
| FileSystem.DeletePreservesBounded | SO_Proyecto.py:393-395 | Delete keeps the used count within the disk and every ledger entry at least 1. |
| FileSystem.DeletePreservesLedger | SO_Proyecto.py:393-395 | Delete keeps the used count equal to the reserved area plus the sum of the ledger. |
| FileSystem.CreatedLineMentions | SO_Proyecto.py:318 | The journal line written by create mentions the file's name. |
| FileSystem.CreateThenDeleteReleases | SO_Proyecto.py:311-312 | Deleting a file right after creating it under a fresh name restores the used count and the ledger. |
| FileSystem.DeleteReleasesCharge | SO_Proyecto.py:393-395 | Deleting a name that was just charged as a new ledger entry gives back the used count and the ledger from before the charge. |
| FileSystem.DeleteUndoesRecord | SO_Proyecto.py:397-402 | Deleting a name undoes a record of it just added, when no map knew the name before. The EXT journal loses every line that mentions the name. |
| FileSystem.CreateThenDeleteRecords | SO_Proyecto.py:315-320 | Create followed by delete of a name no map knew restores the allocation table and the MFT. Under EXT, the journal loses the creation line and every older line mentioning the name. |
| FileSystem.SwitchKeepsRecordRun | SO_Proyecto.py:85-97 | Worked run on the default disk: FAT32 reserves 160, then a 50-block file brings used to 210. Switching to NTFS resets used to 125 and leaves the FAT32 record and the ledger entry in place. |
| FileSystem.OrphanedRecordRun | SO_Proyecto.py:393-398 | Continuing that run, deleting the file brings used to 75, below the reserved 125, removes its FAT32 record and empties the ledger. |
| FileSystem.NegativeUsedRun | SO_Proyecto.py:394 | Worked run: with no scheme, a 10-block file is charged. Re-applying the empty choice resets used to 0, and deleting the file then brings used to −10. |
| Ledger.TotalRemove | SO_Proyecto.py:395 | The ledger sum splits at any name: the name's count plus the sum without it. |
| Ledger.TotalAtLeastSize | SO_Proyecto.py:312 | When every name is charged at least one block, the ledger sum is at least the number of names. |
| Ledger.TotalInsert | SO_Proyecto.py:312 | Adding a new name to the ledger adds its count to the sum. |
| Ledger.TotalOverwrite | SO_Proyecto.py:344 | Overwriting a name's count replaces its share of the sum. |
| Text.Contains | SO_Proyecto.py:377 | A string can only contain a pattern no longer than itself, and the empty string is contained in every string, as in Python. |
| Text.ReplaceAll | SO_Proyecto.py:378 | Replacing a non-empty string by itself gives the text back unchanged. |
| Text.ReplaceAllReplaces | SO_Proyecto.py:378 | When the text holds the old string, the result holds the new one: the replacement does take place. |
| Text.ContainsNotAtZero | SO_Proyecto.py:377 | An occurrence that does not start at the first character lies in the rest of the string. |
| Text.ContainsAt | SO_Proyecto.py:377 | An occurrence at a given index makes the substring test true. |
| Text.ContainsTail | SO_Proyecto.py:401 | An occurrence in the tail of a string is an occurrence in the string. |
| Text.ReplaceAllAbsent | SO_Proyecto.py:378 | Replacing a string that does not occur gives the text back unchanged. |
| Text.Join | SO_Proyecto.py:305 | The joined path ends with the file name and is non-empty for a non-empty name. A relative name under a non-empty directory gives a path that starts with that directory. |
| Text.Decimal | SO_Proyecto.py:318 | A block count is rendered as a non-empty string of digits without a leading zero. |
| Text.DecimalRoundTrip | SO_Proyecto.py:350 | Reading the rendered digits back gives the block count again. |

## Behaviour of the source worth knowing

- SO_Proyecto.py:97 sets `used_blocks` to `reserved_blocks` whenever a scheme is applied, discarding the blocks charged to files while their ledger entries and records stay (`ApplyAlgorithmEffect`, `SwitchKeepsRecordRun`).
- SO_Proyecto.py:333 checks the gross amount `used_blocks + blocks <= disk_blocks` before a replace, without crediting the blocks the file already holds (`SaveReplaceGuard`).
- SO_Proyecto.py:341 and :394 subtract the ledger amount without any lower bound, so the used count can fall below the reserved area or below zero (`OrphanedRecordRun`, `NegativeUsedRun`); the model keeps it as an `int`.
- SO_Proyecto.py:311-312 charge a create without releasing what the ledger already holds for the same name (`CreateLedger`).
- SO_Proyecto.py:373-378 and :397-402 act on whichever structure holds the name, whatever scheme is selected at the time (`MoveInAllocationTable`, `DeleteRecords`).
- SO_Proyecto.py:402 drops every journal line containing the name as a substring, including lines of other files whose names contain it (`DeleteRecords`).
- The code keeps no block cursor, no start/end block ranges and no per-file block limit, and neither does the model.

## Left out

- What the user sees after a success is not modelled. Create, save/replace and delete call `update_progress_bar` inside their `try` after the state update (SO_Proyecto.py:323, :355, :405). `self.progress_frame` only exists while the disk-configuration screen is shown (:191), and `clear_window` (:41-43) destroys it before the file-operations screen opens. The call then raises, the handler at :324, :356 or :406 runs, and the user sees the success message followed by the error message. `Done` means that every state update was made, not that only the success message was shown. Applying a scheme makes the same call outside any handler (:77), after the fields are updated.
- The Tkinter interface is not modelled: menus, windows, message boxes, the progress bar (`update_progress_bar`) and the views of the structures. All of it is presentation.
- Host file-system calls are not modelled. `open().write`, `shutil.move` and `os.remove` become the booleans `writeOk`, `moveOk` and `removeOk`. `os.getcwd()` and the directory dialog become string parameters.
- JSON persistence is not modelled: `save_data`, and the file-reading branch of `load_data`. Only the default start state is modelled, as the constructor.
- Fields loaded from a saved session are not modelled. In the source, `save_data` writes neither the reserved area nor the scheme, so they reload as 0 and `""`.
- FileSystem.ReservedFor: uses exact rational floors where the source multiplies by the floats 0.16, 0.125 and 0.05 and truncates. The two agree for the default 1000-block disk; IEEE rounding for other sizes is not modelled.
- Text.Join: models POSIX `os.path.join` with two components only. Windows path rules are not modelled.
- Text.Contains: treats strings as sequences of characters; Unicode normalisation is not modelled.
- The map entries of the allocation table and the MFT are values, so aliasing of the nested dictionaries is not modelled. The source never shares them.
- The editable scheme selector is not modelled as a closed set. Any string can be chosen, and a string other than FAT32, NTFS or EXT reserves nothing and records nothing, as in the source.
