# Visual Photo Renamer — a verified model of the renaming core

Visual Photo Renamer gives RAW photos the names of their edited JPG copies.
It pairs each RAW file with the JPG that looks most like it, using a
perceptual hash. It renames the RAW file to the JPG's stem plus the RAW
file's own suffix. It records every rename in a JSON backup log, from which
a later restore renames the files back.

This project models that core in Dafny and proves its properties:

- `FileRenamerCore` is a class with its four operations:
  - `scan_files`
  - `find_pairs`
  - `generate_rename_plan`
  - `execute_rename`
- The restore loop of the GUI's `restore_backup`, and its capped error message.

The filesystem is a value of folders and regular files. The class
`Storage.FileSystem` updates it in place. `Path.rename` has POSIX semantics:
a file moves, and it replaces a file already at the target.

Each imperative method is proved against a specification function:

| method | specification function |
|---|---|
| `ScanFiles` | `Classify` |
| `FindPairs` | `Candidates` and `PairsFor` |
| `BestMatchIn` | `BestMatch` |
| `GenerateRenamePlan` | `PlanFor` |
| `ExecuteRename` | `Execute` and `WriteStep` |
| `RestoreBackup` | `Restore` |

The lemmas state what the program promises about those functions.

Modules, in dependency order:

- `Paths`: pathlib's `name`, `parent`, `suffix`, `stem` and `/`. Also the extension sets.
- `Storage`: the log records, the filesystem value and the rename and write steps.
- `Hashing`: the fingerprint and the Hamming distance. The decoder is an oracle `decode`.
- `Selection`: order-preserving filtering, shared by scanning and planning.
- `Scanning`: the folder scan.
- `Pairing`: closest-JPG matching and progress callbacks.
- `Planning`: the rename plan. Also the corrected planner of the finding below.
- `Backup`:
  - execute and restore as functions;
  - frame and locality lemmas;
  - the round trip and idempotence;
  - the log name and the restore message.
- `Renamer`:
  - the `FileRenamerCore` class;
  - the inner matching loop;
  - the restore routine;
  - the lemmas that tie one whole session together.

`renamerV2_gui.py` and `renamerV3_gui.py` are identical. `renamerV4.py` has
the same `FileRenamerCore` and the same restore loop, at these lines:

| code | renamerV4.py | renamerV2_gui.py / renamerV3_gui.py |
|---|---|---|
| constants | 27-30 | 27-30 |
| `__init__` | 37-44 | 36-43 |
| `scan_files` | 46-71 | 45-70 |
| `calculate_image_hash` | 73-82 | 72-81 |
| `find_pairs` | 84-123 | 83-123 |
| `generate_rename_plan` | 125-139 | 125-139 |
| `execute_rename` | 141-183 | 141-184 |
| restore loop and message | 819-841 | 464-486 |

`scan_files` checks each folder with `exists()` only (renamerV4.py:51-55).
A path that exists but is a file passes that check, and then `iterdir()`
raises NotADirectoryError. If the JPG path is the file, that happens after
the RAW list is already filled. The model keeps this order: see
`ScanFiles`.

## Model

| member | source | states |
|---|---|---|
| `Paths.Path.Join` | renamerV4.py:131 | `parent / name` has `parent` as its parent and `name` as its name, and differs from `parent` |
| `Paths.LastDot` | renamerV4.py:130 | the index found is a dot with no dot after it, or -1 when the name has no dot |
| `Paths.StemAndSuffix` | renamerV4.py:130 | a name is its stem followed by its suffix |
| `Paths.SuffixShape` | renamerV4.py:60 | a suffix is empty, or a dot and at least one more character with no further dot |
| `Paths.StemSuffixOfJoined` | renamerV4.py:130 | joining a non-empty stem and a well-formed suffix gives back that stem and that suffix, case and all |
| `Paths.StemOfSuffixed` | renamerV4.py:130 | a name with a suffix has a non-empty stem |
| `Storage.RenameStep` | renamerV4.py:158 | a rename succeeds exactly when the source is a file, the target's folder exists, the target is not a folder and the OS does not refuse; on success the file moves and replaces any file at the target; on failure nothing changes |
| `Storage.WriteStep` | renamerV4.py:180-181 | writing succeeds exactly when the folder exists, the path is not a folder and the OS does not refuse; a folder that is a regular file is NotADirectory; on success the file at the path holds the new content |
| `Storage.RenameKeepsValid` | renamerV2_gui.py:158 | a rename keeps a real tree a real tree |
| `Storage.WriteKeepsValid` | renamerV2_gui.py:181-182 | a write keeps a real tree a real tree |
| `Storage.FileSystem.Rename` | renamerV3_gui.py:158 | the in-place rename changes the tree as `RenameStep` says and returns its error |
| `Storage.FileSystem.Write` | renamerV3_gui.py:181-182 | the in-place write changes the tree as `WriteStep` says and returns its error |
| `Hashing.Hamming` | renamerV4.py:115 | the distance of two fingerprints is at most their length, and is 0 exactly when they are equal |
| `Hashing.Distance` | renamerV4.py:115 | `raw_hash - jpg_hash` is at most 256, the number of bits of a 16x16 hash |
| `Hashing.HammingSymmetric` | renamerV2_gui.py:115 | `a - b == b - a` |
| `Scanning.ClassifyMembers` | renamerV4.py:58-62 | a listed entry is kept exactly when it is a regular file whose lower-cased suffix is in the set, and at most every entry is kept |
| `Scanning.ClassifyAppend` | renamerV4.py:65-69 | kept entries stay in listing order |
| `Scanning.ClassifyNoDups` | renamerV2_gui.py:57-68 | a listing without repeats gives a list without repeats |
| `Scanning.ClassifyFolder` | renamerV3_gui.py:57-68 | over a folder's listing, the scan finds exactly the regular files directly in that folder with a matching lower-cased suffix, each once |
| `Scanning.Classify` | renamerV4.py:58-69 | each scan loop keeps at most one entry per listed entry, and only listed regular files whose lower-cased suffix is in the extension set |
| `Pairing.CandidatesMembers` | renamerV4.py:93-96 | the JPG fingerprints are those of exactly the JPGs that hash, and there are at most as many as JPGs |
| `Pairing.Candidates` | renamerV4.py:93-96 | every fingerprint stored for a JPG is that JPG's own hash |
| `Pairing.FirstMinIndex` | renamerV4.py:114-118 | the chosen JPG is at least as close as every JPG, and strictly closer than every JPG before it |
| `Pairing.BestMatch` | renamerV4.py:111-118 | a match is the first closest JPG and lies within the threshold; there is none exactly when every JPG is farther than the threshold |
| `Pairing.FirstClosestUnique` | renamerV2_gui.py:114-118 | any JPG that is first closest and within the threshold is the match |
| `Pairing.BestMatchMonotone` | renamerV2_gui.py:116 | raising the threshold keeps a match and its JPG |
| `Pairing.MatchFor` | renamerV4.py:102-121 | a RAW file gets a pair naming itself and a distance within the threshold, and gets none exactly when it has no fingerprint or no JPG is within the threshold |
| `Pairing.MatchForIsFirstClosest` | renamerV3_gui.py:111-121 | a pair names the first closest JPG and its distance |
| `Pairing.MatchForMonotone` | renamerV3_gui.py:116 | raising the threshold never removes or alters a RAW file's pair |
| `Pairing.PairsFor` | renamerV4.py:101-121 | the RAW loop stores at most one pair per RAW file, each for a listed RAW file and with a distance within the threshold |
| `Pairing.PairsMembers` | renamerV4.py:101-121 | the pairs are exactly the matches of the RAW files that have one, and there are at most as many pairs as RAW files |
| `Pairing.PairsWithinThreshold` | renamerV4.py:117 | every stored distance is within the threshold |
| `Pairing.PairsAppend` | renamerV4.py:102 | pairs follow the order of the RAW files |
| `Pairing.PairsOnePerRaw` | renamerV2_gui.py:101-121 | with RAW files listed once each, no RAW file has two pairs |
| `Pairing.PairsMonotone` | renamerV3_gui.py:101-121 | every pair found under a threshold is found, unchanged, under any larger threshold |
| `Planning.TargetFor` | renamerV4.py:130-131 | the target is in the RAW file's folder and is named with the JPG's stem and the RAW file's suffix |
| `Planning.TargetShape` | renamerV4.py:130-131 | the target keeps the RAW file's suffix, in its own case, and takes the JPG's stem |
| `Planning.Planned` | renamerV4.py:133-136 | a pair is planned exactly when its target does not exist and differs from the RAW file |
| `Planning.MovesOf` | renamerV4.py:137 | one move per planned pair |
| `Planning.PlanFor` | renamerV4.py:125-139 | the plan has at most one entry per pair |
| `Planning.PlanForSnoc` | renamerV4.py:129-137 | one more pair adds its move at the end of the plan exactly when it passes both checks |
| `Planning.PlanIsSelection` | renamerV2_gui.py:125-139 | the plan is the moves of an order-preserving subsequence of the pairs, and that subsequence is exactly the planned pairs |
| `Planning.PlanMembers` | renamerV3_gui.py:125-139 | a move is in the plan exactly when it is the move of a pair that passes both checks |
| `Planning.PlanSafe` | renamerV4.py:130-137 | no move is a no-op, every move stays in its folder, and no move targets a path that existed at planning time |
| `Planning.PlanSourcesDistinct` | renamerV2_gui.py:129-137 | pairs with distinct RAW files give a plan with distinct sources |
| `Planning.DistinctFromDisk` | renamerV3_gui.py:130-137 | existing, distinct sources and absent, distinct targets make every path of the plan distinct |
| `Planning.PlanDistinctWhenTargetsAre` | renamerV4.py:125-139 | when the targets happen to differ, a plan from distinct existing RAW files touches every path once |
| `Planning.SharedTargetPlanned` | renamerV4.py:129-137 | two RAW files closest to one JPG are both planned onto the same target |
| `Planning.FirstPerTarget` | renamerV2_gui.py:129-137 | keeping the first move per target leaves moves of the plan with distinct targets |
| `Planning.PlanForDistinct` | renamerV3_gui.py:129-137 | the corrected plan has distinct targets and only moves the as-written plan has |
| `Planning.FirstPerTargetDistinct` | renamerV4.py:129-137 | keeping the first move per target keeps distinct sources distinct |
| `Planning.PlanForDistinctIsDistinct` | renamerV4.py:129-137 | the corrected plan touches every path once |
| `Planning.FirstPerTargetCovers` | renamerV4.py:129-137 | every target of the plan keeps a move in the corrected plan |
| `Planning.FirstPerTargetKeepsFirst` | renamerV4.py:129-137 | a move whose target no earlier move has is kept |
| `Planning.FirstPerTargetOnlyFirst` | renamerV4.py:129-137 | every kept move is the first move of the plan with its target |
| `Planning.FirstPerTargetIdentity` | renamerV4.py:129-137 | a plan whose targets already differ is kept whole |
| `Planning.FirstPerTargetOrder` | renamerV4.py:129-137 | the kept moves keep plan order: kept move k is the plan's move at an increasing position |
| `Planning.PlanForDistinctKeepsFirst` | renamerV2_gui.py:129-137 | the corrected planner keeps exactly the first move per target of the as-written plan |
| `Planning.PlanForDistinctCovers` | renamerV3_gui.py:129-137 | the corrected planner keeps a move for every target of the as-written plan, and the whole plan when its targets differ |
| `Backup.Execute` | renamerV4.py:156-177 | one record per move, and the folders are unchanged |
| `Backup.ExecuteRecords` | renamerV2_gui.py:156-178 | the i-th record names the i-th move's source and target paths and names |
| `Backup.ExecutePrefix` | renamerV4.py:156-177 | records are appended in plan order: the first k moves give the first k records |
| `Backup.ExecuteStatus` | renamerV4.py:157-177 | the i-th record says success exactly when its rename, tried after the earlier ones, raised nothing, and otherwise carries the error it raised |
| `Backup.SuccessCount` | renamerV4.py:167 | the success count is at most the number of records |
| `Backup.ExecutePaths` | renamerV3_gui.py:156-178 | the records name exactly the paths the plan names |
| `Backup.ExecuteFrame` | renamerV4.py:156-177 | the rename loop leaves every file the plan does not name as it was |
| `Backup.Restore` | renamerV4.py:825-835 | a restore changes no folder |
| `Backup.RestoreStep` | renamerV4.py:826-835 | one pass changes no folder and only appends errors. It skips a record that is not a success, or whose new path is missing. Otherwise it renames the new path back to the old one: success leaves the tree of `RenameStep` and adds one to restored; failure leaves the tree and appends "name: message" for the new path's name and the OS error |
| `Backup.RestoreBounded` | renamerV4.py:826-835 | restored files plus errors are at most the success records, so `restored` is at most the success count |
| `Backup.RestoreFrame` | renamerV2_gui.py:470-480 | the restore loop leaves every file its log does not name as it was |
| `Backup.RestoreStepLocal` | renamerV4.py:826-835 | one pass of the loop depends only on the two paths of its record |
| `Backup.RestoreLocal` | renamerV3_gui.py:470-480 | two trees with the same folders that agree on the log's paths restore to the same counts and errors, and still agree on those paths |
| `Backup.RestoreNothingLeft` | renamerV4.py:830 | when no success record's new path exists, a restore changes nothing and reports nothing |
| `Backup.UndoLast` | renamerV4.py:831-833 | restoring the earlier records on a tree with one more move, then the last record, undoes both |
| `Backup.RoundTripAt` | renamerV2_gui.py:470-480 | the round trip, path by path |
| `Backup.RoundTrip` | renamerV4.py:825-835 | execute then restore gives back the original tree; it counts every successful rename and reports no error. This holds over a real tree, with every path of the plan distinct, targets absent and renames back granted |
| `Backup.RestoreTwice` | renamerV3_gui.py:470-480 | after a full round trip, a second restore from the same log changes nothing and restores 0 |
| `Backup.LogRoundTrip` | renamerV4.py:180-181 | with the log written after the renames, the restore puts every file back and leaves the log in place |
| `Backup.SharedTargetLosesFile` | renamerV4.py:156-177 | two moves onto one target both succeed, one file's content is gone, and restore brings back one file, under the first name with the second file's content |
| `Backup.CorrectedPlanRoundTrip` | renamerV4.py:125-139 | with the corrected planner, a plan from distinct existing RAW files restores to the original tree |
| `Backup.LogName` | renamerV4.py:143-144 | for a stamp of digits and underscores, as `strftime("%Y%m%d_%H%M%S")` writes it, the log's name has the suffix `.json` and no '/', so it is one path component |
| `Backup.NatToString` | renamerV4.py:837 | the count is written as a non-empty string of decimal digits |
| `Backup.NatToStringValue` | renamerV2_gui.py:482 | the digits read back as the count |
| `Backup.Summarize` | renamerV4.py:839-841 | at most five errors are listed, they are the first ones in order, and listed plus counted-only errors are all of them; some are counted-only only when five are listed |
| `Backup.RestoreMessage` | renamerV4.py:837-841 | the text starts with the restored count, and is that line alone exactly when no error is listed |
| `Backup.SplitJoined` | renamerV4.py:839 | `"\n".join(errors[:5])` splits back into those errors when none holds a newline |
| `Backup.ListedErrorsLines` | renamerV4.py:837-839 | the headline, a blank line, "Chyby:" and then the listed errors, one per line |
| `Backup.MessageLines` | renamerV4.py:837-841 | the dialog's lines are the headline alone when no error is listed; otherwise the headline, a blank line, "Chyby:", the listed errors in order, and "... a dalších N chyb" exactly when N more errors were not listed |
| `Renamer.FileRenamerCore.constructor` | renamerV4.py:37-44 | the folders and threshold are set, the lists are empty and no log is set |
| `Renamer.FileRenamerCore.WithDefaultThreshold` | renamerV4.py:37 | without a threshold, the core uses DEFAULT_SIMILARITY_THRESHOLD, 5, with empty lists and no log |
| `Renamer.FileRenamerCore.ScanFiles` | renamerV4.py:46-71 | the lists are reset first. A missing RAW folder fails, then a missing JPG folder, and a RAW path that is a file fails, each with both lists empty. Otherwise the RAW list is filled; then a JPG path that is a file fails with the JPG list empty. Otherwise the JPG list is filled, and the counts are the lengths |
| `Renamer.FileRenamerCore.FindPairs` | renamerV4.py:84-123 | the pairs are the first closest matches of the RAW files over the JPGs that hash; the callbacks run 1..total, JPGs first; the lists stay valid |
| `Renamer.FileRenamerCore.GenerateRenamePlan` | renamerV4.py:125-139 | the loop builds exactly the plan that `PlanFor` specifies |
| `Renamer.FileRenamerCore.ExecuteRename` | renamerV4.py:141-183 | the log path is set first. Every move is tried and recorded. The log is then written in the RAW folder whatever the renames did, and the result is the success count and the log path, or the write error |
| `Renamer.BestMatchIn` | renamerV4.py:111-118 | the strictly-closer-and-within-threshold loop finds exactly the first closest JPG within the threshold |
| `Renamer.CandidatesStep` | renamerV4.py:93-95 | each JPG adds its fingerprint, if it has one |
| `Renamer.PairsForStep` | renamerV4.py:119-121 | each RAW file adds its match, if it has one |
| `Renamer.MatchStep` | renamerV4.py:102-121 | a RAW file with no hash, or whose hash has no JPG within the threshold, adds no pair; otherwise it adds the pair of the first closest JPG and its distance |
| `Renamer.PlanStep` | renamerV4.py:129-137 | each pair adds its move, if it passes both checks |
| `Renamer.ProgressStep` | renamerV4.py:97-106 | each file adds the next callback, counting up by one |
| `Renamer.PairFitsOne` | renamerV2_gui.py:119-121 | a pair is of a RAW file of the RAW folder and of a JPG with a suffix, within the threshold |
| `Renamer.PairsFit` | renamerV4.py:101-121 | pairs from scanned lists fit the RAW folder and the threshold, one per RAW file |
| `Renamer.NotTheLog` | renamerV4.py:144-145 | a path with a RAW suffix is never the backup log |
| `Renamer.LogPathOutsidePlan` | renamerV4.py:145 | the backup log is never a source or target of the plan |
| `Renamer.MoveNotTheLog` | renamerV3_gui.py:144-145 | neither path of a pair's move is the backup log |
| `Renamer.SessionRoundTrip` | renamerV4.py:141-183 | plan, execute, write the log, restore: every file is back and the log stays, when the plan's targets are distinct |
| `Renamer.CorrectedSessionRoundTrip` | renamerV2_gui.py:141-184 | the same session with the corrected planner needs no assumption about targets |
| `Renamer.RestoreBackup` | renamerV4.py:819-841 | a file that is not a backup log changes nothing; otherwise the tree and the counters are those of `Restore` over its records, and the text is the capped message |

## Left out

- The tkinter user interface: widgets, tables, previews, thumbnails, dialogs, confirmations and the comparison window. Also the catch-all error dialogs and the ImportError exit.
- Threading: `find_pairs` runs on a worker thread; its progress callback updates the widgets from that thread; the result and errors go back through `root.after`. The model runs it sequentially, with no change to the files during the run.
- The image decoder and `imagehash.dhash`. They are the oracle `decode`, which gives a 256-bit fingerprint or none. The model fixes only the Hamming distance that `ImageHash` subtraction computes.
- Floating point: `get_file_size` and the progress percentage.
- The configuration file, and JSON text. The backup log is a datatype value stored as a file's content. Folders, and every record's `old_path` and `new_path`, are stored as `Path` values, not the `str()` the program writes.
- The clock: the file-name stamp and the ISO timestamp are parameters, as two separate readings.
- A log with missing keys (a KeyError, reported by the catch-all dialog). A readable file that is not a backup log is `LoadFailed` as a whole.
- Directory renames: renaming a folder is reported as IsADirectory rather than moving its subtree. Symbolic links and special files are not modelled.
- Windows rename semantics (FileExistsError on an existing target) and case-insensitive filesystems. The model follows POSIX.
- OS refusals of renames and writes (permissions, another device, a full disk) are a fixed oracle of the `Os` value. They do not depend on the time of the call.
- `Paths.Lower`: ASCII letters only, not Unicode `str.lower()`. For membership in the extension sets the two agree: the only non-ASCII character that lowers to an ASCII letter is the Kelvin sign, giving `k`, and no extension contains `k`.
- `Paths.SuffixOf`: pathlib's `suffix` as of Python 3.8 to 3.13.
- `Storage.RenameStep`: a missing target folder and a target folder that is a file are both reported as NoSuchFile. The OS reports ENOTDIR for the second.
- `Storage.WriteStep`: a write the OS refuses leaves the tree unchanged. In the program, a failure after `open(p, 'w')` (a full disk, a path `json.dump` cannot encode) leaves the log file truncated or partly written, and a log of the same second is lost.
- `Storage.Describe`: the `str(e)` texts omit the file names that Python adds after the message.
- `Renamer.FileRenamerCore.ScanFiles`: the order `iterdir()` yields is a parameter. The requires clause assumes that listing an existing folder succeeds and lists each entry once. A folder the program cannot read raises PermissionError after both lists were reset (and, for the JPG folder, after the RAW list was filled); the model has no such outcome, and `ScanFiles` takes no `Os`.
- `Renamer.FileRenamerCore.FindPairs`: the callback is always made and the events are returned. The program skips the calls when no callback is given.
- `Renamer.FileRenamerCore.ExecuteRename`: when the log cannot be written, `execute_rename` raises and its success count is lost. The model returns `LogWriteFailed` with the error.
- `Renamer.FileRenamerCore.GenerateRenamePlan`: models the planner as written. The corrected planner is the function `Planning.PlanForDistinct`; no method runs it, because the program has no such loop.
- `Backup.MessageLines`: the line layout is stated for error texts without a newline of their own. A file name or an OS message with a newline would split into more lines.

## Findings

| source | as written | input that shows it | evidently intended | confidence | as-written member | corrected member |
|---|---|---|---|---|---|---|
| renamerV4.py:125-139 | `generate_rename_plan` checks each target against the disk, never against targets already in the plan | `/raw/IMG_1.CR2` and `/raw/IMG_2.CR2` are both closest to `/jpg/W.jpg`. Both are planned onto `/raw/W.CR2`. Both renames succeed, the second replaces the first file, and restore brings back only one file, holding the second file's data | skip a pair whose target an earlier plan entry already has, so that no rename overwrites a file and restore undoes every rename | not executed | `Backup.SharedTargetLosesFile` | `Planning.PlanForDistinct` |
