# Batch File Renamer: a Dafny model of the renaming core

Batch File Renamer renames many files at once. The user picks a directory and one of
eight naming modes: prefix, suffix, replace, number sequence, change case, date and
time, remove characters or insert text. `renamer/patterns.py` also has a ninth
transformer, `truncate_name`, which the GUI does not offer as a mode; the model makes
it available to preview_rename as `Core.Mode.Truncate`. The engine previews the new
names, making each one avoid existing files, then executes the renames. Each executed batch is recorded
in a history file, and the most recent batch can be undone.

This project models that core in Dafny and proves properties of the model:

- `pathname.dfy` (module `PathName`): how pathlib splits a name into stem and
  extension (`suffix` in pathlib).
- `numerals.dfy` (module `Numerals`): `str()` of an integer and `str.zfill`, with a
  reader that parses a numeral back.
- `text.dfy` (module `Text`): the `str` operations the modes use:
  - `replace`;
  - deleting characters;
  - ASCII case mapping;
  - Python's slice bounds.
- `patterns.dfy` (module `Patterns`): the nine name transformers of
  `renamer/patterns.py`, as pure functions with lemmas about their results.
- `filesystem.dfy` (module `FileSystem`):
  - a path is a directory and a name;
  - the filesystem is a `Disk` object whose set of existing paths the rename
    operation changes;
  - a sequence of rename attempts is described by the moves tried and, for each,
    whether it succeeded.
- `core.dfy` (module `Core`): the class `FileRenamer` of `renamer/core.py` with its
  history, file discovery, conflict resolution, preview, execute and undo, and the
  number-mode preview loop of the GUI.

`Disk.Rename` may fail for any reason (permissions, a vanished source, the host
refusing to overwrite). It can succeed only when the source exists. Execute and undo
return, as ghost results, whether each attempt succeeded. Their postconditions tie
the new disk contents, the error list and the history to functions of those
outcomes. The round trip (execute a batch, then undo it) is proved over those
functions and used by the client method `ExecuteThenUndo`.

Where the design and the code differ, the model follows the code:

- The design says no two files of a preview get the same target. The code checks
  each target only against the disk, so two files can be sent to one path; see
  Findings.
- The design says a taken `x_1.txt` resolves to `x_2.txt`. The code appends the
  counter to the proposed stem, which gives `x_1_1.txt`
  (`Core.ResolveCountsOnProposedStem`).
- The design caps the conflict-resolution loop and raises an error when the cap is
  exceeded. The code has no cap; the model proves that the loop ends because only
  finitely many paths exist.
- The design says recording a batch cuts the history to its newest 50 entries. The
  code appends to the in-memory history without cutting it (renamer/core.py:72);
  only the copy written to the history file is cut to 50 (renamer/core.py:142), and
  a load cuts what it reads (renamer/core.py:135). The model's `ExecuteRename`
  appends without cutting.
- The design says a missing history file gives an empty history. The code leaves
  the history as it was. At construction that is the empty history, so the two
  agree there.

## Model

| member | source | states |
|---|---|---|
| PathName.Extension | renamer/patterns.py:37 | pathlib's suffix is non-empty exactly when the last dot is neither the first nor the last character; then it is a dot followed by non-dot characters |
| PathName.Stem | renamer/patterns.py:36 | stem followed by extension is the whole name, and the stem is empty only for the empty name |
| PathName.SplitJoin | renamer/patterns.py:36-38 | a non-empty stem glued to a well-formed extension splits back into the same stem and extension |
| Numerals.Decimal | renamer/patterns.py:100 | str() of a non-negative integer is a non-empty digit string that reads back as the integer |
| Numerals.DecimalCanonical | renamer/patterns.py:100 | str() writes no leading zero: the first digit is '0' exactly for 0, whose form is the single digit "0" |
| Numerals.DecimalInjective | renamer/core.py:123 | different counters give different decimal strings |
| Numerals.IntToString | renamer/patterns.py:100 | definition of str() of any integer: a minus sign and the decimal digits of -n for a negative n, the decimal digits otherwise; never empty |
| Numerals.ZFill | renamer/patterns.py:100 | definition of str.zfill(width): zeros go after a leading sign, up to `width` characters; the result is exactly max(width, len(s)) long |
| Numerals.PaddedNumeral | renamer/patterns.py:99-100 | str(n).zfill(width) is a numeral (optional minus sign, then digits) that reads back as n, has length max(width, len(str(n))), and starts with '-' exactly when n is negative |
| Text.Replace | renamer/patterns.py:68 | definition of str.replace: an empty pattern interleaves the replacement with the characters; a non-empty one is found and replaced scanning left to right, each match skipped over as a whole |
| Text.ReplaceAbsent | renamer/patterns.py:67-68 | with no occurrence of a non-empty pattern, str.replace returns the name unchanged |
| Text.ReplaceWithItself | renamer/patterns.py:67-68 | replacing a pattern by itself changes nothing, the empty pattern included |
| Text.ReplaceCharRoundTrip | renamer/patterns.py:67-68 | replacing x by a character y absent from the name and then y by x restores the name |
| Text.ReplaceCharByNothing | renamer/patterns.py:203 | s.replace(c, "") deletes every c and keeps every other character in order |
| Text.LowerIdempotent | renamer/patterns.py:125-128 | lower-casing twice is lower-casing once |
| Text.UpperIdempotent | renamer/patterns.py:129-130 | upper-casing twice is upper-casing once |
| Text.TitleIdempotent | renamer/patterns.py:131-132 | title-casing twice is title-casing once |
| Text.CapitalizeIdempotent | renamer/patterns.py:133-135 | capitalizing twice is capitalizing once |
| Patterns.AddPrefix | renamer/patterns.py:11-22 | the result is the prefix followed by the whole old name: its first characters are the prefix and the rest is the name |
| Patterns.PrefixKeepsExtension | renamer/patterns.py:22 | for a name with an extension the prefix joins the stem and the extension is unchanged |
| Patterns.AddSuffix | renamer/patterns.py:25-38 | the suffix adds its length; an empty suffix gives back the name; a name without an extension simply gets the suffix appended |
| Patterns.SuffixGoesBeforeExtension | renamer/patterns.py:36-38 | the new stem is the old stem followed by the suffix and the extension is the old one |
| Patterns.ReplaceText | renamer/patterns.py:61-68 | literal case-sensitive replace: unchanged when the pattern does not occur or equals its replacement; an empty pattern adds one copy of the replacement per character plus one (the layout is `Patterns.ReplaceEmptyPattern`) |
| Patterns.ReplaceEmptyPattern | renamer/patterns.py:67-68 | with an empty pattern, block i of the result is the replacement followed by the name's character i, and one more replacement ends it |
| Text.InterleaveLayout | renamer/patterns.py:67-68 | str.replace with an empty pattern puts the replacement before every character and once at the end |
| Patterns.NumberSequence | renamer/patterns.py:99-107 | definition of number_sequence: the prefix, str(start + index).zfill(digits), then "_" with the stem and the extension when keep_original is set, or the extension alone; its meaning is stated by `Patterns.NumberSequenceShape` |
| Patterns.NumberSequenceShape | renamer/patterns.py:99-107 | the name is the prefix, then a numeral that reads back as start + index, is exactly as long as zfill makes it (`digits`, or the length of str(start + index) when that is longer) and carries a minus sign exactly when start + index is negative, then "_" and the old name or just the old extension; an old extension is kept |
| Patterns.NumberedUnsigned | renamer/patterns.py:100 | a counter that is not negative is written with digits only, and the counter 0 with zeros only |
| Patterns.NumberSequenceZeroExample | renamer/patterns.py:99-107 | start 0, 3 digits, prefix "p": the first file "a.txt" becomes "p000.txt" |
| Patterns.NumberSequenceExample | renamer/patterns.py:99-107 | start 1, 3 digits, prefix "file_": the first file "a.txt" becomes "file_001.txt" |
| Patterns.NumberSequenceSecondExample | renamer/patterns.py:99-107 | the second file "b.jpg" of the same batch becomes "file_002.jpg" |
| Patterns.CaseMapped | renamer/patterns.py:127-137 | "lower", "upper", "title" and "sentence" map the stem by str.lower, str.upper, str.title and str.capitalize; any other case_type leaves it unchanged; every mapping keeps the stem's length and the positions of its dots |
| Patterns.CaseMappedLetters | renamer/patterns.py:127-137 | only the case of letters changes; after "lower" no letter is upper-case, after "upper" none is lower-case, "title" upper-cases each letter that follows a non-letter and lower-cases the others, "sentence" upper-cases the first character and lower-cases the rest |
| Patterns.CaseMappedIdempotent | renamer/patterns.py:127-137 | every case_type, unknown ones included, is idempotent on the stem |
| Patterns.ChangeCase | renamer/patterns.py:124-139 | the new name has the old name's length |
| Patterns.ChangeCaseSplit | renamer/patterns.py:124-139 | the new stem is the mapped old stem and the new extension is the lower-cased old extension, and an extension exists exactly when one existed before |
| Patterns.ChangeCaseIdempotent | renamer/patterns.py:124-139 | changing case twice in one mode is changing it once |
| Patterns.DateTimeName | renamer/patterns.py:171-177 | definition of the name assembly of date_time_name, with the formatted date as a parameter; its meaning is stated by `Patterns.DateTimeNameShape` |
| Patterns.DateTimeNameShape | renamer/patterns.py:171-177 | the name is prefix, date, optionally "_" and the old stem, suffix, then the old extension, which it keeps whenever something stands before it |
| Patterns.RemoveEach | renamer/patterns.py:210-212 | definition of the loop over custom_chars as a left fold: each character in turn is replaced by nothing; `Patterns.RemoveEachIsFilter` states what it amounts to |
| Patterns.RemoveCharacters | renamer/patterns.py:198-214 | remove_characters: the stem goes through the space, special-class and custom stages and the extension is put back; the result is never longer than the name; `Patterns.RemoveCharactersGuarantees` states the rest |
| Patterns.RemoveEachIsFilter | renamer/patterns.py:210-212 | the loop over custom_chars deletes exactly the listed characters |
| Patterns.RemoveCharactersIsFilter | renamer/patterns.py:198-214 | the three stages (spaces, special class, custom characters) amount to one filter of the stem |
| Patterns.RemoveCharactersGuarantees | renamer/patterns.py:198-214 | the extension is kept; the new stem is a subsequence of the old one with no space, only kept special characters and no custom character, as each option demands; every character that passes all stages survives |
| Patterns.InsertText | renamer/patterns.py:217-245 | the result is as long as the name and the text together |
| Patterns.InsertTextPlacement | renamer/patterns.py:233-245 | the text sits at the insertion point (negative positions count from the end of the stem) and cutting it out gives back the old name; position 0 puts it before the whole name, -1 before the extension |
| Patterns.TruncateName | renamer/patterns.py:264-268 | a stem no longer than max_length leaves the name unchanged; the name never grows |
| Patterns.TruncateKeepsEnds | renamer/patterns.py:264-275 | for 0 < max_length < stem length the new stem is the first or the last max_length characters and the extension is kept |
| Patterns.TruncateZeroFromEnd | renamer/patterns.py:273 | `stem[-0:]` is the whole stem, so max_length 0 from the end keeps the name |
| Patterns.TruncateIdempotent | renamer/patterns.py:264-275 | truncating twice to the same positive limit is truncating once |
| FileSystem.Moved | renamer/core.py:61 | after a successful rename the target exists, the source is gone unless it is the target, and no other path changed |
| FileSystem.DirectoryPath | renamer/core.py:117-119 | a directory written with a '/' is its parent, a '/', and its name; one written without is the name in "."; the name holds no '/' |
| FileSystem.Join | renamer/core.py:38 | `parent / name` is the name in that directory for a non-empty name, and the directory itself, named from its own parent, for an empty one |
| FileSystem.Disk.Rename | renamer/core.py:61 | a rename succeeds only if the source exists, and then moves it; a failed rename changes nothing |
| FileSystem.ApplyMoves | renamer/core.py:59-66 | definition of the disk after a sequence of rename attempts: each successful attempt moves its source to its target, each failed one changes nothing |
| FileSystem.Inverse | renamer/core.py:86-92 | definition of the moves undo performs: the batch's moves in reverse order, each from its target back to its source; as many as the batch has |
| FileSystem.Succeeded | renamer/core.py:62-66 | as many moves are recorded as attempts succeeded |
| FileSystem.SucceededFromPlan | renamer/core.py:62-66 | every recorded move is a move of the plan, and every successful move is recorded |
| FileSystem.InverseSwaps | renamer/core.py:86-92 | the undo moves go from the batch's targets back to its sources, and distinct targets become distinct sources |
| FileSystem.AllMovesSucceed | renamer/core.py:59-66 | moves with distinct existing sources that are never targets can all succeed; afterwards the sources are gone and the targets exist |
| FileSystem.RoundTripFiles | renamer/core.py:59-66 | a batch with distinct existing sources and distinct free targets, renamed and then renamed back in reverse order, restores the set of files |
| Core.OnlyFiles | renamer/core.py:26 | a path is kept exactly when the listing marks it as a regular file |
| Core.OnlyFilesAppend | renamer/core.py:26 | the filter keeps listing order: filtering two parts of a listing gives the two filtered parts one after the other |
| Core.OnlyFilesSingle | renamer/core.py:26 | a single entry gives its path once when it is a regular file, and nothing otherwise |
| Core.GetFiles | renamer/core.py:15-26 | a missing directory is an error naming it; otherwise the result is the listing narrowed to its regular files, in listing order (`Core.OnlyFiles` and the two lemmas after it) |
| Core.Propose | renamer/core.py:37 | definition of `rename_func(file_path, **kwargs)`: the name the chosen mode's transformer proposes for the file's name |
| Core.Candidate | renamer/core.py:123-124 | definition of the k-th conflict candidate: `stem_k` followed by the suffix, in the proposed path's directory |
| Core.CandidateInjective | renamer/core.py:123-124 | different counters give different candidate paths |
| Core.CandidatesWithin | renamer/core.py:122-125 | at most as many consecutive candidates can be taken as there are existing paths, so the loop ends |
| Core.FreeCounter | renamer/core.py:120-125 | the counter found is the first one, from the start value on, whose candidate is free or is the file itself |
| Core.Resolve | renamer/core.py:110-127 | the resolved path is the file itself or does not exist; a free or unchanged proposal is kept; the proposed path's directory is kept |
| Core.ResolveIsFirstFree | renamer/core.py:120-127 | for a taken proposal the result is candidate n exactly when candidate n is free and all earlier candidates are taken |
| Core.ResolveCountsOnProposedStem | renamer/core.py:117-124 | with "x.txt" and "x_1.txt" present, proposing "x_1.txt" for "x.txt" gives "x_1_1.txt" |
| Core.PreviewCollision | renamer/core.py:35-44 | the preview of two files truncated to the same free name sends both to it, so its targets are not distinct; both renames can succeed, and afterwards one file is gone |
| Core.PreviewCollisionRemove | renamer/core.py:35-44 | as the code is written, removing the custom character 'x' sends both `ax.txt` and `xa.txt` to the free `a.txt`; executing that plan leaves one file |
| Core.IndexedPlan | renamer/core.py:35-44 | definition of what preview_rename returns: one pair per file, in order, file i going to the resolved join of the name proposed for it at index i; the plan is as long as the file list |
| Core.IndexedPlanEntries | renamer/core.py:35-44 | entry i of a preview renames file i to the resolved path for its proposed name joined to its directory, which is the file itself or does not exist, and which is in the file's directory when the proposed name is not empty |
| Core.PreviewEmptyName | renamer/core.py:37-40 | as the code is written, replacing the whole name `a.txt` of `d/sub/a.txt` by nothing sends the file to `d/sub_1`, outside its directory, and that move can succeed |
| Core.SafeTarget | renamer/core.py:37-40 | the corrected target: an empty proposed name keeps the file where it is; otherwise the name is resolved in the file's directory; the target is in that directory and is the file itself or not taken |
| Core.PreviewEmptyNameRefused | renamer/core.py:37-40 | the corrected preview leaves `d/sub/a.txt` in place for the same empty name |
| Core.DistinctPlan | renamer/core.py:35-44 | definition of the corrected preview: like the indexed preview, but each target is resolved against the existing paths together with the targets already given to earlier files, and an empty name is refused; as long as the file list |
| Core.DistinctPlanProperties | renamer/core.py:35-44 | the corrected preview of distinct existing files sends each file into its own directory, whatever name is proposed, to itself or to a free path, and never two files to the same path |
| Core.Loaded | renamer/core.py:129-137 | the loaded history is the newest 50 stored batches at most, or empty when the file is missing or unreadable |
| Core.SaveOutcome | renamer/core.py:139-144 | definition of what a save leaves in the history file: the newest 50 batches when the write goes through; otherwise the old contents or, when the failure came after the file was opened for writing, an unreadable file |
| Core.HistoryStore.constructor | renamer/core.py:129-144 | the history file, as contents (absent, unreadable, or a list of batches) and whether it can be written, both as given |
| Core.SaveThenLoad | renamer/core.py:139-144 | what is saved is the newest 50 batches, and loading it gives exactly that back |
| Core.RenameErrors | renamer/core.py:68-69 | one error per failed attempt: errors and successes together number the moves |
| Core.RenameErrorsAreFailures | renamer/core.py:68-69 | every error reports a failed rename and names a source whose attempt failed |
| Core.UndoErrors | renamer/core.py:91-98 | one error per move not put back: errors and successes together number the moves |
| Core.UndoErrorsAreFailures | renamer/core.py:91-98 | every undo error is a missing or a failed file, named by a move that was not put back |
| Core.FileRenamer.constructor | renamer/core.py:10-13 | a new engine starts with the history loaded from the store |
| Core.FileRenamer.LoadHistory | renamer/core.py:129-137 | a missing file leaves the history unchanged; an unreadable one empties it; otherwise the newest 50 batches are loaded |
| Core.FileRenamer.SaveHistory | renamer/core.py:139-144 | a writable store receives the newest 50 batches; a failed write leaves the file as it was or, when it failed after the file was opened for writing, emptied and unreadable |
| Core.ReloadAfterSave | renamer/core.py:129-144 | after a save, loading gives the newest 50 batches when the write went through, and otherwise what the old file gave or an empty history |
| Core.FileRenamer.GetHistory | renamer/core.py:146-147 | `history[-limit:]`: the newest `limit` batches for a positive limit, all of them for 0, all but the oldest -limit for a negative limit |
| Core.FileRenamer.ClearHistory | renamer/core.py:149-151 | the history becomes empty and a writable store is overwritten with the empty history; a failed write leaves the file as it was or unreadable |
| Core.FileRenamer.ResolveConflict | renamer/core.py:110-127 | the loop returns exactly `Resolve` of the existing paths |
| Core.FileRenamer.PreviewRename | renamer/core.py:28-44 | the plan is the indexed preview of the proposed names; every target is the file itself or free on disk, and is in the file's directory when the proposed name is not empty |
| Core.FileRenamer.PreviewRenameDistinct | renamer/core.py:28-44 | the corrected preview: an empty proposed name is refused and each target is also kept clear of earlier targets, so for distinct existing files every target is in the file's directory and the targets are distinct |
| Core.FileRenamer.PreviewNumberRename | renamer/gui_i18n.py:682-688 | the number-mode preview is the indexed preview in which file i is named by number_sequence with index i |
| Core.FileRenamer.ExecuteRename | renamer/core.py:46-75 | every move is attempted in order; the disk is the result of the successful ones; the count and error list match the outcomes; a batch of the successful moves is recorded and saved only if saving is on and something succeeded |
| Core.FileRenamer.UndoLastOperation | renamer/core.py:77-108 | nothing to undo on an empty history; otherwise the last batch is put back newest first; it leaves the history (and the store is rewritten) only if at least one move was put back, and the result reports the count and the errors |
| Core.RenameAll | renamer/core.py:59-69 | the loop of execute_rename: disk, success count, errors and recorded moves as functions of the attempt outcomes |
| Core.RenameBack | renamer/core.py:86-98 | the loop of undo_last_operation: disk, success count and errors of putting the inverse moves back, a missing file being reported without an attempt |
| Core.ExecuteThenUndo | renamer/core.py:46-108 | when every rename of a batch with distinct existing sources and distinct free targets succeeds, and so does its undo, the files and the history are as before |

## Left out

- The regular-expression branch of replace_text (renamer/patterns.py:63-65) and its case-insensitive literal branch (renamer/patterns.py:70-72): both need Python's regex engine.
- Patterns.ChangeCase: maps ASCII letters only. Python's `lower`, `upper`, `title` and `capitalize` follow the Unicode case rules (non-ASCII letters, titlecase characters, expansions such as "ß" to "SS"), which are not modelled.
- Patterns.RemoveCharacters: the regex class `\w` is the parameter `isWord`; the CJK range U+4E00 to U+9FFF and '-' are written out.
- Patterns.ReplaceText: its contract and `Patterns.ReplaceEmptyPattern` state the cases above and the empty-pattern layout, not the whole left-to-right scan of a non-empty pattern; that scan is the definition `Text.Replace`, and the round-trip and deletion lemmas about it are stated in `Text`.
- date_time_name: reading the modification or creation time (`stat`) and formatting it with `strftime` are not modelled. The formatted date is a string parameter (`dateOf` in the date-time mode).
- get_files: matching the glob pattern and walking subdirectories (`glob`, `rglob`) are not modelled. The directory listing is a parameter, and only the narrowing to regular files is modelled.
- The history file's location in the home directory and its JSON encoding are not modelled. A file that parses but does not hold a list of batches is treated as unreadable.
- The texts of messages and exceptions are left out. Errors carry the file name and their kind (`FileError`), and the undo result carries the count and the errors (`UndoResult`).
- `datetime.now()`: the batch timestamp is a parameter of `ExecuteRename`.
- The host's rename semantics are left out (replacing an existing target on POSIX, refusing to on Windows, cross-device moves). A successful rename replaces the target; any attempt may fail.
- Paths are a directory and a name, and the set of existing paths holds directories as well as files. Normalisation, relative components, the root directory, "." as a directory to split and a proposed name that itself contains a separator are not modelled.
- Core.FileRenamer.SaveHistory: whether the store can be written is fixed when the store is made, so a write that fails once and goes through later is not represented.
- History records hold paths, not the strings `str(path)`.
- Core.FileRenamer.ExecuteRename: which attempts succeed is decided by the environment, so the outcomes are ghost results and are not reported to the caller.
- Core.FileRenamer.UndoLastOperation: same as ExecuteRename; the outcomes are ghost results.
- The GUI and its translations, apart from the number-mode preview loop (renamer/gui_i18n.py:682-688), are not modelled.
- Concurrent changes to the directory by other programs are not modelled.

## Findings

| source | as written | input that shows it | evidently intended | confidence | as-written member | corrected member |
|---|---|---|---|---|---|---|
| renamer/core.py:35-44 | preview_rename resolves each proposed path against the disk only. Targets already given to earlier files of the same preview are not taken into account, so two files can be sent to one path, and executing the plan replaces the first renamed file with the second | files `d/ab.txt` and `d/ac.txt`, mode truncate with max_length 1 from the start: both are sent to `d/a.txt`, both renames can succeed, and only `d/a.txt` remains; through the GUI, files `d/ax.txt` and `d/xa.txt` with the custom character `x` removed end the same way (`Core.PreviewCollisionRemove`) | no two files of a preview share a target, as the design's collision-freedom promise says | not executed | Core.PreviewCollision | Core.DistinctPlanProperties |
| renamer/core.py:37-40 | an empty proposed name is joined to the file's directory as that directory itself (`parent / ""`). It exists, so _resolve_conflict counts on the directory's own name in its parent, and the file is moved out of its directory | file `d/sub/a.txt` with the directory `d/sub` present, replace mode finding `a.txt` and putting nothing in its place: the target is `d/sub_1` (`Core.PreviewEmptyName`) | every target stays in the file's directory, so an empty name is refused and the file is left in place (`Core.PreviewEmptyNameRefused`) | not executed | Core.PreviewEmptyName | Core.DistinctPlanProperties |
