# pyTIrom in Dafny

pyTIrom builds full TI-99/4A ROM images for emulators. `createRom` in
createImage.py lays out one image from a cartridge's C, D and G ROM files,
the system GROM (`994AGROM-EP.Bin`), the system ROM (`994aROM.Bin`) and the
two filler files `hole8k` and `hole32k`. convertArchive.py is a batch
driver. It splits a directory of cartridge dumps into groups by cartridge
name and calls `createRom` once per group.

The model has five modules:

- `StringOrder` (string_order.dfy): Python's `<` on `str` and `sorted(set(xs))`.
- `PyText` (py_text.dfy): `str.find`, slicing with Python's index rules and
  POSIX `os.path.join`.
- `CreateImage` (create_image.dfy): `createRom` itself. It builds the memory
  map in place, runs the missing-file loop, and writes the image block by
  block and slot by slot, with the padding counter. Each loop is a method
  proved against a function. `RomOutcome` is the result as a value: the
  return code, the missing list and the file system afterwards.
- `ImageProperties` (image_properties.dfy): what that layout guarantees.
  This covers where padding goes, when a block is exactly 64 KiB, which
  files are checked, and the all-or-nothing rule.
- `ConvertArchive` (convert_archive.dfy): the batch driver. It covers
  exclusion of `[a]`/`[o]` dumps, cartridge names, the grouping dictionary,
  the choice of the C/D/G file per group, and the calls made in sorted name
  order. Each call works on the file system the previous one left behind.
  The model also keeps the converted count and the sticky first exit code.

The file system is a map from path to contents. `os.path.isfile(p)` holds
when `p` is a key, and `os.path.getsize(p)` is the length of its contents.
Writing the image sets the output path to the bytes written. The glob
result of convertArchive.py is a parameter of `RunBatch`.

Behaviour of the code worth knowing:

- Padding is copies of `hole8k` written at a block's first empty slot, not
  zero bytes at the end of the block. Each block has a counter
  that starts at 8 clusters of 8 KiB, and every copied file lowers it by
  `size // 8192`. At the first empty slot, if the counter is still positive,
  the code writes that many copies of the file `hole8k` and sets the counter
  to 0. Later empty slots add nothing, and files after the padding still
  follow it. So with an empty C slot and a filled D slot, eight clusters of
  padding come before D (`ImageProperties.PaddingBeforeD`). A counter that
  goes negative pads nothing; it is not an error.
- The glob result is not sorted. Only the group names are visited in sorted
  order. The files inside a group keep the glob's listing order, and the
  last C, D or G file in that order wins.
- The code has no naming-scheme table, simulate mode or listing export,
  and checks the type tag only as `f[-1] == 'C'` (and `'D'`, `'G'`).
- `hole32k` stays in the G slot only when `None` is passed as the G
  argument, as the command line of createImage.py does when `--Grom` is
  omitted. The function's own default for `stGrom` is `''`, which replaces
  `hole32k` by `os.path.join(romPath, '')`: `''`, or `romPath` with a '/'.
  The batch passes `''` for a missing role and no ROM path, so a group
  without a G file leaves that slot empty (`ConvertArchive.CallSlots`). The
  batch also passes no `romPath`, so the system ROMs are not looked up
  under the ROM directory unless `--systemromPath` is given.
- The cartridge name starts at `len(romPath) + 1`. glob splits its pattern
  with `os.path.split`, which strips the trailing slashes of the directory
  (unless it is slashes only), and joins that directory onto each match.
  So when `romPath` ends in a single '/', every name loses its first
  character, and in general one character per trailing '/'; a path of
  slashes only loses one (`ConvertArchive.StartOffsetVsPrefix`,
  `ConvertArchive.NameUnderTrailingSlash`, `ConvertArchive.DoubleSlashExample`).

## Model

| member | source | states |
|---|---|---|
| StringOrder.BelowIrreflexive | createImage.py:37 | no string sorts before itself |
| StringOrder.BelowTransitive | createImage.py:37 | string order is transitive |
| StringOrder.BelowTotal | createImage.py:37 | of two different strings, one sorts before the other |
| StringOrder.BelowAsymmetric | createImage.py:37 | no two strings each sort before the other |
| StringOrder.SortedSet | createImage.py:37 | `sorted(set(xs))` is strictly increasing and holds exactly the elements of `xs` |
| StringOrder.SortedUnique | convertArchive.py:55 | two strictly increasing lists with the same elements are equal, so `sorted` of a set is unique |
| PyText.FindFrom | convertArchive.py:41-42 | `find` gives -1 exactly when the pattern occurs nowhere from the start index, and otherwise the first index where it occurs |
| PyText.FindIsFirstOccurrence | convertArchive.py:41-42 | `find(pat) == -1` iff `pat` is not a substring; otherwise the result is its first occurrence |
| PyText.SliceBound | convertArchive.py:44-47 | a slice index counts from the end when negative and is clamped into the string: to its length above it, to 0 below its start |
| PyText.JoinFacts | createImage.py:25-32 | joining onto an empty directory gives the name itself; the join is empty only when both parts are; otherwise a '/' separates the parts unless one is already there |
| CreateImage.BuildMemoryMap | createImage.py:20-32 | the slot updates in place give the memory map of the arguments: system files under `systemromPath` (falling back to `romPath`), C/D/G joined onto `romPath` when given, the defaults otherwise |
| CreateImage.FilledSlots | createImage.py:37 | the non-empty slots of a block and no others |
| CreateImage.Entries | createImage.py:37 | the comprehension holds every non-empty slot of the map, and only those |
| CreateImage.MissingFrom | createImage.py:36-43 | the missing list holds exactly the checked paths that are not files |
| CreateImage.FindMissing | createImage.py:36-43 | the missing-file loop appends, in checking order, each checked path that is not a file |
| CreateImage.AppendPadding | createImage.py:67-69 | the fill loop appends `n` copies of `hole8k`'s contents |
| CreateImage.AppendBlock | createImage.py:50-70 | one block's slot loop, with its counter starting at 8, appends exactly the bytes the layout function gives for the block |
| CreateImage.WriteImage | createImage.py:48-70 | the block loop writes the blocks' bytes in map order |
| CreateImage.ReadableWhenNoneMissing | createImage.py:36-55 | when the check finds nothing missing, every file the writer opens exists, `hole8k` included |
| CreateImage.OnlyOutputWritten | createImage.py:46-48 | `createRom` changes no path other than its output file |
| CreateImage.CreateRom | createImage.py:19-86 | the return code is 0 or 66 and, with the missing list and the new file system, matches `RomOutcome`: 0 with the image written at the output path when nothing is missing, otherwise 66, the missing files and no change |
| ImageProperties.RepeatLength | createImage.py:67-69 | `n` copies of a file are `n` times its length |
| ImageProperties.SpentCounterPadsNothing | createImage.py:63-70 | once the counter is 0 or below, the rest of the block is its files alone |
| ImageProperties.FullSlotsPadNothing | createImage.py:51-63 | a block without empty slots gets no padding |
| ImageProperties.PaddingAtFirstEmpty | createImage.py:50-70 | a block is its files before the first empty slot, then `max(0, counter - their clusters)` copies of `hole8k`, then its files after that slot |
| ImageProperties.WholeClustersLength | createImage.py:60-63 | files whose sizes are whole clusters take off the counter exactly their length in clusters |
| ImageProperties.EmptySlotsImage | createImage.py:64-70 | empty slots after the counter is spent write nothing |
| ImageProperties.FullBlock | createImage.py:49-70 | whole-cluster files within 64 KiB before the first empty slot, and none after it, give a block of exactly 64 KiB |
| ImageProperties.PaddingBeforeD | createImage.py:49-70 | with the C slot empty and the D slot filled, block 0 is eight copies of `hole8k` followed by D |
| ImageProperties.RoleSlots | createImage.py:27-32 | a role given as `None` keeps its default slot (empty for C and D, `hole32k` for G); a given name is joined onto `romPath`, and the empty name stays empty exactly when `romPath` is empty |
| ImageProperties.SystemSlots | createImage.py:21-26 | the system GROM and ROM are looked up under `systemromPath`, else under `romPath`, else by bare name |
| ImageProperties.CheckedFiles | createImage.py:37 | the checked files are the distinct non-empty slots in sorted order, and always include `hole8k` and `hole32k` |
| ImageProperties.MissingExact | createImage.py:36-43 | the missing list holds each non-empty slot that is not a file, once, in sorted order |
| ImageProperties.MissingKeepsOrder | createImage.py:36-43 | the missing list is in the order of the checked list, so it is sorted |
| ImageProperties.AllOrNothing | createImage.py:46-86 | the code is 66 iff some slot names no file; then the missing list is exactly those paths, sorted, and nothing is written; on 0 every input was readable and only the image at the output path is added |
| ImageProperties.CartridgeBlockFull | createImage.py:49-70 | block 0 is 64 KiB unless an empty C slot comes before a filled D slot |
| ImageProperties.FilledPrefixBlockFull | createImage.py:49-70 | a block whose filled slots come first and fit in 64 KiB is exactly 64 KiB |
| ImageProperties.StandardImageSize | createImage.py:20-70 | with whole-cluster inputs that fit their blocks, a one-cluster `hole8k`, a filled G slot and no empty C before a filled D, the image is 3 × 64 KiB |
| ImageProperties.ImageOfBlocks | createImage.py:49-51 | the image is block 0, block 1 and block 2 in that order, so a change inside one block leaves the other blocks' contents unchanged (a longer block moves the ones after it) |
| ConvertArchive.StartOffsetVsPrefix | convertArchive.py:34-38 | the name offset is the length of glob's directory prefix plus the characters it overshoots: none exactly when the ROM path does not end in '/', else one per trailing '/' (one for a path of slashes only) |
| ConvertArchive.ExcludedIffMarker | convertArchive.py:41 | a file is skipped exactly when its name contains `[a]` or `[o]` |
| ConvertArchive.NameEndsAtParen | convertArchive.py:42-44 | with " (" present, the name runs from the start offset to the first occurrence of " (" |
| ConvertArchive.FallbackName | convertArchive.py:45-47 | without " (", the name drops the last two characters |
| ConvertArchive.NameOfStandardFile | convertArchive.py:34-44 | `<dir>/Name (…)` is grouped under `Name` when the ROM path does not end in '/' and neither the directory nor the name contains " (" |
| ConvertArchive.NameUnderTrailingSlash | convertArchive.py:34-44 | under any ROM path, the file glob lists as `<dir>/Name (…)` is grouped under `Name` without the characters the offset overshoots |
| ConvertArchive.DoubleSlashExample | convertArchive.py:34-44 | under `r//` glob lists `r/Foo (1).C`, and that file is grouped under `o` |
| ConvertArchive.NameOfPlainFile | convertArchive.py:45-47 | `<dir>/Stem.X` without " (", under a ROM path not ending in '/', is grouped under `Stem` |
| ConvertArchive.Members | convertArchive.py:39-52 | a group holds exactly the listed, non-excluded files carrying its name |
| ConvertArchive.MembersEmpty | convertArchive.py:49-52 | a group is empty exactly when no listed file carries its name |
| ConvertArchive.AddFile | convertArchive.py:41-52 | one pass adds a non-excluded file to the list of its name, creating the key at the end on first sight, and keeps the dictionary equal to the grouping of the files seen |
| ConvertArchive.FirstSeenNamed | convertArchive.py:40-52 | a name is among the first-seen names exactly when some non-excluded file carries it |
| ConvertArchive.FirstSeenOrder | convertArchive.py:40-52 | of two first-seen names, the earlier one is carried by a file listed before every file carrying the later one |
| ConvertArchive.GroupFiles | convertArchive.py:39-52 | the dictionary's keys are distinct and are the names of non-excluded files in the order they first appear; each maps to its files in listing order |
| ConvertArchive.LastEndingInIsLast | convertArchive.py:56-62 | the choice for a letter is "" iff no file ends in it; otherwise it is a file ending in it with no later one ending in it |
| ConvertArchive.PickRoms | convertArchive.py:56-62 | the selection loop picks, for C, D and G, the last file ending in that letter, or "" |
| ConvertArchive.CallSlots | convertArchive.py:56-64 | a batch call puts the chosen files into the C, D and G slots unchanged, and the G slot is empty exactly when the group has no G file |
| ConvertArchive.RunCallsCodes | convertArchive.py:64 | every call yields one code, and each code is 0 or 66 |
| ConvertArchive.RunCallsFrame | convertArchive.py:64 | a batch leaves every path that is no call's output as it was |
| ConvertArchive.CountZeroCounts | convertArchive.py:53-66 | the converted count is the number of zero results |
| ConvertArchive.FirstNonzeroIsFirstFailure | convertArchive.py:54-68 | the exit code is 0 iff every build succeeded, and otherwise the result of the first failed build |
| ConvertArchive.BuildGroup | convertArchive.py:56-64 | one group is a `createRom` call on `<fullromPath>/<name>.bin` with the chosen files, run on the file system the earlier calls left |
| ConvertArchive.BuildAll | convertArchive.py:53-68 | the group loop makes one call per name in order, runs them one after another and keeps the count and the first failure code |
| ConvertArchive.RunBatch | convertArchive.py:29-68 | the names visited are strictly sorted and are exactly the cartridge names of non-excluded files; each call builds that name's group; the codes, file system, count and exit code are those of running the calls in order |

## Left out

- Printing: the verbose and check output, the missing-file report text, and the progress and warning messages.
- MD5 checksums (`fCheck`): they only print; nothing is decided on them.
- The command-line parsing in both `__main__` blocks: the flags are parameters of the model.
- `glob.glob` and its listing order: the file list is a parameter of `RunBatch`. Only the directory prefix glob puts on each match is modelled (`ConvertArchive.DirPrefix`); wildcard characters inside `romPath` are not.
- The `datetime` timing and `sys.exit`: the model returns the exit code.
- Failures of `open`: an output path that cannot be created (`''`, a directory, a missing directory) or an unreadable input. The model treats every path in the map as readable and every output as writable.
- An output path equal to one of the inputs: the model reads all inputs from the file system as it was before the output was written.
- Windows path joining: `os.path.join` is modelled with POSIX rules only.
- ConvertArchive.PickRoms: requires non-empty file names, because convertArchive.py indexes `f[-1]` and would raise on `''`; glob never lists an empty name.
