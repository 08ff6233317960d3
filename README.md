# DynamicSample processor store, in Dafny

This project models the core of DynamicSample, a Windows Forms sample that
recognises pictures with "maps" (processors, each a grid of int cell values
with a tag). The core is `ConcurrentProcessorStorage`, a store of maps read
from and saved to image files, and its two kinds:

- `RecognizeProcessorStorage` accepts pictures whose size lies in a range and
  selects a map when it replaces one.
- `ImageProcessorStorage` accepts pictures of one exact size and saves
  batches of maps.

The store keeps every map twice:

- in `DictionaryByKey`, under the lower-case form of its path;
- in `DictionaryByHash`, in a bucket (`ProcHash`) for its content hash.

It also keeps a selected path, a cached selected index and the
`LongOperationsAllowed` flag that another thread may clear to cancel a long
operation. Around the store sit the pure rules it uses:

- masking and de-masking of names (`ParseName`, `IntGetUniqueProcessor`);
- path tests;
- the content hashes (`CRCIntCalc` and `HashCreator`).

Beside the store sit the two tic-tac-toe boards of the sample form
(`GameSession` and `HitCreator`).

Layout, one module per file:

| file | module | what it holds |
|---|---|---|
| `wrappers.dfy` | `Wrappers` | `Option` and `Result` |
| `strings.dfy` | `Text` | lower-casing, blank tests, ulong parse and format |
| `paths.dfy` | `Paths` | the `System.IO.Path` calls the store makes, and the store's own path tests |
| `names.dfy` | `Names` | `ParseName`, `IntGetUniqueProcessor` |
| `processor.dfy` | `Processors` | the map: identity, cells, tag |
| `hash_creator.dfy` | `HashCreator` | table, byte stream, byte fold |
| `crc_int_calc.dfy` | `CrcIntCalc` | the per-cell hash that buckets the store |
| `ordered_dict.dfy` | `OrderedDict` | `Dictionary<string, V>` with its slot order and free list |
| `store_index.dfy` | `StoreIndex` | the two indices and the invariant that keeps them in step |
| `store_rules.dfy` | `StoreRules` | reading a file into a map; tags; `CheckImagePath` |
| `loading.dfy` | `Loading` | reading a list of files one after another |
| `processor_store.dfy` | `Storage` | the store as a class, and the lemmas about it |
| `tic_tac_toe.dfy` | `TicTacToe` | the winner rule and the colour-inverting copy |
| `game_session.dfy`, `hit_creator.dfy` | `Game`, `Hits` | the two boards as classes over 3x3 arrays |

How the model represents the source:

- The store is the class `Storage.ProcessorStorage`.
- The store's kind is a `Kind` value, so overrides become case splits.
- A thrown exception becomes an `Err` result.
- The model gives each map an identity `id`, because the source tells maps
  apart by reference.
- The file system and the pictures are parameters:
  - the directory listing;
  - a function from path to decoded picture.

## Model

| member | source | states |
|---|---|---|
| Names.ParseName | ConcurrentProcessorStorage.cs:436-448 | an empty name is an error; otherwise the result is `Demask(name)` |
| Names.Demask | ConcurrentProcessorStorage.cs:436-448 | the name is split at its last '!' after position 0 only when the rest reads as a ulong: the prefix is the name up to that '!', no later '!' exists, and the number is the parsed suffix; otherwise the result is the whole name with no number |
| Names.DemaskMasked | ConcurrentProcessorStorage.cs:436-448 | de-masking undoes masking: `base!k` reads back as `(k, base)` |
| Names.IntGetUniqueName | ConcurrentProcessorStorage.cs:472-503 | with no number hint, a name whose lower-case form is new is kept as it is; otherwise the result is `name!k` for the first k from the hint (or 0), wrapping at 2^64, whose lower-case form is not in the set; the set gains exactly that form; the result is an error, with the set unchanged, exactly when all 2^64 masks are taken |
| Names.ProbeNext | ConcurrentProcessorStorage.cs:488-497 | the probe counter wraps at 2^64 and is back at its start only after 2^64 steps |
| Names.TakenAfterFullCycle | ConcurrentProcessorStorage.cs:488-501 | once a whole cycle of probes is taken, every mask of the name is taken, so the error is reported only when no name is free |
| Text.ParseDecimalString | ConcurrentProcessorStorage.cs:488-496 | `ulong.TryParse` reads back what `ulong.ToString` wrote, so a masked suffix parses back to its number |
| Text.DecimalStringInjective | ConcurrentProcessorStorage.cs:488-496 | different numbers give different masks |
| Text.LowerIdempotent | ConcurrentProcessorStorage.cs:1299-1302 | lower-casing a key again changes nothing |
| Paths.AddEndingSlash | ConcurrentProcessorStorage.cs:677-686 | "" stays ""; a path that ends with a separator is kept; any other path gets '\' appended; the result always ends with a separator and starts with the path |
| Paths.AddEndingSlashIdempotent | ConcurrentProcessorStorage.cs:677-686 | adding the slash twice is adding it once |
| Paths.GetStringKeyIgnoresCase | ConcurrentProcessorStorage.cs:1299-1302 | two paths share a dictionary key exactly when they are equal ignoring case |
| Paths.ProcessorFileIsNotDirectory | ConcurrentProcessorStorage.cs:1282-1286 | a path with the store's extension is never taken for a directory |
| Paths.IsWorkingDirectory | ConcurrentProcessorStorage.cs:639-650 | the result is an error exactly for an empty path |
| Paths.TrailingSlashIrrelevant | ConcurrentProcessorStorage.cs:634-650 | whether either path ends with a separator does not change the answer |
| Paths.IsWorkingDirectoryEqualImpliesInside | ConcurrentProcessorStorage.cs:639-650 | a path equal to the working directory also lies inside it |
| Paths.FileInWorkingDirectory | ConcurrentProcessorStorage.cs:420-424 | a file created in the working directory lies in it |
| Paths.CreateImagePathName | ConcurrentProcessorStorage.cs:420-424 | the file name without extension of a created image path is the name it was made from |
| Paths.CreateImagePathExtension | ConcurrentProcessorStorage.cs:420-424 | the extension of a created image path is the store's |
| Paths.CreateImagePathIsProcessorFile | ConcurrentProcessorStorage.cs:1258-1262 | a created image path is a map file and not a directory |
| HashCreator.StepsOfByteBelow | HashCreator.cs:20-34 | eight shift/xor-0x31 steps from a byte stay below 2^16, so no table entry is negative |
| HashCreator.ComputeEntry | HashCreator.cs:24-32 | the inner loop computes `Table[k]`, that is k after eight steps |
| HashCreator.BuildTable | HashCreator.cs:20-34 | every one of the 256 entries is `TableEntry(k)` |
| HashCreator.IntBytesRoundTrip | HashCreator.cs:61-71 | the four `BitConverter` bytes of an int carry the whole int |
| HashCreator.GetProcessorBytesAt | HashCreator.cs:61-71 | byte n of the stream is byte n % 4 of value n / 4, so the stream is the values' bytes in input order |
| HashCreator.GetProcessorBytesAppend | HashCreator.cs:61-71 | each value adds exactly its own four bytes |
| HashCreator.FoldAppend | HashCreator.cs:45-49 | the fold over a concatenation continues from where the first part ended |
| HashCreator.GetHashRange | HashCreator.cs:45-49 | an empty sequence hashes to 255; any other hash is a table entry; every hash lies in [0, 2^16) |
| HashCreator.GetHashAppend | HashCreator.cs:45-49 | one more value continues the hash over that value's four bytes |
| CrcIntCalc.GetIntsAt | ConcurrentProcessorStorage.cs:1603-1610 | on a rectangular grid of width w, cell (i, j) comes at position j * w + i: row after row |
| CrcIntCalc.IntFoldIsLowByteFold | ConcurrentProcessorStorage.cs:1617-1623 | the per-cell fold is HashCreator's byte fold over each cell's low byte only |
| CrcIntCalc.GetHashCellsOnly | ConcurrentProcessorStorage.cs:1591-1596 | the hash depends only on the cell values, never on the tag or the identity; maps whose cells agree on their low bytes share a bucket |
| CrcIntCalc.IntFoldRange | ConcurrentProcessorStorage.cs:1617-1623 | a map with no cells hashes to the seed; any other hash is a table entry in [0, 2^16) |
| OrderedDict.AddEntries | ConcurrentProcessorStorage.cs:1053 | `Dictionary.Add` of a new key keeps the dictionary valid and inserts the entry: at the end when no slot is free, otherwise where the most recently freed slot was |
| OrderedDict.RemoveEntries | ConcurrentProcessorStorage.cs:1351 | `Dictionary.Remove` of a present key deletes exactly its entry, the others keeping their order, and reports true; an absent key changes nothing and reports false |
| OrderedDict.KeyPosition | ConcurrentProcessorStorage.cs:303-307 | in a valid dictionary the `TakeWhile` count of an entry's key is the entry's position |
| StoreIndex.InsertKeepsIndex | ConcurrentProcessorStorage.cs:1051-1059 | adding a map under a new key, and to its bucket, keeps the two indices in step: every entry in its hash bucket, every bucket entry held, no bucket empty |
| StoreIndex.DeleteKeepsIndex | ConcurrentProcessorStorage.cs:1336-1368 | deleting bucket entry i and the key of its path keeps the indices in step, drops an emptied bucket, and deletes exactly that entry from the key order |
| StoreRules.RecognizeSizeCheck | RecognizeProcessorStorage.cs:213-240 | a picture is accepted exactly when min <= width <= max and min <= height <= max (bounds inclusive); the width is checked first |
| StoreRules.ImageSizeCheck | ImageRect.cs:44-60 | a blank tag is refused, then a width, then a height that differs from the store's |
| StoreRules.RecognizeTag | RecognizeProcessorStorage.cs:173-189 | a blank path is an error; an empty file name fails in ParseName; otherwise the tag is the file name without extension, de-masked |
| StoreRules.ImageTag | ImageProcessorStorage.cs:154-170 | a blank path is an error; otherwise the tag is the file name without extension, as it is |
| StoreRules.RecognizeTagRoundTrip | RecognizeProcessorStorage.cs:173-189 | a map saved under its tag, or under the tag masked with a number, reads back as that tag |
| StoreRules.AddingProcessor | RecognizeProcessorStorage.cs:107-118 | a file becomes a map exactly when its picture can be read, passes the kind's size rule and yields a tag; the map holds the picture and the tag; any failure is wrapped with the path |
| StoreRules.CheckImagePath | ConcurrentProcessorStorage.cs:715-736 | an empty path is the working directory and no file; a path outside the working directory is an error; a directory is no file; a file must have the store's extension |
| StoreRules.ReplacedIsClean | ConcurrentProcessorStorage.cs:596-601 | after replacing invalid characters with '_' none is left |
| Storage.SelectedIndexFor | ConcurrentProcessorStorage.cs:289-320 | SelectedIndex is -1 exactly when no path is selected or its key is absent; otherwise it is the position of the selected key |
| Storage.StaleSelectedIndex | ConcurrentProcessorStorage.cs:1051-1059 | an add into a freed slot before the selected key moves the selected key, so a cached index kept across the add is wrong |
| Storage.DirectoryRemoved | ConcurrentProcessorStorage.cs:1202-1235 | removing every map of a key that starts with the directory path leaves exactly the values whose keys do not start with it; something is removed exactly when some key starts with it |
| Storage.FileCovered | ConcurrentProcessorStorage.cs:1202-1210 | for a file path the indexer finds at most the one entry the path names; removing its map removes exactly that value |
| Storage.LoadedAllRead | ConcurrentProcessorStorage.cs:784-798 | AddProcessor collects no failure exactly when every file reads as a map |
| Storage.LoadedIds | ConcurrentProcessorStorage.cs:800-818 | the maps read take consecutive identities, so no two share one |
| Storage.LoadedFailures | ConcurrentProcessorStorage.cs:800-818 | every failure collected is the failure to add one of the files |
| Storage.LoadedPictures | ConcurrentProcessorStorage.cs:800-818 | every map read holds the picture of one of the files |
| Storage.SelectionStep | ConcurrentProcessorStorage.cs:1336-1368 | removing one entry clears a selection exactly when it names that entry's path ignoring case, and keeps every other key |
| Storage.SelectionCompose | ConcurrentProcessorStorage.cs:1224-1232 | two removals in a row clear the selection exactly when the combined removal does |
| Storage.SelectionUncovered | ConcurrentProcessorStorage.cs:1202-1235 | removing every value under a path clears the selection exactly when its key was held and lies under the path |
| Storage.SelectionFile | ConcurrentProcessorStorage.cs:1202-1210 | for a file path that removal clears the selection exactly when the path names a held map and equals the selection ignoring case |
| Storage.LoadStepUnderPath | ConcurrentProcessorStorage.cs:846-894 | after one load the value under the file's key is exactly the map read, if any, and values under other keys are kept |
| Storage.LoadedOneMore | ConcurrentProcessorStorage.cs:800-818 | one more file loaded extends the values after the files before it by that file's load |
| Loading.RunAppend | ConcurrentProcessorStorage.cs:800-818 | one more turn of the loop extends the result for the files before it to the result for one more file |
| Storage.BatchAnswers | ImageProcessorStorage.cs:223-245 | every map of a batch goes to the one folder under a name its de-masked tag can give; the names differ ignoring case; the paths differ when no tag is a rooted path |
| Storage.ImagePathsInjective | ConcurrentProcessorStorage.cs:420-424 | within one folder, different names (not rooted paths) give different image paths |
| Storage.ProcessorStorage.constructor | ConcurrentProcessorStorage.cs:90-93 | a new store is empty, with nothing selected and long operations allowed |
| Storage.ProcessorStorage.NewRecognize | RecognizeProcessorStorage.cs:45-57 | a blank extension is refused; otherwise the store is empty and of the recognition kind |
| Storage.ProcessorStorage.At | ConcurrentProcessorStorage.cs:182-196 | the map and path at a position of the key order, or (null, "") outside the store; always with the count |
| Storage.ProcessorStorage.AtPath | ConcurrentProcessorStorage.cs:206-219 | the map stored under a path's key, or (null, "") for a blank path or an absent key; always with the count |
| Storage.ProcessorStorage.IndexersAgree | ConcurrentProcessorStorage.cs:182-219 | the entry at a position is the one its own path finds |
| Storage.ProcessorStorage.ImageIsSelectedOne | ImageProcessorStorage.cs:67-82 | in the image store a map is selected exactly when the selected path's key is held, that is when SelectedIndex is not -1 |
| Storage.ProcessorStorage.SetSelectedPath | ConcurrentProcessorStorage.cs:251-258 | setting the selected path resets the cached index |
| Storage.ProcessorStorage.GetSelectedIndex | ConcurrentProcessorStorage.cs:289-320 | the answer is the selected path's position in the key order, or -1, and is cached |
| Storage.ProcessorStorage.BaseAddElement | ConcurrentProcessorStorage.cs:1051-1059 | a blank path or a present key is refused before either index changes; otherwise the map goes under its key and into its bucket (a new bucket when none exists); the indices stay in step and the cache is reset |
| Storage.ProcessorStorage.BaseAddElementAsWritten | ConcurrentProcessorStorage.cs:1051-1059 | the same insertion with the cached index left as it was |
| Storage.ProcessorStorage.RemoveProcessor | ConcurrentProcessorStorage.cs:1336-1368 | true exactly when the map is held; then its one entry leaves both indices, the others keeping their order; the selection is cleared exactly when it names the removed path (ignoring case), that is when its key is removed, and the cache is reset; the keys left were all held before; false changes nothing |
| Storage.ProcessorStorage.Clear | ConcurrentProcessorStorage.cs:1378-1387 | both indices and the selection are emptied; LongOperationsAllowed is kept |
| Storage.ProcessorStorage.RemoveProcessorPath | ConcurrentProcessorStorage.cs:1202-1235 | a file path removes the map of its key; a directory path removes every map whose key starts with it and answers whether any was; a cleared flag answers false and keeps what was already removed; the selection is cleared exactly when its key was held and is removed, which after a complete removal is when the path covers that key |
| Storage.ProcessorStorage.RemoveEach | ConcurrentProcessorStorage.cs:1224-1232 | the removal loop removes the listed maps in order, up to the step at which the flag is cleared; the selection is cleared exactly when its key was among those removed |
| Storage.ProcessorStorage.LoadPrefix | ConcurrentProcessorStorage.cs:800-818 | the uncancelled loop over the first n files gives the maps and failures of reading them in turn, the ids after them, and the stored values of loading them in turn |
| Storage.ProcessorStorage.GetLatestProcessor | ConcurrentProcessorStorage.cs:1077-1097 | an empty store gives index 0 and nothing; otherwise an index outside the store moves to the last entry, whose map and path are returned and whose path becomes the selection |
| Storage.ProcessorStorage.GetFirstProcessor | ConcurrentProcessorStorage.cs:1122-1153 | an empty store gives index 0 and the selected path; with useLastIndex the selected index is used, and nothing is returned when there is none; an index outside the store moves to the first entry, whose path becomes the selection |
| Storage.ProcessorStorage.ReplaceElement | RecognizeProcessorStorage.cs:272-283 | the map under the path is removed; with the flag cleared nothing is added; otherwise the new map is the only new value and is the one its key finds; in a recognition store the path becomes the selection exactly when a map was replaced; otherwise the selection is cleared exactly when the path names a held map and equals the selection ignoring case |
| Storage.ProcessorStorage.IntAddProcessor | ConcurrentProcessorStorage.cs:846-894 | a file that does not read as a map is reported (and, when it is to be added, whatever the store holds under its path is removed); one that reads replaces what the store holds under its path; with the flag cleared the answer is null; the stored values become those not under the path plus the map read; the selection is cleared exactly when a held map under the path is removed and it names the path, and becomes the path when a recognition store replaces a map |
| Storage.ProcessorStorage.AddEach | ConcurrentProcessorStorage.cs:800-818 | the flag ends cleared exactly when it was clear or the cancel point falls before the last file; the maps and failures are those of reading the files before the cancel point one after another, and the stored values are those the same loads give one file at a time; files loaded only to be reported leave the store unchanged |
| Storage.ProcessorStorage.AddProcessor | ConcurrentProcessorStorage.cs:778-819 | an empty path is an error; with the flag cleared the answer is empty; otherwise no failure gives the maps read, one failure is reported as itself, several as one aggregate; an uncancelled load inside the working directory leaves the stored values those of loading each of its files in turn, and one outside it leaves the store unchanged |
| Storage.ProcessorStorage.UniqueNames | ConcurrentProcessorStorage.cs:382-393 | every stored map claims one lower-case name of its own, a name its de-masked title can give |
| Storage.ProcessorStorage.GetUniqueProcessor | ConcurrentProcessorStorage.cs:524-544 | a request whose path names a map file is answered with that path; any other gets a name its hint can give, in the folder its path checks out as; the names given differ ignoring case and none is taken by a stored map; a path that does not check out is an error |
| Storage.ProcessorStorage.GetUniquePath | ConcurrentProcessorStorage.cs:556-562 | the path in the working directory of a name the tag can give (number hint 0 when the tag reads as masked), not taken by a stored map |
| Storage.ProcessorStorage.SaveToFile | RecognizeProcessorStorage.cs:135-149 | a missing map is an error; otherwise the free path allocated from its tag is returned and becomes the selection, and it reads back as the tag |
| Storage.ProcessorStorage.SaveBatch | ImageProcessorStorage.cs:223-245 | a missing list is an error; otherwise the i-th map is paired with a path in the batch folder under a name its de-masked tag can give; the names differ ignoring case and are not taken by stored maps |
| TicTacToe.IsLineIsThreeInARow | GameSession.cs:72-104 | IsLine holds exactly when one of the 3 rows, 3 columns or 2 diagonals is all the mark |
| TicTacToe.WinnerOfInverted | GameSession.cs:259-291 | inverting the colours of a board swaps the winner |
| TicTacToe.CopyMarkInvolution | HitCreator.cs:130-162 | the inverting copy accepts exactly the three marks, and inverting twice gives each back |
| TicTacToe.LineSurvivesHit | GameSession.cs:108-119 | a mark put on an empty cell never undoes an existing line |
| Game.GameSession.constructor | GameSession.cs:25-32 | all nine cells are empty and there is no last hit |
| Game.GameSession.CurrentWinner | GameSession.cs:48-106 | the winner rule: both lines give a standoff, one line wins, otherwise nobody while a cell is empty and a standoff on a full board |
| Game.GameSession.MakeUserHit | GameSession.cs:108-119 | an occupied cell gives false and changes nothing; an empty one takes the user's mark and becomes the last hit; no other cell changes |
| Game.GameSession.MakeBotHit | GameSession.cs:121-141 | no next frame gives false and no change; an occupied chosen cell is an error; otherwise that cell alone takes the bot's mark and becomes the last hit |
| Game.GameSession.GameFieldCopy | GameSession.cs:259-291 | the copy keeps every cell, or with invert swaps the two marks and keeps empties; any other value is refused |
| Hits.HitCreator.constructor | HitCreator.cs:13-20 | all nine cells are empty and there is no last hit |
| Hits.HitCreator.GetWinner | HitCreator.cs:42-98 | the winner rule, as for GameSession |
| Hits.HitCreator.MakeUserHit | HitCreator.cs:100-111 | an occupied cell gives false and changes nothing; an empty one takes the user's mark and becomes the last hit |
| Hits.HitCreator.MakeBotHit | HitCreator.cs:113-128 | no step found and an occupied chosen cell are errors that change nothing; otherwise that cell alone takes the bot's mark and becomes the last hit |
| Hits.HitCreator.MapCopy | HitCreator.cs:130-162 | the copy keeps every cell, or with invert swaps the two marks and keeps empties; any other value is refused |

## Left out

- File I/O is not modelled:
  - the picture a file holds is the parameter `images`;
  - a directory's files are the parameter `listing`;
  - the retrying `ReadBitmap`, the bitmap checks and `SaveToFile(Bitmap, string)` are not modelled;
  - `CreateFolder`, `CreateWorkingDirectory` and `IsSelectedPathExists` are not modelled.
- `SaveToFile` and `SaveBatch` return the paths they would write, and the single save selects that path; the pictures are not written.
- The image store's single `SaveToFile` (ImageProcessorStorage.cs:191-205) is `Storage.ProcessorStorage.SaveToFile` with its answer ignored.
- Locks are not modelled: the store is sequential.
- `LongOperationsAllowed` is a field, not a static shared by all stores.
- Another thread clearing `LongOperationsAllowed` is the parameter `cancelAt`: the step before which the flag is cleared, or none.
- Storage.ProcessorStorage.AddProcessor: the stored values are stated for a load that is not cancelled; a cancelled directory load is stated by `AddEach`. Values are stated as a set, not in key order.
- Storage.ProcessorStorage.SaveBatch checks every tag for emptiness before it names any map, and reports an empty tag as `EmptyName` whenever any tag is empty. The source de-masks the tags lazily, one at a time, while it saves (ImageProcessorStorage.cs:237-243):
  - it writes maps 0 to j-1 before it fails on the empty tag of map j;
  - when the tag of map 0 is not empty but the folder fails the path check, it reports that path error first.
- Storage.ProcessorStorage.GetUniqueProcessor drops the `tagProc` argument of `IntGetUniqueProcessor`. Every caller passes null, so the source never re-tags a map.
- Storage.ProcessorStorage.ReplaceElement calls the single-file branch of `RemoveProcessor(string)` directly. The path always names a map file, so that is the branch the source takes.
- `Elements`, `UniqueElements`, `Count` and `IsEmpty` are lazy enumerations or simple reads. `Entries()` and `Count()` stand for them.
- The minimax search of both boards is a parameter of the bot's move: `CreateHit`, `NextFrame`, `BuildNextFrame` and `StepByModelIndex`. `CanUserWin` and `CanBotWin` only ask whether that search finds a step, so they are left out with it.
- The private `HitCreator(SignValue[,])` constructor (HitCreator.cs:22-28) and the private `GameSession(int[,])` constructor (GameSession.cs:34-40) serve only the search.
- Game.GameSession.MakeUserHit: requires the cell to be within 0..2 on both axes; the source throws `IndexOutOfRangeException` outside it.
- Game.GameSession.MakeBotHit: requires the chosen cell to be within 0..2. The search that chooses it is not modelled; the source would throw `IndexOutOfRangeException` for a cell outside it.
- Hits.HitCreator.MakeUserHit: requires the cell to be within 0..2 on both axes; the source throws `IndexOutOfRangeException` outside it.
- Hits.HitCreator.MakeBotHit: requires the chosen cell to be within 0..2. The search that chooses it is not modelled; the source would throw `IndexOutOfRangeException` for a cell outside it.
- `SignValue` is an external type. It is modelled with its three marks and any other value.
- `Processor` is an external type. It is modelled as an identity, a grid of ints and a tag.
- `ImageRect.GetProcessor` is modelled only by its tag and size checks (`ImageSizeCheck`).
- `char.IsWhiteSpace` and `string.ToLower` cover ASCII and Latin-1 white space and ASCII letters. Culture-specific case rules are not modelled.
- Path rules follow Windows: '\' and '/' are separators and ':' is the volume separator. `Path.Combine` and `Path.GetExtension` are modelled for the inputs the store gives them; invalid-character exceptions are not modelled.

## Findings

| source | as written | input that shows it | evidently intended | confidence | as-written member | corrected member |
|---|---|---|---|---|---|---|
| ConcurrentProcessorStorage.cs:1051-1059 | `BaseAddElement` adds to `DictionaryByKey` but leaves `IntSelectedIndex` as it was. `Dictionary` fills the most recently freed slot, so the new key can take a position before the selected key. | Keys "a", a freed slot, "c"; "c" is selected with cached index 1. A new file "b" is then loaded through `ReplaceElement`; nothing is removed, so the cache is not reset. "b" fills the freed slot, "c" moves to index 2, and `SelectedIndex` still answers 1, the index of "b". | Every change to the key order resets the cached index, as `RemoveProcessor` and the `SelectedPath` setter do, so `SelectedIndex` is always the selected key's position. | not executed; medium (depends on `Dictionary`'s slot reuse) | Storage.ProcessorStorage.BaseAddElementAsWritten, Storage.StaleSelectedIndex | Storage.ProcessorStorage.BaseAddElement |
