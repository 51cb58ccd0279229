# ImageResolutionChanger, modelled in Dafny

ImageResolutionChanger is a console tool. It lists the files of a folder and
creates a fresh output folder next to them. It then works through the files in
fixed-size batches. Each image is shrunk step by step until its PNG encoding is
smaller than 8 MiB (8388608 bytes). The accepted images of a batch are keyed by
file name and saved.

This project models the three pieces of sequential logic in that program:

- **Batching** (`batching.dfy`). The loop in `Main` cuts the file list into
  consecutive batches with LINQ `Skip(i*B).Take(B)`. It runs while
  `Count > B*i`.
- **Output folder naming** (`folders.dfy`, with `decimal.dfy` for the decimal
  suffix). `CreateFolder` tries `path\name`, then `path\name(0)`,
  `path\name(1)`, … and creates the first one that does not exist. The file
  system is a finite `set<string>`: the candidate paths for which
  `Directory.Exists` reports true.
- **Per-batch result assembly** (`resize.dfy`, with `paths.dfy` for
  `Split('\\').Last()`). For each file, `ChangeImageResolution` searches the
  compression levels 0, 1, 2, … and accepts the first one whose encoding is
  under the ceiling. It stores the result under the file's base name. A
  failure skips the file. The image library is a `Codec`: a `decodes` oracle
  and an `encodedSize(file, level)` oracle, which gives None when encoding at
  that level throws.
- **The driver** (`driver.dfy`). This is `Main` from the directory listing
  onward. It creates the folder only when there are files, and then produces
  one result map per batch.

`wrappers.dfy` holds the `Option` type.

One part of the code does not do what it evidently means to. The code
treats a missing input folder as a case to handle rather than an error.
`GetFilesFromDirectory` checks `Directory.Exists` and returns `null` instead of
letting `Directory.GetFiles` throw (Program.cs:57-62). `Main` creates the
output folder only when `files.Any()` holds (Program.cs:40-43). On a `null`
listing, though, `files.Any()` throws. The model follows the code in
`Driver.RunAsWritten`, and `Driver.RunCorrected` gives the no-op run the code
aims at. The difference is recorded under Findings.

## Model

| member | source | states |
|---|---|---|
| Batching.BatchesFlatten | ImageResolutionChanger/Program.cs:46-48 | Concatenating the batches gives back the file list in order: no file is lost, repeated or moved. |
| Batching.BatchSizes | ImageResolutionChanger/Program.cs:46-48 | Each batch is non-empty with at most B files. Every batch except the last has exactly B. |
| Batching.BatchCount | ImageResolutionChanger/Program.cs:40-48 | n files give ceil(n/B) batches, counted by repeated subtraction: B times the count covers n, and one batch fewer would not. An empty list gives no batches. |
| Batching.TimesIsProduct | ImageResolutionChanger/Program.cs:46 | The loop's `BATCH_SIZE * i`, computed by repeated addition, is the product. |
| Batching.BatchAt | ImageResolutionChanger/Program.cs:48 | Batch i is exactly `Skip(B*i).Take(B)` of the list, as the loop body computes it. |
| Batching.BatchElement | ImageResolutionChanger/Program.cs:48 | Element j of batch i is element B*i+j of the file list. |
| Batching.LoopGuard | ImageResolutionChanger/Program.cs:46 | The loop condition `Count > B*i` holds exactly while i is below the number of batches. |
| Batching.NextBatch | ImageResolutionChanger/Program.cs:46-48 | While the loop condition holds, there is a batch i and the body's `Skip(B*i).Take(B)` is that batch. |
| Batching.CeilDivIsCeiling | ImageResolutionChanger/Program.cs:46 | Counting batches by repeated subtraction gives the least q with n <= B*q. |
| Batching.CeilDivGuard | ImageResolutionChanger/Program.cs:46 | `n > B*i` holds exactly for i below ceil(n/B). |
| Batching.Partition | ImageResolutionChanger/Program.cs:46-51 | The source's loop yields exactly the batch partition. So the batches concatenate back to the file list, and there are `CeilDiv(n, B)` of them, which `BatchCount` shows is ceil(n/B). |
| Decimal.NatToString | ImageResolutionChanger/Program.cs:78 | The retry counter is written as a non-empty string of decimal digits with no leading zero. |
| Decimal.ParseNatToString | ImageResolutionChanger/Program.cs:78 | Reading the digits back gives the counter. |
| Decimal.NatToStringInjective | ImageResolutionChanger/Program.cs:78 | Different counters give different suffixes. |
| Folders.CandidateInjective | ImageResolutionChanger/Program.cs:72-78 | Different attempts try different folder names. |
| Folders.AttemptsSize | ImageResolutionChanger/Program.cs:70-79 | The first n attempts name n distinct folders. |
| Folders.AllTakenBound | ImageResolutionChanger/Program.cs:70-79 | If the first n attempts all exist, at least n directories exist. |
| Folders.FirstFreeExists | ImageResolutionChanger/Program.cs:70-79 | The search ends: among the first \|existing\|+1 attempts, one is the first free name. |
| Folders.CreateFolder | ImageResolutionChanger/Program.cs:65-82 | The returned folder did not exist before. Afterwards the directories are the old ones plus exactly that folder. It is the first attempt in the order `path\name`, `path\name(0)`, `path\name(1)`, … that was free, so every earlier attempt existed. When `path\name` is free it is returned with no suffix. |
| Folders.SecondRunDiffers | ImageResolutionChanger/Program.cs:65-82 | A second run, against the directories the first run left, picks a later attempt. That name differs from the first run's folder and did not exist before either run. |
| Folders.TakenBaseGetsSuffixZero | ImageResolutionChanger/Program.cs:72-78 | When `path\name` exists and `path\name(0)` does not, the folder is `path\name(0)`. |
| Paths.Split | ImageResolutionChanger/Program.cs:129 | `Split` gives at least one piece. |
| Paths.SplitPiecesClean | ImageResolutionChanger/Program.cs:129 | No piece of a split contains the separator. |
| Paths.SplitJoin | ImageResolutionChanger/Program.cs:129 | Joining the pieces with the separator gives back the string. |
| Paths.SplitLast | ImageResolutionChanger/Program.cs:129 | The last piece is the suffix after the last separator: either the whole string, or preceded by a separator. |
| Paths.BaseNameIsLastSegment | ImageResolutionChanger/Program.cs:129 | The result key is the substring after the last backslash. It contains no backslash and ends the path. Unless it is the whole path, a backslash comes just before it. A path with no backslash is its own key. |
| Resize.LeastStopFrom | ImageResolutionChanger/Program.cs:93-138 | The search from a level returns the least level at or above it where the encoding fits or throws. |
| Resize.Outcome | ImageResolutionChanger/Program.cs:90-144 | A file's fate is either acceptance at a level, meaning it decodes and that is the least level whose encoding fits, with every lower level too large, or a skip, meaning decoding fails or an encoding throws before any level fits. |
| Resize.AcceptedAtUnique | ImageResolutionChanger/Program.cs:93-137 | A file is accepted at one level at most. |
| Resize.AcceptedNotSkipped | ImageResolutionChanger/Program.cs:90-144 | An accepted file is not also a skipped one. |
| Resize.OutcomeUnique | ImageResolutionChanger/Program.cs:90-144 | Any result that is an acceptance level or a skip, as the case may be, is the file's outcome. |
| Resize.ResizeToFit | ImageResolutionChanger/Program.cs:90-144 | The try block returns the least level whose encoding is strictly below 8388608 bytes, with every lower level too large. It returns a skip when decoding or an earlier encoding fails. A file whose PNG encoding at level 0 already fits is accepted at level 0. |
| Resize.BatchResultSources | ImageResolutionChanger/Program.cs:84-147 | Every key of a batch's result map is the base name of a batch file, stored with that file and the level it was accepted at. |
| Resize.BatchResultHasAccepted | ImageResolutionChanger/Program.cs:84-147 | Every accepted file's base name is a key of the batch's result map. |
| Resize.AddFileKeeps | ImageResolutionChanger/Program.cs:129-130 | Adding a file never overwrites an entry already present. |
| Resize.AddFileNew | ImageResolutionChanger/Program.cs:129-130 | The only entry adding a file can create is that file, under its base name, at a level it is accepted at. An accepted file's base name is present afterwards. |
| Resize.AddFileOther | ImageResolutionChanger/Program.cs:129-130 | Adding one file leaves the entries under other names unchanged. |
| Resize.AddFileFresh | ImageResolutionChanger/Program.cs:129-130 | Adding a file under a name not yet present stores it if and only if it is accepted, with its level. |
| Resize.LastKeyFresh | ImageResolutionChanger/Program.cs:129-130 | With distinct base names, the last file's name is not yet a key when it is added. |
| Resize.BatchResultExact | ImageResolutionChanger/Program.cs:84-147 | With distinct base names, a file's base name is a key if and only if the file is accepted, and it then maps to that file at its acceptance level. |
| Resize.SkippedFileIrrelevant | ImageResolutionChanger/Program.cs:141-144 | Removing a skipped file from a batch leaves the result map unchanged, so one file's failure does not affect the others. |
| Resize.ChangeImageResolution | ImageResolutionChanger/Program.cs:84-148 | Processing the files of a batch one after another builds exactly the batch's result map. |
| Driver.BatchSearchesEnd | ImageResolutionChanger/Program.cs:46-48 | Every file of every batch comes from the listing. So if each listed file's search ends, each batch's searches end. |
| Driver.ProcessBatch | ImageResolutionChanger/Program.cs:46-50 | One pass of the loop, while its condition holds, appends the result map of batch i to the results of the batches before it. |
| Driver.ProcessBatches | ImageResolutionChanger/Program.cs:46-51 | The loop produces one result map per batch, in order: result i is the result map of batch i. |
| Driver.ResultsOfIndex | ImageResolutionChanger/Program.cs:46-51 | Results that match the batches one for one can be read off by index: there are as many results as batches, and result i is batch i's result map. |
| Driver.RunFiles | ImageResolutionChanger/Program.cs:39-51 | With no files, no folder is created and no batch is processed. Otherwise the first free folder is created, and nothing else. Result i is the result map of batch i. |
| Driver.RunAsWritten | ImageResolutionChanger/Program.cs:38-63 | Among the modelled failures, the run crashes exactly when the input folder does not exist. Otherwise it behaves as `RunFiles` on the listing. |
| Driver.RunCorrected | ImageResolutionChanger/Program.cs:38-63 | The run always ends normally. A missing input folder creates no folder and processes no batch. An existing one behaves as `RunFiles` on the listing. |

## Left out

- Image decoding, resampling and PNG encoding (`Image.FromFile`, `Graphics.DrawImage`, `Bitmap.Save`) are calls into GDI+. They are replaced by the `Codec` oracles.
- The floating-point scale factor `level * STEP_OF_COMPRESSION + 1` and the truncation of width and height (lines 97-99) are floating-point numerics. They only shape the encoded size, which the oracle gives directly.
- `Parallel.ForEach`, the unsynchronised `Dictionary` and the `++filesCount` counter (lines 88, 130-131, 152) are left out as concurrency. Files of a batch are processed one after another.
- `SaveImages` (lines 150-156), the console prompt and `ReadLine`, and all logging are I/O and left out. The model returns each batch's result map instead of writing it.
- Reading `BATCH_SIZE`, `STEP_OF_COMPRESSION`, `DESTINATION_FOLDER_NAME` and `MAX_DEGREE_OF_PARALLELISM` from configuration (lines 26-33) is left out. These are thin wrappers over `TryParse` with defaults. The batch size and folder name are parameters.
- `GetFilesFromDirectory` is modelled only as its two outcomes, a listing or `null`. Directory listing is I/O.
- Releasing decoded images and `GC.SuppressFinalize` (line 50) are memory management with no visible effect.
- Batching.Partition: does not model the 32-bit wrap-around of `BATCH_SIZE * i`. It can only occur with more than 2^30 files.
- Driver.ProcessBatches: requires a positive batch size and that every listed file's search ends (see `Resize.ResizeToFit`), and does not model the 32-bit wrap-around of `BATCH_SIZE * i`.
- Driver.ProcessBatch: the same requirements as `ProcessBatches`: a positive batch size and that every listed file's search ends.
- Driver.RunFiles: requires that every listed file's search ends (see `Resize.ResizeToFit`) and a positive batch size. With an empty listing the source loop never starts, whatever `BATCH_SIZE` is. With `BATCH_SIZE == 0` and at least one file, it never ends. With a negative `BATCH_SIZE`, every round takes an empty batch, and the loop stops only when the unchecked 32-bit product `BATCH_SIZE * i` wraps to a value no smaller than the file count, after about 2^31/|BATCH_SIZE| rounds, and never when `BATCH_SIZE` is `int.MinValue`, where the product alternates between 0 and `int.MinValue`. The same 32-bit wrap-around of `BATCH_SIZE * i` is not modelled for a positive batch size either.
- Driver.RunAsWritten: requires a positive batch size and that every listed file's search ends, as `RunFiles` does. It does not model a failing `Directory.CreateDirectory` (see `Folders.CreateFolder`), so a run the source crashes at line 42 is a `Finished` run here.
- Driver.RunCorrected: the same two preconditions as `RunFiles`.
- Folders.CreateFolder: does not model the 32-bit wrap-around of the retry counter, which needs more than 2^31 existing folders. It also does not model another process creating the folder between the existence check and the creation. `Directory.CreateDirectory` failures are not modelled: a regular file with a candidate's name (`Directory.Exists` is false for it, and the creation throws `IOException`) or a folder name with characters Windows forbids make the source crash at line 42, while the model always creates the folder. `existing` stands for the candidate strings for which `Directory.Exists` reports true, which on Windows compares case-insensitively, not for literal directory names.
- Resize.ResizeToFit: requires that the search for a decodable file ends, with some level that fits or throws. The source loop has no bound. With a positive `STEP_OF_COMPRESSION`, shrinking eventually gives a zero-sized bitmap, whose construction throws. But `float.TryParse` accepts a configured 0 (Program.cs:28). The scale factor then stays 1 at every level (Program.cs:97), so for a file whose level-0 encoding is too large the search never ends. The requirement excludes that case. The 32-bit level counter `levelOfCompression` (Program.cs:93, 136) is not modelled to wrap either: with a tiny positive step the scale factor stays small up to level 2^31-1, and the counter can wrap to negative levels before any level fits.
- Resize.ChangeImageResolution: requires that every file's search ends (see `Resize.ResizeToFit`). It processes files in list order. When two files of a batch share a base name, the earlier one is kept and `Add` throws for the later one, which is then skipped. In the source, whichever parallel worker adds first wins. One directory's listing never has such a pair.

## Findings

| source | as written | input that shows it | evidently intended | confidence | as-written member | corrected member |
|---|---|---|---|---|---|---|
| ImageResolutionChanger/Program.cs:38-63 | For a missing folder, `GetFilesFromDirectory` returns `null`, and `files.Any()` on line 40 then throws `ArgumentNullException`. | A path for which `Directory.Exists` is false | No work, no output folder, normal exit | not executed; high (`Enumerable.Any` rejects a null source) | Driver.RunAsWritten | Driver.RunCorrected |
