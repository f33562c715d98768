# GOES standalone downloader — verified model of its key and path logic

The script `goes-standalone.py` fetches GOES-16 full-disk radiance files
(`ABI-L1b-RadF`) for one band and one hour from the public bucket
`gcp-public-data-goes-16` and renders each downloaded `.nc` file as a `.jpg`.
This project models, in Dafny, the part of the script that is logic rather than
library calls:

- **Prefix construction** (`GoesPaths.ParseTime`, `GoesPaths.Prefix`): the
  `YYYY-DDD-HH` time string is cut with Python slices `[0:4]`, `[5:8]`,
  `[9:11]` and joined with the band into
  `ABI-L1b-RadF/<Y>/<D>/<H>/OR_ABI-L1b-RadF-M6C<band>`. Slices clamp, so a
  short or malformed time string never raises; the separators at positions 4
  and 8 are never read.
- **Basename and target path** (`GoesPaths.Basename`, `GoesPaths.TargetPath`):
  the file name is the text after the last `/` of the blob key (`rsplit('/', 1)[1]`,
  an index error when the key has no `/`), and the target is the folder string
  and the file name concatenated with no separator in between.
- **Skip-if-exists download loop** (`GoesDownload.LocalFolder.DownloadBlobs`):
  the blob keys are walked in listing order and a blob is written only when its
  target path does not exist yet. The local folder is a class holding the set
  of existing paths and the log of downloads; the method is proved against the
  specification function `GoesDownload.Replay`, about which no-overwrite,
  coverage, idempotence and the per-step "written iff absent" rule are proved.
- **Plot file name** (`GoesPaths.PlotFilename`): `rsplit('.', 0)` splits
  nothing, so the image of `x.nc` is `x.nc.jpg`. The intended name, with the
  extension replaced, is modelled beside it (see Findings).

Python's string operations (`s[a:b]`, `rfind`, `rsplit`, `join`) are modelled
once in module `PyStr`, with a round-trip lemma between `rsplit` and `join`.

The model follows the code as written, also where it differs from what the
script evidently means: the image name is the data file name with `.jpg`
appended, not with its extension replaced, and the target path is
`folder + name` rather than `folder/name` (the `--goes_folder` help text asks
for a folder of the form `/filepath/`, which `TargetPathPlacement` shows is
what makes the two agree).

Files: `py_str.dfy` (module `PyStr`), `goes_paths.dfy` (module `GoesPaths`),
`goes_download.dfy` (module `GoesDownload`).

## Model

| member | source | states |
|---|---|---|
| `PyStr.Slice` | goes-standalone.py:111-113 | a slice with non-negative bounds never fails; its length is the clamped width and its characters are those of the string from the lower bound on |
| `PyStr.LastIndex` | goes-standalone.py:62 | the index found is the last occurrence of the separator, and there is none exactly when the separator does not occur |
| `PyStr.RSplit` | goes-standalone.py:62 | `rsplit` yields between 1 and maxsplit+1 pieces, the pieces after the first hold no separator, and fewer than maxsplit splits happen only when the first piece holds no separator |
| `PyStr.RSplitJoin` | goes-standalone.py:62 | joining the pieces of `rsplit` with the separator gives back the original string |
| `PyStr.RSplitOnceAppend` | goes-standalone.py:62-64 | splitting `s + t` once from the right, with no separator in `t`, leaves `s`'s text after its last separator followed by `t` as the second piece |
| `GoesPaths.ParseTime` | goes-standalone.py:111-113 | for a string of any length n, year, day and hour are the characters from positions 0, 5 and 9 on, of lengths min(4,n), clamp(n-5,0,3) and clamp(n-9,0,2); for a full-length string they are the characters 0-3, 5-7, 9-10 |
| `GoesPaths.SeparatorsIgnored` | goes-standalone.py:111-113 | two time strings that differ only at positions 4 and 8 (or past position 10) give the same year, day and hour |
| `GoesPaths.Prefix` | goes-standalone.py:118-119 | the prefix starts with `ABI-L1b-RadF/`, contains `/`, ends with the band, and its length is 35 plus the lengths of the parts and the band |
| `GoesPaths.PrefixFieldsLayout` | goes-standalone.py:118-119 | a prefix built from a 4-character year, 3-character day and 2-character hour gives back exactly those fields and the band |
| `GoesPaths.PrefixRoundTrip` | goes-standalone.py:111-119 | for a full-length time string the year, day, hour and band sit at fixed positions of the prefix and are read back unchanged |
| `GoesPaths.PrefixInjective` | goes-standalone.py:111-119 | for full-length time strings two prefixes are equal if and only if their date parts and bands are equal |
| `GoesPaths.DefaultTimeParts` | goes-standalone.py:111-113 | the default time string `2020-146-00` gives year `2020`, day `146`, hour `00` |
| `GoesPaths.DefaultPrefix` | goes-standalone.py:111-119 | the defaults `2020-146-00` and band `13` give `ABI-L1b-RadF/2020/146/00/OR_ABI-L1b-RadF-M6C13` |
| `GoesPaths.YearOnlyTimeParts` | goes-standalone.py:111-113 | the time string `2020` is accepted and gives year `2020` with empty day and hour |
| `GoesPaths.Basename` | goes-standalone.py:61-63 | a name exists exactly when the key holds `/` (otherwise the index error), and it holds no `/` and is shorter than the key |
| `GoesPaths.BasenameAfterLastSlash` | goes-standalone.py:62-63 | the name is the text after the last `/` of the key |
| `GoesPaths.BasenameRejoins` | goes-standalone.py:62-63 | the key is the text before its last `/`, a `/`, and the name |
| `GoesPaths.TargetPath` | goes-standalone.py:64 | the target is the folder string followed directly by the file name, with no separator inserted; where the name lands is stated by `TargetPathPlacement` |
| `GoesPaths.DefaultFolderPlacement` | goes-standalone.py:24-25 | with the default folder `./` the target's own name is the blob's name |
| `GoesPaths.BasenameInFolder` | goes-standalone.py:64 | when the folder string holds a `/`, the target's name is the folder's text after its last `/` followed by the blob's name |
| `GoesPaths.TargetPathPlacement` | goes-standalone.py:64 | the target's own name is the blob's name if and only if the folder string ends in `/`; otherwise the name is glued onto the folder's last component |
| `GoesPaths.PlotFilename` | goes-standalone.py:124-125 | the image name is the data file name with `.jpg` appended, the data extension kept |
| `GoesPaths.PlotFilenameKeepsExtension` | goes-standalone.py:124-125 | for every `stem.nc` the image is `stem.nc.jpg`, which differs from the intended `stem.jpg` |
| `GoesPaths.PlotFilenameInjective` | goes-standalone.py:123-125 | distinct data files get distinct image names |
| `GoesPaths.IntendedPlotFilename` | goes-standalone.py:124-125 | the corrected name ends in `.jpg`; its stem is the data file up to its last `.`, or the whole file name when there is no `.` |
| `GoesPaths.IntendedStripsExtension` | goes-standalone.py:124-125 | the corrected name of `stem.ext` is `stem.jpg` when the extension has no `.` |
| `GoesPaths.IntendedPlotFilenameInjective` | goes-standalone.py:123-125 | distinct `.nc` files get distinct corrected image names |
| `GoesDownload.Replay` | goes-standalone.py:60-68 | a pass over the listing never removes an existing path |
| `GoesDownload.ReplayNoOverwrite` | goes-standalone.py:65-67 | every written path was absent before the pass, and the paths afterwards are those before plus those written |
| `GoesDownload.ReplayWritesOnce` | goes-standalone.py:60-67 | no path is written twice in one pass, so of two blobs with the same name only the first is fetched |
| `GoesDownload.ReplayStep` | goes-standalone.py:65-67 | when the loop reaches a blob, it is written if and only if its target is absent from the paths existing at that moment; a key without `/` stops the pass |
| `GoesDownload.ReplayFails` | goes-standalone.py:62-63 | the pass fails with an index error if and only if some listed key has no `/` |
| `GoesDownload.ListingNeverFails` | goes-standalone.py:58-63 | when every key begins with the prefix the script builds, the pass never fails |
| `GoesDownload.ReplayCovers` | goes-standalone.py:60-68 | after a pass that did not fail, every listed blob's target path exists |
| `GoesDownload.ReplaySettled` | goes-standalone.py:65 | when every listed blob's target already exists, the pass writes nothing and changes nothing |
| `GoesDownload.ReplayIdempotent` | goes-standalone.py:60-68 | running the same listing again on the result of a successful pass downloads nothing |
| `GoesDownload.LocalFolder.Download` | goes-standalone.py:66-68 | writing a blob adds its path to the folder and one entry to the download log |
| `GoesDownload.LocalFolder.DownloadBlobs` | goes-standalone.py:37-69 | the folder's paths, the log and the success flag after the loop are exactly those `Replay` gives from the paths before it |

## Findings

| source | as written | input that shows it | evidently intended | confidence | as-written member | corrected member |
|---|---|---|---|---|---|---|
| goes-standalone.py:124-125 | the plot name splits the data file name on `.` with a maximum of zero splits, which splits nothing, and appends `.jpg` | `a/b.nc` gives `a/b.nc.jpg` | the last extension replaced: `a/b.jpg` (the comment on line 124 states the split is meant to remove the extension) | high; not executed | `GoesPaths.PlotFilenameKeepsExtension` | `GoesPaths.IntendedStripsExtension` |

The corrected name strips the last extension only (one `rsplit` on `.`). That is
the only workable reading: the render loop enumerates `os.path.join(filepath,
'*.nc')`, so every name it renames begins with the folder, and with the default
folder `./` every name has a dot at position 0. Stripping everything from the
first dot would turn each of them into just `.jpg`.

## Left out

- Argument parsing (lines 12-34, 103-105) and the unused input-stream argument: band, folder and time string are plain string parameters; their defaults are the constants `DefaultBand`, `DefaultFolder`, `DefaultTime`.
- The storage client, bucket lookup and `list_blobs` (lines 55-58): network I/O. The listing is an input sequence of keys; its prefix filter appears only as the hypothesis of `ListingNeverFails`, and its order is whatever the input gives.
- The bytes of a blob and `download_to_file` (line 67): a download is the insertion of its path into the folder and an entry in the log. A file opened for writing and then left partial by a failed transfer is not modelled, nor are network, permission or open failures; the only failure modelled is the index error on a key without `/`.
- The radiance transform (lines 90-96): floating-point numpy arithmetic.
- netCDF reading and the image write with matplotlib (lines 89-90, 98-99): foreign libraries and file I/O; `plot_img` itself is not part of this model.
- Directory enumeration with `glob` and its order (line 123), and all printing (lines 68, 115, 126).
- GoesDownload.LocalFolder.DownloadBlobs: `os.path.exists` is modelled as membership in the set of paths, so a directory and a file are not told apart.
