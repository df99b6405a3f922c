# car-rag: folder listing and upload keys

The repository is a small Flask front end over a managed document store and a
managed retrieval-augmented-generation service. Almost all of `app/app.py` is
glue over those services. Only two of its request handlers compute anything:

- `GET /folders` (`get_folders`) takes every object key in the bucket. It
  splits each key on `"/"`, drops the last segment (the file name), and adds
  `"/".join(parts[:i])` for `1 <= i <= len(parts)` to a set. It then returns
  the set sorted.
- `POST /upload` (`upload`) strips the `folder` form field and appends a `"/"`
  when the field is non-empty and lacks one. It refuses a form without a
  `files` field. It stores every file whose lower-cased name ends in `.txt`
  under the key `folder + filename`, in request order.

This project pulls those two computations out as pure functions and proves
what they promise:

- `wrappers.dfy` holds `Option` and `Result`.
- `pystr.dfy` (module `PyStr`) models the Python string operations the
  handlers use: `split` and `join` on one separator, `strip`, `lower` and
  `endswith`. It also defines `StartsWith` and `RFind`, which the handlers
  do not call; they appear only in the statements of properties.
- `order.dfy` (module `Order`) models Python's ordering of strings by code
  point. It also models `set` plus `sorted` as insertion into a sorted,
  duplicate-free sequence, and proves that such a sequence is determined by
  its elements.
- `folders.dfy` (module `Folders`) models `get_folders`.
- `upload.dfy` (module `Upload`) models `upload`.

`get_folders` has an independent reference definition, `FolderSet`. A folder
is a prefix `k[..j]` of some key `k` whose next character `k[j]` is `'/'`. The
model proves this set equals the set of `"/".join(parts[:i])` prefixes that
the handler builds. Every other listing property is derived from that
equality.

## Model

| member | source | states |
|---|---|---|
| PyStr.Split | app/app.py:105 | `key.split("/")` always yields at least one part, and no part contains the separator |
| PyStr.SplitCount | app/app.py:105 | `key.split("/")` yields one more part than the key has `'/'` characters; empty parts are kept |
| PyStr.JoinSplit | app/app.py:105-107 | joining the parts of a split with the same separator gives the original string back |
| PyStr.SplitJoin | app/app.py:105-107 | splitting a join of a non-empty list of separator-free parts (empty parts allowed) gives the parts back |
| PyStr.JoinEnds | app/app.py:107 | `"/".join(parts)` is empty for no parts; otherwise it starts with the first part and ends with the last, and a separator follows the first part when there are several |
| PyStr.JoinAppend | app/app.py:107 | joining two non-empty runs of parts puts exactly one separator between their joins |
| PyStr.SplitAround | app/app.py:105 | splitting `a + "/" + b` gives the parts of `a` followed by the parts of `b` |
| PyStr.Strip | app/app.py:69 | `strip()` returns an infix that only whitespace surrounds and that has no whitespace at either end |
| PyStr.Lower | app/app.py:80 | `lower()` keeps the length, turns each ASCII capital into its small letter, keeps every other code point, and leaves no ASCII capital |
| PyStr.EndsWith | app/app.py:71 | `s.endswith(suffix)` holds exactly when `s` is some string followed by `suffix`; the folder check here and the `.txt` test on line 80 both use it |
| PyStr.StripUnique | app/app.py:69 | any infix with those two properties is the result of `strip()`, so the contract pins the result down |
| Order.Less | app/app.py:110 | no string sorts before the empty string, and a proper prefix sorts before the longer string |
| Order.LessAtFirstDifference | app/app.py:110 | at the first position where two strings differ, the string with the smaller code point there sorts first, and only then |
| Order.StrictTotalOrder | app/app.py:110 | Python's string comparison, which `sorted` uses, is irreflexive, transitive and total on distinct strings |
| Order.Insert | app/app.py:108-110 | adding a prefix keeps the folder list strictly ascending and adds exactly that one element |
| Order.AscendingUnique | app/app.py:110 | two strictly ascending lists with the same elements are equal, so `sorted(set)` is determined by the set |
| Folders.DirParts | app/app.py:105 | `key.split("/")[:-1]` has exactly one directory segment per `'/'` in the key |
| Folders.JoinedPrefixesOfKey | app/app.py:105-108 | a key's `"/".join(parts[:i])` prefixes are exactly the prefixes of the key that a `'/'` follows |
| Folders.AddPrefixes | app/app.py:106-108 | the inner loop adds exactly the joined prefixes `parts[:i]`, `from <= i <= len(parts)`, and keeps the list sorted |
| Folders.AddKeys | app/app.py:104-108 | the outer loop adds exactly the folders of every key and keeps the list sorted |
| Folders.Folders | app/app.py:104-110 | the listing is strictly ascending, so sorted with no duplicates, and holds exactly the prefixes of keys that a `'/'` follows |
| Folders.FoldersAreJoinedPrefixes | app/app.py:104-108 | a folder is listed if and only if it is `"/".join(parts[:i])` for some key, with `1 <= i <= len(parts)` |
| Folders.FolderPrecedesSlash | app/app.py:105 | every listed folder plus `"/"` begins some key, so the segment after a key's last `'/'` never makes a folder on its own |
| Folders.FoldersPrefixClosed | app/app.py:106-108 | when a listed folder contains `'/'`, everything before its last `'/'` is listed too |
| Folders.FoldersDependOnKeySet | app/app.py:104-110 | the listing depends only on the set of keys: reordering or repeating keys changes nothing |
| Folders.FlatKeyAddsNothing | app/app.py:104-106 | a key without `'/'`, the empty key included, adds no folder |
| Folders.NoKeysNoFolders | app/app.py:104-110 | an empty bucket lists no folders |
| Folders.EmptySegmentKept | app/app.py:105-108 | `"a//b"` lists `"a"` and `"a/"`, because the empty segment is kept |
| Folders.LeadingSlashGivesEmptyFolder | app/app.py:105-108 | `"/x"` lists the empty folder `""` |
| Folders.TrailingSlashClosesFolder | app/app.py:105-108 | `"a/b/"` lists `"a"` and `"a/b"` |
| Upload.NormalizeFolder | app/app.py:69-72 | the folder is empty exactly when the stripped field is; otherwise it ends with `'/'`; it is the stripped field, or that field plus one `'/'`; a stripped field that already ends in `'/'` is kept unchanged |
| Upload.NormalizedIsStripped | app/app.py:69-72 | a normalised folder has no whitespace at either end, so stripping it again changes nothing |
| Upload.NormalizeIdempotent | app/app.py:69-72 | normalising an already normalised folder leaves it unchanged |
| Upload.TextFileByExtension | app/app.py:80 | `IsTextFile`, the handler's test `name.lower().endswith(".txt")`, holds if and only if the last four characters are `.`, `t`/`T`, `x`/`X`, `t`/`T` |
| Upload.KeysFor | app/app.py:78-83 | every key is the folder followed by a `.txt` file name from the request; every `.txt` file in the request gets its key; there are no more keys than files |
| Upload.KeysInRequestOrder | app/app.py:78-83 | keys follow request order: a request's keys are those of its first part followed by those of the rest, and a single file gives its key if and only if it is a text file |
| Upload.UploadKeys | app/app.py:69-83 | the handler refuses with `MissingFiles` if and only if the `files` field is absent; otherwise each key is the normalised folder plus a `.txt` name from the request, and every `.txt` name gets its key |
| Upload.UploadedFolderIsListed | app/app.py:71-81 | once a key uploaded into a non-empty folder is in the bucket, the folder listing shows that folder without its trailing `'/'` |

## Left out

- Flask routing, the page template, JSON responses and form parsing (app/app.py:23-30, 116-146). These are web I/O. The `folder` field is an input string, and the `files` field is an optional list of file names.
- All calls to the storage and AI services: the S3 upload and the paginated bucket listing, `start_ingestion_job`, `get_ingestion_job` and `retrieve_and_generate` (app/app.py:16-18, 36-62, 82, 85-88, 97-101, 124-144). These are foreign network calls. The list of keys is an input to `Folders.Folders`, and the upload stops at the keys.
- The `ingest`, `ingest_status` and `ask` handlers. They forward to the remote service and compute nothing themselves.
- Environment configuration, the prompt text and the `print` logging (app/app.py:8-11, 55, 61, 70, 79, 119-139).
- The data seeding scripts under `data/`. They create directories, write files and upload a directory tree. Their path arithmetic is delegated to `pathlib`.
- Segmenting, embedding, indexing and retrieval of documents. `app/app.py` hands this to the managed service through the calls listed above; the `data/` scripts only write files locally and upload them to the bucket.
- PyStr.Strip: only whitespace in the ASCII range is removed: tab, line feed, vertical tab, form feed, carriage return, U+001C..U+001F and space. Python's `str.strip()` also removes non-ASCII whitespace such as U+00A0 and U+2000..U+200A.
- PyStr.LowerChar: only `A`..`Z` are lowered. Python's `str.lower()` also lowers non-ASCII letters, and it can change a string's length. This matters for `IsTextFile` only when such a letter lowers to one of `.txt`'s characters.
- Upload.UploadKeys: a file part whose `filename` is missing would make the handler fail on `.lower()`. File names are modelled as strings, so that case cannot be expressed.
