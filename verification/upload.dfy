/** The object keys the `/upload` handler (app/app.py, `upload`) stores:
    the requested folder is trimmed and given a trailing '/', a request
    without a `files` field is refused, and every `.txt` file is stored
    under `folder + filename`, in request order. The storage call itself
    and the ingestion job started afterwards are not modelled. */
module Upload {
  import opened Wrappers
  import opened PyStr
  import Folders
  import Order

  /** The handler's only refusal: the form has no `files` field (HTTP 400). */
  datatype UploadError = MissingFiles

  /** The `folder` form field after `strip()`, with a '/' appended when it
      is non-empty and does not already end in one. */
  function NormalizeFolder(raw: string): (folder: string)
    ensures folder == [] <==> Strip(raw) == []
    ensures folder == [] || folder[|folder| - 1] == '/'
    ensures folder == Strip(raw) || folder[..|folder| - 1] == Strip(raw)
    ensures EndsWith(Strip(raw), "/") ==> folder == Strip(raw)
  {
    var folder := Strip(raw);
    if folder != [] && !EndsWith(folder, "/") then folder + "/" else folder
  }

  /** A normalised folder has no whitespace at either end. */
  lemma NormalizedIsStripped(raw: string)
    ensures Strip(NormalizeFolder(raw)) == NormalizeFolder(raw)
  {
    var folder := NormalizeFolder(raw);
    var t := Strip(raw);
    assert folder != [] ==> !IsSpace(folder[0]) && !IsSpace(folder[|folder| - 1]) by {
      if folder != [] {
        assert t != [] && folder[0] == t[0];
      }
    }
    StripTrimmed(folder);
  }

  /** Normalising an already normalised folder changes nothing. */
  lemma NormalizeIdempotent(raw: string)
    ensures NormalizeFolder(NormalizeFolder(raw)) == NormalizeFolder(raw)
  {
    var folder := NormalizeFolder(raw);
    NormalizedIsStripped(raw);
    assert folder == [] || folder[|folder| - 1] == '/';
    NormalizedIsFixed(folder);
  }

  lemma NormalizedIsFixed(folder: string)
    requires Strip(folder) == folder
    requires folder == [] || folder[|folder| - 1] == '/'
    ensures NormalizeFolder(folder) == folder
  {
    if folder != [] {
      assert folder[|folder| - 1..] == "/";
    }
  }

  /** `filename.lower().endswith(".txt")`. */
  predicate IsTextFile(name: string)
  {
    EndsWith(Lower(name), ".txt")
  }

  /** A name is a text file exactly when its last four characters spell
      ".txt" in any mix of letter case. */
  lemma TextFileByExtension(name: string)
    ensures IsTextFile(name)
        <==> |name| >= 4
             && name[|name| - 4] == '.'
             && name[|name| - 3] in "tT"
             && name[|name| - 2] in "xX"
             && name[|name| - 1] in "tT"
  {
    if |name| >= 4 {
      var n := |name|;
      var low := Lower(name);
      assert low[n - 4..] == [low[n - 4], low[n - 3], low[n - 2], low[n - 1]];
      assert low[n - 4] == LowerChar(name[n - 4]);
      assert low[n - 3] == LowerChar(name[n - 3]);
      assert low[n - 2] == LowerChar(name[n - 2]);
      assert low[n - 1] == LowerChar(name[n - 1]);
    }
  }

  /** The upload loop: the key `folder + filename` for every text file, in
      request order; other files are skipped. */
  function KeysFor(folder: string, names: seq<string>): (keys: seq<string>)
    ensures |keys| <= |names|
    ensures forall i :: 0 <= i < |keys| ==>
              StartsWith(keys[i], folder)
              && keys[i][|folder|..] in names
              && IsTextFile(keys[i][|folder|..])
    ensures forall n :: n in names && IsTextFile(n) ==> folder + n in keys
    decreases |names|
  {
    if |names| == 0 then []
    else
      var rest := KeysFor(folder, names[1..]);
      assert names == [names[0]] + names[1..];
      assert (folder + names[0])[|folder|..] == names[0];
      if IsTextFile(names[0]) then [folder + names[0]] + rest else rest
  }

  /** Keys follow the order of the request: the files of a longer request
      give the keys of its first part followed by those of the rest, and a
      single file gives its key exactly when it is a text file. */
  lemma {:induction false} KeysInRequestOrder(folder: string, a: seq<string>, b: seq<string>)
    ensures KeysFor(folder, a + b) == KeysFor(folder, a) + KeysFor(folder, b)
    ensures |a| == 1 ==>
              KeysFor(folder, a) == if IsTextFile(a[0]) then [folder + a[0]] else []
    decreases |a|
  {
    if |a| > 0 {
      assert (a + b)[1..] == a[1..] + b;
      KeysInRequestOrder(folder, a[1..], b);
    } else {
      assert a + b == b;
    }
  }

  /** The `/upload` handler: the keys it stores for the `folder` field and
      the filenames under the `files` field, or the refusal when that field
      is absent. */
  function UploadKeys(rawFolder: string, files: Option<seq<string>>): (r: Result<seq<string>, UploadError>)
    ensures files.None? <==> r.Failure?
    ensures files.None? ==> r == Failure(MissingFiles)
    ensures r.Success? ==> forall i :: 0 <= i < |r.value| ==>
              StartsWith(r.value[i], NormalizeFolder(rawFolder))
              && IsTextFile(r.value[i][|NormalizeFolder(rawFolder)|..])
              && r.value[i][|NormalizeFolder(rawFolder)|..] in files.value
    ensures r.Success? ==> forall n :: n in files.value && IsTextFile(n) ==>
              NormalizeFolder(rawFolder) + n in r.value
  {
    var folder := NormalizeFolder(rawFolder);
    match files
    case None => Failure(MissingFiles)
    case Some(names) => Success(KeysFor(folder, names))
  }

  /** After an upload into a non-empty folder, the folder listing of any
      bucket holding one of the uploaded keys shows that folder (without
      its trailing '/'). */
  lemma UploadedFolderIsListed(rawFolder: string, names: seq<string>, listing: seq<string>)
    ensures var folder := NormalizeFolder(rawFolder);
            forall key :: key in UploadKeys(rawFolder, Some(names)).value && key in listing && folder != [] ==>
              folder[..|folder| - 1] in Folders.Folders(listing)
  {
    var folder := NormalizeFolder(rawFolder);
    var keys := UploadKeys(rawFolder, Some(names)).value;
    forall key | key in keys && key in listing && folder != []
      ensures folder[..|folder| - 1] in Folders.Folders(listing)
    {
      var i :| 0 <= i < |keys| && keys[i] == key;
      assert StartsWith(key, folder);
      ListedFolderOfKey(folder, key, listing);
    }
  }

  /** A key in the bucket that starts with a '/'-terminated folder puts
      that folder in the listing. */
  lemma ListedFolderOfKey(folder: string, key: string, listing: seq<string>)
    requires folder != [] && folder[|folder| - 1] == '/'
    requires StartsWith(key, folder) && key in listing
    ensures folder[..|folder| - 1] in Folders.Folders(listing)
  {
    assert key[|folder| - 1] == '/';
    assert key[..|folder| - 1] == folder[..|folder| - 1];
    assert folder[..|folder| - 1] in Folders.FolderSet(listing);
    assert folder[..|folder| - 1] in Order.Elems(Folders.Folders(listing));
  }
}
