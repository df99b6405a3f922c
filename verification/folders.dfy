/** The folder listing of the `/folders` handler (app/app.py, `get_folders`):
    every object key contributes the folder prefixes in front of its file
    name, and the union of those prefixes is returned sorted. The paginated
    bucket listing that produces the keys is not modelled; the keys are an
    input. */
module Folders {
  import opened PyStr
  import opened Order

  /** `key.split("/")[:-1]`: the directory segments of a key, one per '/'. */
  function DirParts(key: string): (parts: seq<string>)
    ensures |parts| == multiset(key)['/']
  {
    SplitCount(key, '/');
    var all := Split(key, '/');
    all[..|all| - 1]
  }

  /** The folders a key lies in, read off the key itself: every prefix
      that a '/' immediately follows. */
  ghost function KeyFolders(key: string): set<string>
  {
    set j | 0 <= j < |key| && key[j] == '/' :: key[..j]
  }

  /** The folders of a whole listing, read off the keys themselves. */
  ghost function FolderSet(keys: seq<string>): set<string>
  {
    set k, j | k in keys && 0 <= j < |k| && k[j] == '/' :: k[..j]
  }

  /** The prefixes the handler joins for one key,
      `"/".join(parts[:i])` for `1 <= i <= len(parts)`. */
  ghost function JoinedPrefixes(parts: seq<string>, from: nat): set<string>
  {
    set n | from <= n <= |parts| :: Join('/', parts[..n])
  }

  /** The `n`-th joined prefix of a key is the prefix that its `n`-th '/'
      follows. */
  lemma JoinedPrefixIsFolder(key: string, n: nat)
    requires 1 <= n <= |DirParts(key)|
    ensures Join('/', DirParts(key)[..n]) in KeyFolders(key)
  {
    var all := Split(key, '/');
    var f := Join('/', DirParts(key)[..n]);
    assert DirParts(key)[..n] == all[..n];
    assert all == all[..n] + all[n..];
    JoinAppend('/', all[..n], all[n..]);
    JoinSplit(key, '/');
    assert key[..|f|] == f && key[|f|] == '/';
  }

  /** The prefix in front of a '/' of a key is one of its joined prefixes. */
  lemma FolderIsJoinedPrefix(key: string, j: nat)
    requires j < |key| && key[j] == '/'
    ensures key[..j] in JoinedPrefixes(DirParts(key), 1)
  {
    var all := Split(key, '/');
    var a, b := key[..j], key[j + 1..];
    assert key == a + ['/'] + b;
    SplitAround(a, b, '/');
    var n := |Split(a, '/')|;
    assert DirParts(key)[..n] == Split(a, '/');
    JoinSplit(a, '/');
  }

  /** The joined prefixes of a key's directory segments are exactly the
      prefixes of the key that a '/' follows: the file name after the last
      '/' never becomes a folder. */
  lemma JoinedPrefixesOfKey(key: string)
    ensures JoinedPrefixes(DirParts(key), 1) == KeyFolders(key)
  {
    forall n | 1 <= n <= |DirParts(key)| {
      JoinedPrefixIsFolder(key, n);
    }
    forall j | 0 <= j < |key| && key[j] == '/' {
      FolderIsJoinedPrefix(key, j);
    }
  }

  /** The inner loop: adds `"/".join(parts[:i])` for `i` from `from` up to
      `len(parts)` to the sorted folder list. */
  function AddPrefixes(acc: seq<string>, parts: seq<string>, from: nat): (r: seq<string>)
    requires StrictlyAscending(acc)
    requires 1 <= from
    ensures StrictlyAscending(r)
    ensures Elems(r) == Elems(acc) + JoinedPrefixes(parts, from)
    decreases |parts| + 1 - from
  {
    if from > |parts| then
      assert JoinedPrefixes(parts, from) == {};
      acc
    else
      var r := AddPrefixes(Insert(acc, Join('/', parts[..from])), parts, from + 1);
      assert JoinedPrefixes(parts, from)
          == {Join('/', parts[..from])} + JoinedPrefixes(parts, from + 1);
      r
  }

  /** The outer loop over the keys. */
  function AddKeys(acc: seq<string>, keys: seq<string>): (r: seq<string>)
    requires StrictlyAscending(acc)
    ensures StrictlyAscending(r)
    ensures Elems(r) == Elems(acc) + FolderSet(keys)
    decreases |keys|
  {
    if |keys| == 0 then acc
    else
      var r := AddKeys(AddPrefixes(acc, DirParts(keys[0]), 1), keys[1..]);
      JoinedPrefixesOfKey(keys[0]);
      FolderSetCons(keys);
      r
  }

  lemma FolderSetCons(keys: seq<string>)
    requires |keys| > 0
    ensures FolderSet(keys) == KeyFolders(keys[0]) + FolderSet(keys[1..])
  {
    assert forall k :: k in keys <==> k == keys[0] || k in keys[1..] by {
      assert keys == [keys[0]] + keys[1..];
    }
  }

  /** `sorted(prefixes)` for the listed keys: sorted, free of duplicates,
      and holding exactly the folders the keys lie in. */
  function Folders(keys: seq<string>): (folders: seq<string>)
    ensures StrictlyAscending(folders)
    ensures Elems(folders) == FolderSet(keys)
  {
    AddKeys([], keys)
  }

  /** A folder is listed exactly when it is `"/".join(parts[:i])` for some
      key, with `parts` the key's segments before its file name and
      `1 <= i <= len(parts)`. */
  lemma FoldersAreJoinedPrefixes(keys: seq<string>, f: string)
    ensures f in Folders(keys)
        <==> exists k :: k in keys && f in JoinedPrefixes(DirParts(k), 1)
  {
    assert f in Folders(keys) <==> f in Elems(Folders(keys));
    forall k | k in keys {
      JoinedPrefixesOfKey(k);
    }
    if f in Folders(keys) {
      var k, j :| k in keys && 0 <= j < |k| && k[j] == '/' && f == k[..j];
      assert f in KeyFolders(k);
    }
  }

  /** Every listed folder is followed by a '/' in some key, so the segment
      after a key's last '/' never makes a folder on its own. */
  lemma FolderPrecedesSlash(keys: seq<string>, f: string)
    requires f in Folders(keys)
    ensures exists k :: k in keys && StartsWith(k, f + "/")
  {
    assert f in Elems(Folders(keys));
    var k, j :| k in keys && 0 <= j < |k| && k[j] == '/' && f == k[..j];
    assert k[..|f + "/"|] == f + "/";
  }

  /** Prefix closure: the parent of a listed folder, everything before its
      last '/', is listed too. */
  lemma FoldersPrefixClosed(keys: seq<string>, f: string)
    requires f in Folders(keys)
    requires '/' in f
    ensures f[..RFind(f, '/')] in Folders(keys)
  {
    assert f in Elems(Folders(keys));
    var k, j :| k in keys && 0 <= j < |k| && k[j] == '/' && f == k[..j];
    var p := RFind(f, '/');
    assert k[p] == '/' && k[..p] == f[..p];
    assert f[..p] in FolderSet(keys);
    assert f[..p] in Elems(Folders(keys));
  }

  /** The listing depends on the set of keys only: reordering the keys or
      listing one twice changes nothing. */
  lemma FoldersDependOnKeySet(keys1: seq<string>, keys2: seq<string>)
    requires forall k :: k in keys1 <==> k in keys2
    ensures Folders(keys1) == Folders(keys2)
  {
    assert FolderSet(keys1) == FolderSet(keys2);
    AscendingUnique(Folders(keys1), Folders(keys2));
  }

  /** A key without any '/', the empty key included, adds no folder. */
  lemma FlatKeyAddsNothing(keys: seq<string>, key: string)
    requires '/' !in key
    ensures Folders(keys + [key]) == Folders(keys)
  {
    assert FolderSet(keys + [key]) == FolderSet(keys) by {
      assert forall k :: k in keys + [key] <==> k in keys || k == key;
    }
    AscendingUnique(Folders(keys + [key]), Folders(keys));
  }

  /** An empty listing has no folders. */
  lemma NoKeysNoFolders()
    ensures Folders([]) == []
  {
    assert Elems(Folders([])) == {};
    ElemsHead(Folders([]));
  }

  /** A sorted listing is pinned down by the folders it holds. */
  lemma ListingOf(keys: seq<string>, expected: seq<string>)
    requires StrictlyAscending(expected)
    requires FolderSet(keys) == Elems(expected)
    ensures Folders(keys) == expected
  {
    AscendingUnique(Folders(keys), expected);
  }

  /** Empty segments are kept: `"a//b"` lies in `"a"` and `"a/"`. */
  lemma EmptySegmentKept()
    ensures Folders(["a//b"]) == ["a", "a/"]
  {
    var k: string := "a//b";
    assert k[0] == 'a' && k[1] == '/' && k[2] == '/' && k[3] == 'b';
    assert FolderSet([k]) == {k[..1], k[..2]} by {
      forall f | f in FolderSet([k]) ensures f == k[..1] || f == k[..2] {
        var j :| 0 <= j < |k| && k[j] == '/' && f == k[..j];
      }
    }
    assert k[..1] == "a" && k[..2] == "a/";
    ListingOf([k], ["a", "a/"]);
  }

  /** A leading '/' puts a key in the empty folder. */
  lemma LeadingSlashGivesEmptyFolder()
    ensures Folders(["/x"]) == [""]
  {
    var k: string := "/x";
    assert k[0] == '/' && k[1] == 'x';
    assert FolderSet([k]) == {k[..0]} by {
      forall f | f in FolderSet([k]) ensures f == k[..0] {
        var j :| 0 <= j < |k| && k[j] == '/' && f == k[..j];
      }
    }
    ListingOf([k], [""]);
  }

  /** A trailing '/' closes a folder: `"a/b/"` lies in `"a"` and `"a/b"`. */
  lemma TrailingSlashClosesFolder()
    ensures Folders(["a/b/"]) == ["a", "a/b"]
  {
    var k: string := "a/b/";
    assert k[0] == 'a' && k[1] == '/' && k[2] == 'b' && k[3] == '/';
    assert FolderSet([k]) == {k[..1], k[..3]} by {
      forall f | f in FolderSet([k]) ensures f == k[..1] || f == k[..3] {
        var j :| 0 <= j < |k| && k[j] == '/' && f == k[..j];
      }
    }
    assert k[..1] == "a" && k[..3] == "a/b";
    ListingOf([k], ["a", "a/b"]);
  }
}
