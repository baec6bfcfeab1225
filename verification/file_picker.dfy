/** The pure parts of the emulator's file picker: choosing the storage root
    a starting path lies under (`nearestRootLocation`) and deciding which
    directory entries the picker lists (its `FilterFunc` lambdas).

    The platform's root locations and the archive-extension test are
    inputs; a C path that may be null is an `Option`. */
module FilePicker {
  import opened Wrappers

  /** `FS::RootPathInfo`: the display name of a root and how many leading
      characters of a path it covers. */
  datatype RootPathInfo = RootPathInfo(name: string, length: nat)

  /** A value-initialised `RootPathInfo`, meaning "no root". */
  const NoRoot := RootPathInfo("", 0)

  /** `FS::PathLocation`: a root's directory path and its root description. */
  datatype PathLocation = PathLocation(path: string, root: RootPathInfo)

  /** `strstr(path, l.path) == path`: the first occurrence of the location's
      path in `path` is at its start, i.e. the location's path is a prefix. */
  predicate StartsWith(path: string, l: PathLocation)
  {
    l.path <= path
  }

  /** Location `i` is the one chosen for `path`: it is a prefix match covering
      some characters, no prefix match covers more, and every earlier prefix
      match covers fewer (ties go to the earliest). */
  predicate IsNearest(path: string, locs: seq<PathLocation>, i: int)
  {
    && 0 <= i < |locs|
    && StartsWith(path, locs[i])
    && locs[i].root.length > 0
    && (forall j :: 0 <= j < |locs| && StartsWith(path, locs[j]) ==> locs[j].root.length <= locs[i].root.length)
    && (forall j :: 0 <= j < i && StartsWith(path, locs[j]) ==> locs[j].root.length < locs[i].root.length)
  }

  /** No prefix match covers any character. */
  predicate NoCoveringMatch(path: string, locs: seq<PathLocation>)
  {
    forall j :: 0 <= j < |locs| && StartsWith(path, locs[j]) ==> locs[j].root.length == 0
  }

  /** `nearestRootLocation`: the root of the first location whose path starts
      `path` and whose root length is strictly the largest, or no root when
      the path is null or no such location covers a character. */
  method NearestRootLocation(path: Option<string>, locs: seq<PathLocation>) returns (r: RootPathInfo)
    ensures path.None? ==> r == NoRoot
    ensures path.Some? && NoCoveringMatch(path.value, locs) ==> r == NoRoot
    ensures path.Some? && !NoCoveringMatch(path.value, locs) ==>
      exists i :: IsNearest(path.value, locs, i) && r == locs[i].root
  {
    if path.None? {
      return NoRoot;
    }
    var p := path.value;
    var nearest := -1;
    var lastMatchOffset: nat := 0;
    for k := 0 to |locs|
      invariant nearest == -1 <==> lastMatchOffset == 0
      invariant nearest != -1 ==>
        && 0 <= nearest < k
        && StartsWith(p, locs[nearest])
        && locs[nearest].root.length == lastMatchOffset
        && (forall j :: 0 <= j < nearest && StartsWith(p, locs[j]) ==> locs[j].root.length < lastMatchOffset)
      invariant forall j :: 0 <= j < k && StartsWith(p, locs[j]) ==> locs[j].root.length <= lastMatchOffset
    {
      var l := locs[k];
      if !StartsWith(p, l) {
        continue;
      }
      var matchOffset := l.root.length;
      if matchOffset > lastMatchOffset {
        nearest := k;
        lastMatchOffset := matchOffset;
      }
    }
    if lastMatchOffset == 0 {
      return NoRoot;
    }
    assert IsNearest(p, locs, nearest);
    return RootPathInfo(locs[nearest].root.name, locs[nearest].root.length);
  }

  /** At most one location is the nearest, so the chosen root is determined. */
  lemma NearestIsUnique(path: string, locs: seq<PathLocation>, i: int, j: int)
    requires IsNearest(path, locs, i) && IsNearest(path, locs, j)
    ensures i == j
  {
  }

  /** A longer root never loses: if some prefix match covers more than
      location `i`, then `i` is not the nearest. */
  lemma LongerMatchWins(path: string, locs: seq<PathLocation>, i: int, j: int)
    requires 0 <= j < |locs| && StartsWith(path, locs[j])
    requires 0 <= i < |locs| && locs[i].root.length < locs[j].root.length
    ensures !IsNearest(path, locs, i)
  {
  }

  /** The kind of a directory entry, as far as the filter is concerned. */
  datatype EntryType = Directory | OtherType

  datatype DirEntry = DirEntry(name: string, entryType: EntryType)

  /** The filter the picker is built with: in directory-picking mode it lists
      only directories; otherwise it lists directories (unless confined to one
      directory), archives when the system cannot open them itself, and what
      the system's name filter accepts. */
  function AcceptEntry(
    pickingDir: bool, singleDir: bool, handlesArchiveFiles: bool,
    hasArchiveExtension: string -> bool, filter: Option<string -> bool>,
    entry: DirEntry): (accept: bool)
    ensures pickingDir ==> (accept <==> entry.entryType == Directory)
    ensures !pickingDir ==> (accept <==>
      || (!singleDir && entry.entryType == Directory)
      || (!handlesArchiveFiles && hasArchiveExtension(entry.name))
      || (filter.Some? && filter.value(entry.name)))
  {
    if pickingDir then
      entry.entryType == Directory
    else if !singleDir && entry.entryType == Directory then
      true
    else if !handlesArchiveFiles && hasArchiveExtension(entry.name) then
      true
    else if filter.Some? then
      filter.value(entry.name)
    else
      false
  }

  /** Outside single-directory mode, every directory is listed whatever the
      name filter says, so the user can always navigate. */
  lemma DirectoriesAlwaysListed(
    pickingDir: bool, singleDir: bool, handlesArchiveFiles: bool,
    hasArchiveExtension: string -> bool, filter: Option<string -> bool>,
    entry: DirEntry)
    requires entry.entryType == Directory && (pickingDir || !singleDir)
    ensures AcceptEntry(pickingDir, singleDir, handlesArchiveFiles, hasArchiveExtension, filter, entry)
  {
  }

  /** In file mode, with no name filter and archives handled by the system,
      only directories can be listed, and only outside single-directory mode. */
  lemma NoFilterListsOnlyDirectories(
    singleDir: bool, hasArchiveExtension: string -> bool, entry: DirEntry)
    ensures AcceptEntry(false, singleDir, true, hasArchiveExtension, None, entry) <==>
      !singleDir && entry.entryType == Directory
  {
  }

  /** Adding a name filter only ever lists more entries in file mode. */
  lemma FilterOnlyAdds(
    singleDir: bool, handlesArchiveFiles: bool,
    hasArchiveExtension: string -> bool, f: string -> bool, entry: DirEntry)
    ensures AcceptEntry(false, singleDir, handlesArchiveFiles, hasArchiveExtension, None, entry) ==>
      AcceptEntry(false, singleDir, handlesArchiveFiles, hasArchiveExtension, Some(f), entry)
  {
  }
}
