/** The state of the virtual filesystem as a value, and the steps a run makes. */
module VfsState {
  import opened Bytes
  import opened Trees
  import opened Paths
  import opened RamFiles

  /** fs_t; the root filesystem is the ramfs, the others belong to drivers. */
  class FileSystem {
    const mountpoint: Name
    var nextFS: FileSystem?

    constructor (mountpoint: Name)
      ensures this.mountpoint == mountpoint && nextFS == null
    {
      this.mountpoint, nextFS := mountpoint, null;
    }
  }

  /** What fsOpen returned: a ramfs entry (-1 is null), or a driver's number. */
  datatype FileNum = Ram(entry: Entry?) | Driver(number: int)

  // --------------------------------------------------------- mount selection

  /** `name` up to a slash at `i` is the mount point of system `k`. */
  predicate Matches(mounts: seq<Name>, name: seq<Byte>, i: nat, k: nat) {
    0 < i < |name| && name[i] == SLASH && k < |mounts| && mounts[k] == name[..i]
  }

  /** The longest such prefix, and for it the system registered first. */
  ghost predicate Chosen(mounts: seq<Name>, name: seq<Byte>, i: nat, k: nat) {
    && Matches(mounts, name, i, k)
    && NoMatchAfter(mounts, name, i)
    && (forall k' :: 0 <= k' < k ==> !Matches(mounts, name, i, k'))
  }

  /** No slash after `i` ends the mount point of a registered system. */
  ghost predicate NoMatchAfter(mounts: seq<Name>, name: seq<Byte>, i: nat) {
    forall i': nat, k: nat :: i < i' ==> !Matches(mounts, name, i', k)
  }

  lemma NoMatchAtEnd(mounts: seq<Name>, name: seq<Byte>)
    ensures NoMatchAfter(mounts, name, |name|)
  {
  }

  lemma NoMatchHere(mounts: seq<Name>, name: seq<Byte>, i: nat)
    requires 0 < i <= |name| && NoMatchAfter(mounts, name, i)
    requires i < |name| && name[i] == SLASH ==> name[..i] !in mounts
    ensures NoMatchAfter(mounts, name, i - 1)
  {
  }

  lemma ChosenHere(mounts: seq<Name>, name: seq<Byte>, i: nat, k: nat)
    requires 0 < i < |name| && name[i] == SLASH && NoMatchAfter(mounts, name, i)
    requires k < |mounts| && mounts[k] == name[..i] && (forall k' :: 0 <= k' < k ==> mounts[k'] != name[..i])
    ensures Chosen(mounts, name, i, k)
  {
  }

  /** There is at most one choice. */
  lemma ChosenUnique(mounts: seq<Name>, name: seq<Byte>, i: nat, k: nat, i': nat, k': nat)
    requires Chosen(mounts, name, i, k) && Chosen(mounts, name, i', k')
    ensures i == i' && k == k'
  {
    assert Matches(mounts, name, i, k) && Matches(mounts, name, i', k');
  }

  /** The filesystem of the longest mount point that fits, the root one when none does. */
  ghost predicate Selected(systems: seq<FileSystem>, mounts: seq<Name>, fs: FileSystem?, filename: seq<Byte>) {
    || (exists i: nat, k: nat :: Chosen(mounts, filename, i, k) && k + 1 < |systems| && fs == systems[k + 1])
    || (NoMatchAfter(mounts, filename, 0) && |systems| > 0 && fs == systems[0])
  }

  /** The choice in plain terms: the root filesystem, or one mounted at the name up
      to a slash. Any system k' mounted at the name up to a slash at i' rules out the
      root, and has a shorter mount point than the chosen, or the same and came later. */
  lemma SelectedIsLongest(systems: seq<FileSystem>, mounts: seq<Name>, fs: FileSystem?, name: seq<Byte>,
                          k': nat, i': nat) returns (k: nat)
    requires |systems| == |mounts| + 1 && Selected(systems, mounts, fs, name)
    requires forall i, j :: 0 <= i < j < |systems| ==> systems[i] != systems[j]
    ensures fs != systems[0] ==>
      && k < |mounts| && fs == systems[k + 1] && 0 < |mounts[k]| < |name|
      && name[|mounts[k]|] == SLASH && mounts[k] == name[..|mounts[k]|]
    ensures k' < |mounts| && 0 < i' < |name| && name[i'] == SLASH && mounts[k'] == name[..i'] ==>
      fs != systems[0] && (i' < |mounts[k]| || (i' == |mounts[k]| && k <= k'))
  {
    k := 0;
    if i: nat, c: nat :| Chosen(mounts, name, i, c) && c + 1 < |systems| && fs == systems[c + 1] {
      k := c;
      assert Matches(mounts, name, i, k);
      if Matches(mounts, name, i', k') { assert i' <= i && (i' == i ==> k <= k'); }
    } else {
      assert !Matches(mounts, name, i', k');
    }
  }

  // ---------------------------------------------------------------- states

  /** The fields of an open file. */
  datatype FileValue = FileValue(fileNum: FileNum, pos: int, filesystem: FileSystem?)

  /** `content` holds the blocks of all files; `files` is the list of open files,
      a sentinel first; the root filesystem is the first of `systems`. */
  datatype VState = VState(
    tree: Tree,
    content: map<Entry, seq<Byte>>,
    systems: seq<FileSystem>,
    mounts: seq<Name>,
    files: seq<FileValue>)

  /** One call. The nodes made by mkDir and mkFile, and what a read or a driver
      returned, are part of the step. Write is writeFS on what openFS returned. */
  datatype VOp =
    | Open(filename: seq<Byte>, number: int)
    | Seek(fd: nat, pos: int)
    | Read(fd: nat, got: seq<Byte>)
    | Write(path: seq<Byte>, data: seq<Byte>)
    | MkDir(parent: seq<Byte>, name: Name, dot: Entry, dotdot: Entry, entry: Entry)
    | MkFile(parent: seq<Byte>, name: Name, entry: Entry)
    | Register(mountpoint: Name)

  /** What open leaves in a new record: the chosen filesystem opened the file. */
  ghost predicate OpenedAs(s: VState, f: FileValue, filename: seq<Byte>, number: int) {
    && f.pos == 0 && Selected(s.systems, s.mounts, f.filesystem, filename)
    && (if |s.systems| > 0 && f.filesystem == s.systems[0]
        then f.fileNum.Ram? && RamFs.Returned(f.fileNum.entry, ResolvePath(s.tree, filename))
        else f.fileNum == Driver(number))
  }

  /** The record read takes: it starts at the first open file. */
  function ReadRecord(fd: nat): nat { if fd == 0 then 1 else fd }

  /** The descriptor's file is in the ramfs and has `count` bytes at its position. */
  predicate Readable(s: VState, fd: nat, count: nat) {
    && ReadRecord(fd) < |s.files|
    && var f := s.files[ReadRecord(fd)];
    && f.fileNum.Ram? && f.fileNum.entry != null && f.fileNum.entry in s.content
    && 0 <= f.pos && f.pos + count <= |s.content[f.fileNum.entry]|
  }

  function ReadBytes(s: VState, fd: nat, count: nat): seq<Byte>
    requires Readable(s, fd, count)
  {
    var f := s.files[ReadRecord(fd)];
    s.content[f.fileNum.entry][f.pos..f.pos + count]
  }

  /** The steps. */
  ghost predicate Next(s: VState, op: VOp, s': VState) {
    match op
    case Open(filename, number) =>
      && |s'.files| == |s.files| + 1 && OpenedAs(s, s'.files[|s.files|], filename, number)
      && s' == s.(files := s.files + [s'.files[|s.files|]])
    case Seek(fd, pos) => fd < |s.files| && s' == s.(files := s.files[fd := s.files[fd].(pos := pos)])
    case Read(fd, got) => s' == s && Readable(s, fd, |got|) && got == ReadBytes(s, fd, |got|)
    case Write(path, data) =>
      var f := ResolvePath(s.tree, path);
      && f.AtFile? && f.entry in s.content && |data| <= |s.content[f.entry]|
      && s' == s.(content := s.content[f.entry := Overwritten(s.content[f.entry], data)])
    case MkDir(parent, name, dot, dotdot, entry) =>
      var f := ResolvePath(s.tree, parent);
      && f.AtDir? && f.dir in s.tree.dirs && f.dir in s.tree.rank && dot !in s.tree.dirs
      && s' == s.(tree := AddDir(s.tree, f.dir, name, dot, dotdot, entry))
    case MkFile(parent, name, entry) =>
      var f := ResolvePath(s.tree, parent);
      && f.AtDir? && f.dir in s.tree.dirs && entry !in s.content
      && entry in s'.content && |s'.content[entry]| == BLOCK
      && s' == s.(tree := AddFile(s.tree, f.dir, name, entry), content := s.content[entry := s'.content[entry]])
    case Register(mountpoint) =>
      && |s'.systems| == |s.systems| + 1
      && s' == s.(systems := s.systems + [s'.systems[|s.systems|]], mounts := s.mounts + [mountpoint])
  }

  lemma OpenNext(s: VState, f: FileValue, filename: seq<Byte>, number: int)
    requires OpenedAs(s, f, filename, number)
    ensures Next(s, VOp.Open(filename, number), s.(files := s.files + [f]))
  {
  }

  lemma ReadNext(s: VState, fd: nat, got: seq<Byte>)
    requires Readable(s, fd, |got|) && got == ReadBytes(s, fd, |got|)
    ensures Next(s, VOp.Read(fd, got), s)
  {
  }

  /** Every file of the tree has a block. */
  ghost predicate Stocked(t: Tree, content: map<Entry, seq<Byte>>) {
    forall d: Entry, i: nat {:trigger t.dirs[d][i]} :: d in t.dirs && i < |t.dirs[d]| && t.dirs[d][i].file ==>
      t.dirs[d][i].entry in content && |content[t.dirs[d][i].entry]| == BLOCK
  }

  ghost predicate Consistent(s: VState) {
    && WellFormed(s.tree) && Stocked(s.tree, s.content) && |s.files| > 0 && |s.systems| > 0
    && (forall e: Entry :: e in s.content ==> |s.content[e]| == BLOCK)
  }

  /** What initVFS leaves: the root directory alone, and the sentinel. */
  ghost predicate AtStart(s: VState) {
    && Consistent(s) && s.tree.dirs.Keys == {s.tree.root} && |s.tree.dirs[s.tree.root]| == 2
    && s.content == map[] && |s.systems| == 1 && |s.files| == 1
  }
}
