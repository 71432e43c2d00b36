/** vfs.c as it runs: the list of mounted filesystems and the list of open files. */
module Vfs {
  import opened Bytes
  import opened Trees
  import opened Paths
  import opened RamFiles
  import opened VfsState

  /** file_t */
  class OpenFile {
    var fileNum: FileNum
    var pos: int
    var filesystem: FileSystem?
    var nextFile: OpenFile?

    constructor ()
      ensures pos == 0 && nextFile == null
    {
      fileNum, pos, filesystem, nextFile := Ram(null), 0, null, null;
    }

    ghost function Value(): FileValue
      reads this
    {
      FileValue(fileNum, pos, filesystem)
    }
  }

  class FileTable {
    const ram: RamFs
    var rootFS: FileSystem
    var rootFile: OpenFile
    ghost var systems: seq<FileSystem>
    ghost var mounts: seq<Name>
    ghost var files: seq<OpenFile>

    /** Both lists hang together from their first record; the first open file
        record is a sentinel, and `mounts` leaves out the root's mount point. */
    ghost predicate Linked()
      reads this, systems, files
    {
      && |systems| > 0 && rootFS == systems[0] && |files| > 0 && rootFile == files[0]
      && (forall i {:trigger systems[i].nextFS} :: 0 <= i < |systems| ==>
        systems[i].nextFS == (if i + 1 < |systems| then systems[i + 1] else null))
      && (forall i {:trigger files[i].nextFile} :: 0 <= i < |files| ==>
        files[i].nextFile == (if i + 1 < |files| then files[i + 1] else null))
      && |mounts| == |systems| - 1 && (forall k :: 0 <= k < |mounts| ==> mounts[k] == systems[k + 1].mountpoint)
      && (forall i, j :: 0 <= i < j < |systems| ==> systems[i] != systems[j])
      && (forall i, j :: 0 <= i < j < |files| ==> files[i] != files[j])
    }

    /** The abstract state. */
    ghost function State(): VState
      reads this, files, ram, ram.home.Keys, ram.owner.Keys
    {
      VState(ram.tree, ram.Content(), systems, mounts, Values())
    }

    ghost function Values(): (vs: seq<FileValue>)
      reads this`files, files
      ensures |vs| == |files| && forall i :: 0 <= i < |files| ==> vs[i] == files[i].Value()
    {
      var fs := files;
      seq(|fs|, i requires 0 <= i < |fs| reads fs => fs[i].Value())
    }

    lemma StateParts()
      ensures State().systems == systems && State().mounts == mounts && State().tree == ram.tree
    {
    }

    /** Both lists and the ramfs are in order; every state of a run is consistent. */
    ghost predicate Valid()
      reads this, systems, files, ram, ram.home.Keys
    {
      Linked() && ram.Valid()
    }

    lemma ValidState()
      requires Valid()
      ensures Consistent(State())
    {
      ram.FilesStocked();
      hide RamFs.Content;
    }

    /** initVFS: a fresh ramfs, its filesystem, and the sentinel. */
    static method InitVFS(mountpoint: Name) returns (table: FileTable)
      ensures fresh(table) && table.Valid() && AtStart(table.State())
    {
      hide Consistent, RamFs.Valid, RamFs.Content, FileTable.Linked;
      var ram := new RamFs();
      ram.NoContents();
      table := new FileTable(ram, mountpoint);
      table.ValidState();
    }

    /** registerRootFS, and the sentinel of initVFS. */
    constructor (ram: RamFs, mountpoint: Name)
      ensures Linked() && |systems| == 1 && |files| == 1 && fresh(systems[0]) && fresh(files[0])
      ensures this.ram == ram && systems[0].mountpoint == mountpoint
    {
      this.ram := ram;
      var fs := new FileSystem(mountpoint);
      var sentinel := new OpenFile();
      rootFS, rootFile, systems, mounts, files := fs, sentinel, [fs], [], [sentinel];
    }

    /** registerFS appends. */
    method RegisterFS(mountpoint: Name)
      requires Valid()
      modifies this`systems, this`mounts, systems
      ensures Valid() && Next(old(State()), VOp.Register(mountpoint), State())
    {
      hide Linked, RamFs.Valid, RamFs.Content, Values;
      AppendFS(mountpoint);
    }

    method AppendFS(mountpoint: Name)
      requires Linked()
      modifies this`systems, this`mounts, systems
      ensures Linked() && |systems| == |old(systems)| + 1 && systems == old(systems) + [systems[|old(systems)|]]
      ensures mounts == old(mounts) + [mountpoint]
    {
      var newFS := new FileSystem(mountpoint);
      var currentFS := rootFS;
      ghost var i := 0;
      while currentFS.nextFS != null
        invariant i < |systems| && currentFS == systems[i]
        decreases |systems| - i
      {
        currentFS := currentFS.nextFS;
        i := i + 1;
      }
      currentFS.nextFS := newFS;
      systems, mounts := systems + [newFS], mounts + [mountpoint];
    }

    /** The inner loop of open: the first registered system mounted at `prefix`. */
    method FindMount(prefix: Name) returns (fs: FileSystem?, ghost k: nat)
      requires Linked() && |systems| > 1
      ensures k <= |mounts| && (forall k' :: 0 <= k' < k ==> mounts[k'] != prefix)
      ensures if fs == null then k == |mounts| else k < |mounts| && fs == systems[k + 1] && mounts[k] == prefix
    {
      var currentFS := rootFS;
      k := 0;
      while true
        invariant k + 1 < |systems| && currentFS == systems[k]
        invariant forall k' :: 0 <= k' < k ==> mounts[k'] != prefix
        decreases |systems| - k
      {
        assert systems[k].nextFS == systems[k + 1];
        currentFS := currentFS.nextFS;
        assert mounts[k] == currentFS.mountpoint;
        if currentFS.mountpoint == prefix {
          return currentFS, k;
        }
        k := k + 1;
        assert systems[k].nextFS == if k + 1 < |systems| then systems[k + 1] else null;
        if currentFS.nextFS == null { break; }
      }
      fs := null;
    }

    /** The outer loop of open: backwards over the name, cutting it at each slash. */
    method SelectFS(filename: seq<Byte>) returns (fs: FileSystem)
      requires Linked() && 0 !in filename
      requires |systems| > 1 || (forall i :: 1 <= i < |filename| ==> filename[i] != SLASH)
      ensures Selected(systems, mounts, fs, filename)
    {
      Lengths();
      hide Linked, Matches, Chosen, NoMatchAfter;
      var n := |filename|;
      var temp := CopyName(filename);
      var i := n;
      NoMatchAtEnd(mounts, filename);
      while i > 0
        invariant 0 <= i <= n && (forall j :: 0 <= j < i ==> temp[j] == filename[j])
        invariant temp[i] == if i < n then filename[i] else 0
        invariant Linked() && NoMatchAfter(mounts, filename, i)
      {
        if temp[i] == SLASH {
          temp[i] := 0;
          assert temp[..i] == filename[..i];
          var mounted, m := FindMount(temp[..i]);
          if mounted != null {
            ChosenHere(mounts, filename, i, m);
            return mounted;
          }
        }
        NoMatchHere(mounts, filename, i);
        i := i - 1;
      }
      fs := rootFS;
    }

    /** A copy of the name that open may cut up. */
    method CopyName(filename: seq<Byte>) returns (temp: array<Byte>)
      ensures fresh(temp) && temp.Length == |filename| + 1 && temp[|filename|] == 0
      ensures forall j :: 0 <= j < |filename| ==> temp[j] == filename[j]
    {
      temp := new Byte[|filename| + 1];
      for i := 0 to |filename|
        invariant forall j :: 0 <= j < i ==> temp[j] == filename[j]
      {
        temp[i] := filename[i];
      }
      temp[|filename|] := 0;
    }

    lemma Lengths()
      requires Linked()
      ensures |systems| > 0 && |mounts| == |systems| - 1 && rootFS == systems[0] && |files| > 0
    {
    }

    // ------------------------------------------------------------ open files

    /** open: the record goes last, and its descriptor is its place in the list.
        `number` is what a driver's fsOpen would return. */
    method Open(filename: seq<Byte>, number: int) returns (fd: nat)
      requires Valid() && filename != [] && 0 !in filename
      requires |systems| > 1 || (forall i :: 1 <= i < |filename| ==> filename[i] != SLASH)
      requires forall name :: name in Components(filename) ==> |name| <= NAME_MAX
      modifies this`files, files
      ensures Valid() && fd == |old(files)| && |files| == fd + 1 && files[..fd] == old(files) && fresh(files[fd])
      ensures Next(old(State()), VOp.Open(filename, number), State())
    {
      hide Linked, RamFs.Valid, RamFs.Content, Components, Values, OpenedAs, Next;
      ghost var s := State();
      var newFile := OpenRecord(filename, number);
      ghost var f := newFile.Value();
      fd := AppendFile(newFile);
      OpenNext(s, f, filename, number);
    }

    /** The new record: the chosen filesystem opens the file. */
    method OpenRecord(filename: seq<Byte>, number: int) returns (newFile: OpenFile)
      requires Valid() && filename != [] && 0 !in filename
      requires |systems| > 1 || (forall i :: 1 <= i < |filename| ==> filename[i] != SLASH)
      requires forall name :: name in Components(filename) ==> |name| <= NAME_MAX
      ensures fresh(newFile) && newFile.nextFile == null && OpenedAs(State(), newFile.Value(), filename, number)
    {
      Lengths();
      hide Linked, RamFs.Valid, RamFs.Content, Selected, Components, ResolvePath, Values, OpenedAs;
      hide State;
      newFile := new OpenFile();
      var fs := SelectFS(filename);
      newFile.filesystem := fs;
      newFile.fileNum := FsOpen(fs, filename, number);
      StateParts();
      WasOpened(State(), newFile.Value(), filename, number);
    }

    /** The filesystem's own open: findDir for the root one. */
    method FsOpen(fs: FileSystem, filename: seq<Byte>, number: int) returns (fileNum: FileNum)
      requires ram.Valid() && filename != [] && 0 !in filename
      requires forall name :: name in Components(filename) ==> |name| <= NAME_MAX
      ensures if fs == rootFS then fileNum.Ram? && RamFs.Returned(fileNum.entry, ResolvePath(ram.tree, filename))
        else fileNum == Driver(number)
    {
      hide Components, ResolvePath;
      if fs == rootFS {
        var entry := ram.FindDir(filename);
        return Ram(entry);
      }
      fileNum := Driver(number);
    }

    method AppendFile(newFile: OpenFile) returns (fd: nat)
      requires Linked() && newFile !in files && newFile.nextFile == null
      modifies this`files, files
      ensures Linked() && files == old(files) + [newFile] && fd == |old(files)|
      ensures Values() == old(Values()) + [old(newFile.Value())]
    {
      var currentFile := rootFile;
      fd := 1;
      while currentFile.nextFile != null
        invariant 1 <= fd <= |files| && currentFile == files[fd - 1]
        decreases |files| - fd
      {
        fd := fd + 1;
        currentFile := currentFile.nextFile;
      }
      currentFile.nextFile := newFile;
      files := files + [newFile];
    }

    /** Where seek gets from the sentinel in `fd` steps. */
    method SeekNode(fd: nat) returns (f: OpenFile)
      requires Linked() && fd < |files|
      ensures f == files[fd]
    {
      f := rootFile;
      for i := 0 to fd
        invariant f == files[i]
      {
        assert files[i].nextFile == files[i + 1];
        f := f.nextFile;
      }
    }

    /** Where read gets from the first open file in `fd - 1` steps. */
    method ReadNode(fd: nat) returns (f: OpenFile)
      requires Linked() && fd < |files| && |files| > 1
      ensures f == files[if fd == 0 then 1 else fd]
    {
      assert files[0].nextFile == files[1];
      f := rootFile.nextFile;
      var i := 1;
      while i < fd
        invariant 1 <= i < |files| && (i <= fd || i == 1) && f == files[i]
      {
        assert files[i].nextFile == files[i + 1];
        f := f.nextFile;
        i := i + 1;
      }
    }

    /** Descriptor 0 means different records to seek and to read. */
    method DescriptorZero() returns (sought: OpenFile, read: OpenFile)
      requires Linked() && |files| > 1
      ensures sought == files[0] && read == files[1] && sought != read
    {
      sought := SeekNode(0);
      read := ReadNode(0);
    }

    /** seek: one position changes. */
    method Seek(fd: nat, pos: int)
      requires Valid() && fd < |files|
      modifies files
      ensures Valid() && Next(old(State()), VOp.Seek(fd, pos), State())
    {
      hide Linked, RamFs.Valid, RamFs.Content, Values;
      SetPosition(fd, pos);
    }

    method SetPosition(fd: nat, pos: int)
      requires Linked() && fd < |files|
      modifies files
      ensures Linked() && Values() == old(Values())[fd := old(Values())[fd].(pos := pos)]
    {
      var f := SeekNode(fd);
      f.pos := pos;
    }

    /** read of a ramfs file; -1 without open files. Reading moves no position. */
    method Read(fd: nat, count: nat, buf: array<Byte>) returns (status: int)
      requires Valid() && fd < |files| && count <= buf.Length && buf !in ram.owner
      requires |files| > 1 ==> Readable(State(), fd, count)
      modifies buf
      ensures Valid() && buf[count..] == old(buf[count..])
      ensures |files| == 1 ==> status == -1 && buf[..count] == old(buf[..count])
      ensures |files| > 1 ==> status == 0 && Next(old(State()), VOp.Read(fd, buf[..count]), State())
    {
      NoOpenFile();
      hide Linked, RamFs.Valid, RamFs.Content, State, Next, Readable;
      if rootFile.nextFile == null {
        return -1;
      }
      ReadOpenFile(fd, count, buf);
      status := 0;
    }

    method ReadOpenFile(fd: nat, count: nat, buf: array<Byte>)
      requires Valid() && fd < |files| && |files| > 1 && count <= buf.Length && buf !in ram.owner
      requires Readable(State(), fd, count)
      modifies buf
      ensures Valid() && buf[count..] == old(buf[count..])
      ensures Next(old(State()), VOp.Read(fd, buf[..count]), State())
    {
      StateFile(ReadRecord(fd));
      hide Linked, RamFs.Valid, RamFs.Content, State, Next;
      ghost var s := State();
      var f := ReadNode(fd);
      ReadRamFile(f, count, buf);
      ReadNext(s, fd, buf[..count]);
    }

    /** The root filesystem's read. */
    method ReadRamFile(f: OpenFile, count: nat, buf: array<Byte>)
      requires ram.Valid() && f.fileNum.Ram? && f.fileNum.entry != null && f.fileNum.entry in ram.Content()
      requires 0 <= f.pos && f.pos + count <= |ram.Content()[f.fileNum.entry]|
      requires count <= buf.Length && buf !in ram.owner
      modifies buf
      ensures ram.Valid() && ram.Content() == old(ram.Content()) && buf[count..] == old(buf[count..])
      ensures buf[..count] == ram.Content()[f.fileNum.entry][f.pos..f.pos + count]
    {
      ram.ContentOf(f.fileNum.entry);
      hide RamFs.Valid, RamFs.Content;
      ram.ReadFS(f.fileNum.entry, count, buf, f.pos);
    }

    lemma StateFile(k: nat)
      ensures |State().files| == |files| && State().content == ram.Content()
      ensures k < |files| ==> State().files[k] == files[k].Value()
    {
    }

    lemma NoOpenFile()
      requires Linked()
      ensures rootFile.nextFile == null <==> |files| == 1
    {
      assert |files| > 1 ==> files[0].nextFile == files[1];
    }

    // ------------------------------------------------------ growing the ramfs

    /** writeFS on what openFS returned for a path. */
    method Write(path: seq<Byte>, data: seq<Byte>)
      requires Valid() && path != [] && 0 !in path && ResolvePath(ram.tree, path).AtFile? && |data| <= BLOCK
      requires forall name :: name in Components(path) ==> |name| <= NAME_MAX
      modifies ResolvePath(ram.tree, path).entry.block
      ensures Valid() && Next(old(State()), VOp.Write(path, data), State())
    {
      hide Linked, RamFs.Valid, RamFs.Content, ResolvePath, Components, Overwritten, Values;
      ram.WritePath(path, data);
    }

    method MkDir(parent: seq<Byte>, name: Name) returns (ghost dot: Entry, ghost dotdot: Entry, ghost entry: Entry)
      requires Valid() && parent != [] && 0 !in parent && ResolvePath(ram.tree, parent).AtDir?
      requires forall n :: n in Components(parent) ==> |n| <= NAME_MAX
      modifies ram`tree, ram`home, ram`owner, ram.home.Keys
      ensures Valid() && Next(old(State()), VOp.MkDir(parent, name, dot, dotdot, entry), State())
    {
      hide Linked, RamFs.Valid, RamFs.Content, ResolvePath, Components, AddDir, Values;
      dot, dotdot, entry := ram.MkDir(parent, name);
    }

    method MkFile(parent: seq<Byte>, name: Name) returns (ghost entry: Entry)
      requires Valid() && parent != [] && 0 !in parent && ResolvePath(ram.tree, parent).AtDir?
      requires forall n :: n in Components(parent) ==> |n| <= NAME_MAX
      modifies ram`tree, ram`home, ram`owner, ram.home.Keys
      ensures Valid() && Next(old(State()), VOp.MkFile(parent, name, entry), State())
    {
      hide Linked, RamFs.Valid, RamFs.Content, ResolvePath, Components, AddFile, Values;
      entry := ram.MkFile(parent, name);
    }

    /** A client: any writes to an open ramfs file, then seek and read. */
    method WriteSeekRead(fd: nat, writes: seq<seq<Byte>>, pos: nat, count: nat, buf: array<Byte>) returns (status: int)
      requires Valid() && 1 <= fd < |files| && count <= buf.Length && pos + count <= BLOCK && buf !in ram.owner
      requires files[fd].fileNum.Ram? && files[fd].fileNum.entry != null && files[fd].fileNum.entry in ram.Content()
      requires forall w :: w in writes ==> |w| <= BLOCK
      modifies files, files[fd].fileNum.entry.block, buf
      ensures Valid() && status == 0 && |old(ram.Content())[old(files[fd].fileNum.entry)]| == BLOCK
      ensures buf[..count] == AfterWrites(old(ram.Content())[old(files[fd].fileNum.entry)], writes)[pos..pos + count]
    {
      StateFile(fd);
      hide Linked, RamFs.Valid, RamFs.Content, Values, AfterWrites;
      var f := SeekNode(fd);
      ghost var e: Entry := f.fileNum.entry;
      ram.ContentOf(e);
      WriteMany(f.fileNum.entry, writes);
      SetPosition(fd, pos);
      StateFile(fd);
      status := Read(fd, count, buf);
    }

    method WriteMany(e: Entry, writes: seq<seq<Byte>>)
      requires ram.Valid() && e in ram.Content() && |ram.Content()[e]| == BLOCK
      requires forall w :: w in writes ==> |w| <= BLOCK
      modifies e.block
      ensures ram.Valid() && ram.Content() == old(ram.Content())[e := AfterWrites(old(ram.Content())[e], writes)]
      decreases |writes|
    {
      ghost var c := ram.Content();
      FirstWrite(c, e, writes);
      hide RamFs.Valid, RamFs.Content, AfterWrites, Overwritten;
      if writes != [] {
        ram.WriteAll(e, writes[0]);
        WriteMany(e, writes[1..]);
      }
    }
  }

  lemma WasOpened(s: VState, f: FileValue, filename: seq<Byte>, number: int)
    requires |s.systems| > 0 && f.pos == 0 && Selected(s.systems, s.mounts, f.filesystem, filename)
    requires if f.filesystem == s.systems[0]
      then f.fileNum.Ram? && RamFs.Returned(f.fileNum.entry, ResolvePath(s.tree, filename))
      else f.fileNum == Driver(number)
    ensures OpenedAs(s, f, filename, number)
  {
  }

  lemma FirstWrite(c: map<Entry, seq<Byte>>, e: Entry, writes: seq<seq<Byte>>)
    requires e in c && forall w :: w in writes ==> |w| <= |c[e]|
    ensures c[e := AfterWrites(c[e], writes)] ==
      if writes == [] then c
      else c[e := Overwritten(c[e], writes[0])][e := AfterWrites(Overwritten(c[e], writes[0]), writes[1..])]
  {
  }
}
