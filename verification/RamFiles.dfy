/** ramfs.c as it runs: entry chains linked through the heap, and file blocks. */
module RamFiles {
  import opened Bytes
  import opened Trees
  import opened Paths

  const BLOCK := 2048
  const NAME_MAX := 24

  /** The place of an entry: which chain, which position. */
  datatype Place = Place(dir: Entry, index: nat)

  class RamFs {
    var rootDir: Entry
    ghost var tree: Tree
    ghost var home: map<Entry, Place>
    ghost var owner: map<array<Byte>, Entry>

    /** The root directory initramfs makes: its two dot entries lead to itself. */
    constructor ()
      ensures Valid() && fresh(home.Keys) && tree == Tree(rootDir, tree.dirs, map[rootDir := 0])
      ensures tree.dirs.Keys == {rootDir} && |tree.dirs[rootDir]| == 2 && owner == map[]
    {
      var root := new Entry(DOT, false);
      var up := new Entry(DOTDOT, false);
      root.extent, root.nextDir, up.extent := root, up, root;
      rootDir := root;
      tree := Tree(root, map[root := [Link(DOT, false, root, root), Link(DOTDOT, false, root, up)]], map[root := 0]);
      home := map[root := Place(root, 0), up := Place(root, 1)];
      owner := map[];
      new;
      assert HasDots(tree, root) && ParentOk(tree, root);
    }

    /** The entry at a place holds its link, and leads to the next in its chain. */
    ghost predicate Stored(d: Entry, i: nat)
      requires d in tree.dirs && i < |tree.dirs[d]|
      reads this, home.Keys
    {
      Holds(tree, home, owner, d, i, NextIn(tree, d, i, null))
    }

    ghost predicate Valid()
      reads this, home.Keys
    {
      && rootDir == tree.root && WellFormed(tree)
      && (forall e: Entry {:trigger Placed(tree, home, e)} :: e in home ==> Placed(tree, home, e))
      && (forall d: Entry, i: nat {:trigger Stored(d, i)} :: d in tree.dirs && i < |tree.dirs[d]| ==> Stored(d, i))
    }

    /** The blocks of all files. */
    ghost function Content(): map<Entry, seq<Byte>>
      reads this, home.Keys, owner.Keys
    {
      FileBytes(FieldsOf(home.Keys), BytesOf(owner.Keys))
    }

    lemma NoContents()
      requires owner == map[]
      ensures Content() == map[]
    {
    }

    /** What findDir returns for a place in the tree: -1 is null. */
    static predicate Returned(r: Entry?, f: Found) {
      match f
      case Missing => r == null
      case AtFile(e) => r == e
      case AtDir(d) => r == d
    }

    // -------------------------------------------------------------- lookups

    /** The loop along a chain, from directory `d`. */
    method FindName(d: Entry, name: Name) returns (e: Entry?)
      requires Valid() && d in tree.dirs
      ensures var c := tree.dirs[d];
        e == if Lookup(c, name) < |c| then c[Lookup(c, name)].entry else null
    {
      hide WellFormed, Lookup;
      ghost var c := tree.dirs[d];
      HeadOfChain(d);
      ghost var i := 0;
      e := d;
      while e != null && e.name != name
        invariant i <= |c| && e == (if i < |c| then c[i].entry else null)
        invariant forall k :: 0 <= k < i ==> c[k].name != name
        decreases |c| - i
      {
        assert Stored(d, i);
        e := e.nextDir;
        i := i + 1;
      }
      if i < |c| { assert Stored(d, i); }
      FirstMatch(c, name, i);
    }

    lemma HeadOfChain(d: Entry)
      requires Valid() && d in tree.dirs
      ensures |tree.dirs[d]| >= 2 && tree.dirs[d][0].entry == d && Stored(d, 0) && !d.file && d.extent == d
    {
      assert HasDots(tree, d) && Stored(d, 0);
    }

    /** The end of a chain, where mkDir and mkFile append. */
    method LastEntry(d: Entry) returns (e: Entry)
      requires Valid() && d in tree.dirs
      ensures |tree.dirs[d]| >= 2 && e == tree.dirs[d][|tree.dirs[d]| - 1].entry && e in home
    {
      hide WellFormed;
      ghost var c := tree.dirs[d];
      HeadOfChain(d);
      e := d;
      ghost var i := 0;
      while e.nextDir != null
        invariant i < |c| && e == c[i].entry
        decreases |c| - i
      {
        assert Stored(d, i);
        e := e.nextDir;
        i := i + 1;
      }
      assert Stored(d, i);
    }

    /** Look a component up: -1, the file's entry, or the directory it leads to. */
    method Descend(d: Entry, name: Name) returns (r: Entry?, stop: bool)
      requires Valid() && d in tree.dirs
      ensures Returned(r, Enter(tree, d, name)) && (stop <==> !Enter(tree, d, name).AtDir?)
      ensures !stop ==> r in tree.dirs
    {
      hide Lookup;
      var found := FindName(d, name);
      EnterStays(tree, d, name);
      if found == null {
        return null, true;
      }
      assert Stored(d, Lookup(tree.dirs[d], name));
      if found.file {
        return found, true;
      }
      return found.extent, false;
    }

    /** One turn of findDir's loop: take the next component and look it up. */
    method Turn(path: seq<Byte>, start: nat, dirName: array<Byte>, d: Entry)
      returns (i: nat, r: Entry?, stop: bool)
      requires Valid() && d in tree.dirs && start < |path| && dirName.Length == NAME_MAX + 1
      requires forall name :: name in Rest(path, start) ==> |name| <= NAME_MAX
      modifies dirName
      ensures start < i <= |path| + 1
      ensures Rest(path, start) != [] && Rest(path, start)[1..] == Rest(path, i)
      ensures var found := Enter(tree, d, Rest(path, start)[0]);
        Returned(r, found) && (stop <==> !found.AtDir?)
      ensures !stop ==> r in tree.dirs
    {
      hide Valid, Rest, Enter;
      ScanTurn(path, start);
      i := start;
      if path[i] == SLASH {
        i := i + 1;
      }
      ghost var name := path[i..i + FirstSlash(path[i..])];
      assert Rest(path, start)[0] == name;
      var k;
      i, k := ScanName(path, i, dirName, name);
      r, stop := Descend(d, dirName[..k]);
      i := i + 1;
    }

    /** findDir: the scan with its index resolves the path. */
    method FindDir(path: seq<Byte>) returns (r: Entry?)
      requires Valid() && path != [] && 0 !in path
      requires forall name :: name in Components(path) ==> |name| <= NAME_MAX
      ensures Returned(r, ResolvePath(tree, path))
      ensures ResolvePath(tree, path).AtDir? ==> r in tree.dirs
    {
      RootInTree();
      PathStart(tree, path);
      hide Valid, ResolvePath, Components, Enter, Rest, Resolve;
      if path == [SLASH] {
        return rootDir;
      }
      var currentDir: Entry := rootDir;
      var dirName := new Byte[NAME_MAX + 1];
      var i := 0;
      while i < |path|
        invariant Valid() && currentDir in tree.dirs && i <= |path| + 1
        invariant forall name :: name in Rest(path, i) ==> |name| <= NAME_MAX
        invariant ResolvePath(tree, path) == Resolve(tree, currentDir, Rest(path, i))
        decreases |path| + 1 - i
      {
        ghost var rest := Rest(path, i);
        var next, stop;
        i, next, stop := Turn(path, i, dirName, currentDir);
        ResolveFirst(tree, currentDir, rest);
        if stop {
          return next;
        }
        currentDir := next;
      }
      NothingLeft(tree, currentDir, path, i);
      r := currentDir;
    }

    lemma RootInTree()
      requires Valid()
      ensures rootDir == tree.root && rootDir in tree.dirs
    {
    }

    /** Copying one component into the name buffer. */
    method ScanName(path: seq<Byte>, start: nat, dirName: array<Byte>, ghost name: Name) returns (i: nat, k: nat)
      requires start <= |path| && name == path[start..start + FirstSlash(path[start..])]
      requires |name| <= NAME_MAX && dirName.Length == NAME_MAX + 1
      modifies dirName
      ensures i == start + |name| && k == |name| && dirName[..k] == name && dirName[k] == 0
    {
      i, k := start, 0;
      assert |path[start..]| == |path| - start;
      assert start + |name| < |path| ==> path[start + |name|] == path[start..][|name|] == SLASH;
      assert forall j :: 0 <= j < |name| ==> path[start + j] == name[j] && name[j] in name;
      while i < |path| && path[i] != SLASH
        invariant k <= |name| && i == start + k && dirName[..k] == name[..k]
        decreases |path| - i
      {
        dirName[k] := path[i];
        assert dirName[..k + 1] == dirName[..k] + [path[i]] && name[..k + 1] == name[..k] + [path[i]];
        k := k + 1;
        i := i + 1;
      }
      dirName[k] := 0;
      assert dirName[..k] == name;
    }

    // -------------------------------------------------------------- growing

    /** The three entries of a new directory, not linked in yet. */
    method NewDirectory(p: Entry, dirName: Name) returns (dot: Entry, dotdot: Entry, entry: Entry)
      ensures fresh(dot) && fresh(dotdot) && fresh(entry) && dot != dotdot && dot != entry && dotdot != entry
      ensures dot.block == null && dotdot.block == null && entry.block == null
      ensures dot.name == DOT && !dot.file && dot.extent == dot && dot.nextDir == dotdot
      ensures dotdot.name == DOTDOT && !dotdot.file && dotdot.extent == p && dotdot.nextDir == null
      ensures entry.name == dirName && !entry.file && entry.extent == dot && entry.nextDir == null
    {
      dot := new Entry(DOT, false);
      dot.extent := dot;
      dotdot := new Entry(DOTDOT, false);
      dotdot.extent := p;
      dot.nextDir := dotdot;
      entry := new Entry(dirName, false);
      entry.extent := dot;
    }

    /** `e` goes behind the last entry of `p`'s chain; nothing else changes. */
    method Append(p: Entry, e: Entry)
      requires Valid() && p in tree.dirs
      modifies home.Keys
      ensures AllLead(tree, home, owner, p, e)
      ensures FieldsOf(home.Keys) == old(FieldsOf(home.Keys))
    {
      AllStored();
      hide WellFormed, NextIn;
      var last := LastEntry(p);
      ghost var n := |tree.dirs[p]| - 1;
      assert Stored(p, n);
      last.nextDir := e;
      forall d: Entry, i: nat | d in tree.dirs && i < |tree.dirs[d]| ensures Leads(tree, home, owner, p, e, d, i) {
        assert old(Stored(d, i));
        LastLeads(tree, d, i, p, e);
      }
    }

    /** mkDir, under a directory: three new entries, the last one appended to the
        parent's chain. */
    method MkDir(parentName: seq<Byte>, dirName: Name)
      returns (ghost dot: Entry, ghost dotdot: Entry, ghost entry: Entry)
      requires Valid() && parentName != [] && 0 !in parentName && ResolvePath(tree, parentName).AtDir?
      requires forall name :: name in Components(parentName) ==> |name| <= NAME_MAX
      modifies this`tree, this`home, this`owner, home.Keys
      ensures Valid() && fresh(dot) && fresh(dotdot) && fresh(entry) && fresh(home.Keys - old(home.Keys))
      ensures FieldsOf(home.Keys) == old(FieldsOf(home.Keys))
        [dot := Fields(DOT, false, null)][dotdot := Fields(DOTDOT, false, null)][entry := Fields(dirName, false, null)]
      ensures Content() == old(Content())
      ensures var p := ResolvePath(old(tree), parentName).dir;
        p in old(tree).dirs && p in old(tree).rank && tree == AddDir(old(tree), p, dirName, dot, dotdot, entry)
    {
      hide Valid, Content, FieldsOf, ResolvePath;
      var p := FindDir(parentName);
      dot, dotdot, entry := MakeDirectory(p, dirName);
    }

    method MakeDirectory(p: Entry, dirName: Name) returns (ghost dot: Entry, ghost dotdot: Entry, ghost entry: Entry)
      requires Valid() && p in tree.dirs
      modifies this`tree, this`home, this`owner, home.Keys
      ensures Valid() && fresh(dot) && fresh(dotdot) && fresh(entry) && fresh(home.Keys - old(home.Keys))
      ensures FieldsOf(home.Keys) == old(FieldsOf(home.Keys))
        [dot := Fields(DOT, false, null)][dotdot := Fields(DOTDOT, false, null)][entry := Fields(dirName, false, null)]
      ensures Content() == old(Content())
      ensures p in old(tree).rank && tree == AddDir(old(tree), p, dirName, dot, dotdot, entry)
    {
      hide Valid, FieldsOf, BytesOf, FileBytes;
      FieldsKeys(home.Keys);
      dot, dotdot, entry := LinkDirectory(p, dirName);
      DirectoryContents(old(FieldsOf(home.Keys)), BytesOf(owner.Keys), dot, dotdot, entry, dirName);
    }

    method LinkDirectory(p: Entry, dirName: Name) returns (ghost dot: Entry, ghost dotdot: Entry, ghost entry: Entry)
      requires Valid() && p in tree.dirs
      modifies this`tree, this`home, this`owner, home.Keys
      ensures Valid() && fresh(dot) && fresh(dotdot) && fresh(entry) && fresh(home.Keys - old(home.Keys))
      ensures FieldsOf(home.Keys) == old(FieldsOf(home.Keys))
        [dot := Fields(DOT, false, null)][dotdot := Fields(DOTDOT, false, null)][entry := Fields(dirName, false, null)]
      ensures owner == old(owner) && dot !in old(home) && dotdot !in old(home) && entry !in old(home)
      ensures dot != dotdot && dot != entry && dotdot != entry
      ensures p in old(tree).rank && tree == AddDir(old(tree), p, dirName, dot, dotdot, entry)
    {
      AllStored();
      hide Valid, WellFormed, AddDir, AllLead, Holds, FieldsOf;
      var a, b, c := NewDirectory(p, dirName);
      Append(p, c);
      dot, dotdot, entry := a, b, c;
      AdoptDirectory(p, dirName, dot, dotdot, entry);
      ThreeMoreEntries(old(home.Keys), dot, dotdot, entry);
    }

    /** The entry of a new file and its block. */
    method NewFile(name: Name) returns (newFile: Entry)
      ensures fresh(newFile) && newFile.name == name && newFile.file && newFile.nextDir == null
      ensures newFile.block != null && fresh(newFile.block) && newFile.block.Length == BLOCK
    {
      newFile := new Entry(name, true);
      newFile.block := new Byte[BLOCK];
    }

    ghost method AdoptFile(p: Entry, name: Name, entry: Entry)
      requires rootDir == tree.root && WellFormed(tree) && p in tree.dirs && AllLead(tree, home, owner, p, entry)
      requires forall e: Entry {:trigger Placed(tree, home, e)} :: e in home ==> Placed(tree, home, e)
      requires entry !in home && entry.name == name && entry.file && entry.nextDir == null
      requires entry.block != null && entry.block.Length == BLOCK && entry.block !in owner
      modifies this`tree, this`home, this`owner
      ensures Valid() && tree == AddFile(old(tree), p, name, entry)
      ensures home.Keys == old(home.Keys) + {entry} && owner == old(owner)[entry.block := entry]
    {
      hide WellFormed, AddFile, AllLead, Holds;
      AddFileKeeps(tree, p, name, entry);
      FileEntered(tree, home, owner, p, name, entry, entry.block);
      AddFileChains(tree, p, name, entry);
      Adopt(AddFile(tree, p, name, entry), home[entry := Place(p, |tree.dirs[p]|)], owner[entry.block := entry]);
    }

    ghost method AdoptDirectory(p: Entry, name: Name, dot: Entry, dotdot: Entry, entry: Entry)
      requires rootDir == tree.root && WellFormed(tree) && p in tree.dirs && AllLead(tree, home, owner, p, entry)
      requires forall e: Entry {:trigger Placed(tree, home, e)} :: e in home ==> Placed(tree, home, e)
      requires forall d: Entry :: d in tree.dirs ==> d in home
      requires dot !in home && dotdot !in home && entry !in home && dot != dotdot && dot != entry && dotdot != entry
      requires dot.name == DOT && !dot.file && dot.extent == dot && dot.nextDir == dotdot
      requires dotdot.name == DOTDOT && !dotdot.file && dotdot.extent == p && dotdot.nextDir == null
      requires entry.name == name && !entry.file && entry.extent == dot && entry.nextDir == null
      modifies this`tree, this`home, this`owner
      ensures p in old(tree).rank && Valid() && tree == AddDir(old(tree), p, name, dot, dotdot, entry)
      ensures home.Keys == old(home.Keys) + {dot} + {dotdot} + {entry} && owner == old(owner)
    {
      hide WellFormed, AddDir, AllLead, Holds;
      AddDirKeeps(tree, p, name, dot, dotdot, entry);
      DirectoryEntered(tree, home, owner, p, name, dot, dotdot, entry);
      AddDirChains(tree, p, name, dot, dotdot, entry);
      Adopt(AddDir(tree, p, name, dot, dotdot, entry),
        home[dot := Place(dot, 0)][dotdot := Place(dot, 1)][entry := Place(p, |tree.dirs[p]|)], owner);
    }

    /** Take over a tree the entries already hold. */
    ghost method Adopt(t: Tree, h: map<Entry, Place>, o: map<array<Byte>, Entry>)
      requires rootDir == t.root && WellFormed(t)
      requires forall e: Entry {:trigger Placed(t, h, e)} :: e in h ==> Placed(t, h, e)
      requires forall d: Entry, i: nat {:trigger Holds(t, h, o, d, i, NextIn(t, d, i, null))} ::
        d in t.dirs && i < |t.dirs[d]| ==> Holds(t, h, o, d, i, NextIn(t, d, i, null))
      modifies this`tree, this`home, this`owner
      ensures Valid() && tree == t && home == h && owner == o
    {
      tree, home, owner := t, h, o;
    }

    /** mkFile, under a directory: one entry with a block of its own. */
    method MkFile(dirName: seq<Byte>, name: Name) returns (ghost entry: Entry)
      requires Valid() && dirName != [] && 0 !in dirName && ResolvePath(tree, dirName).AtDir?
      requires forall n :: n in Components(dirName) ==> |n| <= NAME_MAX
      modifies this`tree, this`home, this`owner, home.Keys
      ensures Valid() && fresh(entry) && fresh(home.Keys - old(home.Keys))
      ensures entry in home && entry.file && fresh(entry.block)
      ensures FieldsOf(home.Keys) == old(FieldsOf(home.Keys))[entry := Fields(name, true, entry.block)]
      ensures entry !in old(home) && entry !in old(Content()) && entry.block.Length == BLOCK
      ensures Content() == old(Content())[entry := entry.block[..]]
      ensures var p := ResolvePath(old(tree), dirName).dir;
        p in old(tree).dirs && tree == AddFile(old(tree), p, name, entry)
    {
      hide Valid, Content, FieldsOf, ResolvePath;
      var p := FindDir(dirName);
      entry := MakeFile(p, name);
    }

    method MakeFile(p: Entry, name: Name) returns (ghost entry: Entry)
      requires Valid() && p in tree.dirs
      modifies this`tree, this`home, this`owner, home.Keys
      ensures Valid() && fresh(entry) && fresh(home.Keys - old(home.Keys))
      ensures entry in home && entry.file && fresh(entry.block)
      ensures FieldsOf(home.Keys) == old(FieldsOf(home.Keys))[entry := Fields(name, true, entry.block)]
      ensures entry !in old(home) && entry !in old(Content()) && entry.block.Length == BLOCK
      ensures Content() == old(Content())[entry := entry.block[..]]
      ensures tree == AddFile(old(tree), p, name, entry)
    {
      AllBlocks();
      hide Valid, FieldsOf, BytesOf, FileBytes, OwnBlocks;
      FieldsKeys(home.Keys);
      entry := LinkFile(p, name);
      OneMoreBlock(old(owner.Keys), entry.block);
      assert owner.Keys == old(owner.Keys) + {entry.block};
      NewFileBytes(old(FieldsOf(home.Keys)), old(BytesOf(owner.Keys)), old(owner),
        entry, name, entry.block, entry.block[..]);
    }

    method LinkFile(p: Entry, name: Name) returns (ghost entry: Entry)
      requires Valid() && p in tree.dirs
      modifies this`tree, this`home, this`owner, home.Keys
      ensures Valid() && fresh(entry) && fresh(home.Keys - old(home.Keys))
      ensures entry in home && entry.file && fresh(entry.block)
      ensures FieldsOf(home.Keys) == old(FieldsOf(home.Keys))[entry := Fields(name, true, entry.block)]
      ensures entry !in old(home) && entry.block !in old(owner) && owner == old(owner)[entry.block := entry]
      ensures entry.block.Length == BLOCK
      ensures tree == AddFile(old(tree), p, name, entry)
    {
      AllStored();
      hide Valid, WellFormed, AddFile, AllLead, Holds, FieldsOf;
      var newFile := NewFile(name);
      Append(p, newFile);
      entry := newFile;
      AdoptFile(p, name, entry);
      OneMoreEntry(old(home.Keys), entry);
    }

    // ------------------------------------------------------------- contents

    /** A file has a block of its own. */
    lemma FileBlock(e: Entry)
      requires Valid() && e in home && e.file
      ensures e.block != null && e.block.Length == BLOCK && e.block in owner && owner[e.block] == e
    {
      assert Placed(tree, home, e);
      assert Stored(home[e].dir, home[e].index);
    }

    /** What the contents know of a file. */
    lemma ContentOf(e: Entry)
      requires Valid() && e in Content()
      ensures e in home && e.file && e.block != null && e.block.Length == BLOCK && e.block in owner
      ensures Content()[e] == e.block[..]
    {
      FileBlock(e);
    }

    lemma AllBlocks()
      requires Valid()
      ensures OwnBlocks(FieldsOf(home.Keys), owner)
    {
      forall e: Entry | e in home && e.file ensures e.block in owner && owner[e.block] == e { FileBlock(e); }
    }

    /** writeFS writes from the start of the block; no other file changes. */
    method WriteFS(file: Entry, count: nat, buf: seq<Byte>)
      requires Valid() && file in home && file.file && file.block != null && count <= BLOCK && count <= |buf|
      modifies file.block
      ensures Valid() && file.block.Length == BLOCK
      ensures file.block[..] == Overwritten(old(file.block[..]), buf[..count])
      ensures file in old(Content())
      ensures Content() == old(Content())[file := Overwritten(old(Content())[file], buf[..count])]
      ensures forall e: Entry :: e in home && e.file && e != file ==> e.block != null && e.block[..] == old(e.block[..])
    {
      hide Valid, Overwritten;
      FileBlock(file);
      FillBlock(file.block, count, buf);
      forall e: Entry | e in home && e.file && e != file ensures e.block != null && e.block[..] == old(e.block[..]) {
        FileBlock(e);
      }
    }

    /** The loop of writeFS. */
    method FillBlock(block: array<Byte>, count: nat, buf: seq<Byte>)
      requires count <= block.Length && count <= |buf|
      modifies block
      ensures block[..] == Overwritten(old(block[..]), buf[..count])
    {
      for i := 0 to count
        invariant forall k :: 0 <= k < block.Length ==> block[k] == if k < i then buf[k] else old(block[k])
      {
        block[i] := buf[i];
      }
    }

    /** A path that resolves to a file leads to a known entry. */
    lemma FileAt(path: seq<Byte>)
      requires Valid() && ResolvePath(tree, path).AtFile?
      ensures var e := ResolvePath(tree, path).entry;
        e in home && e.file && e.block != null && e.block.Length == BLOCK && e in Content()
    {
      AllStored();
      hide Valid, WellFormed;
      assert WellFormed(tree);
      RootInTree();
      var d, i := FileLink(tree, tree.root, Components(path));
      assert Stored(d, i);
      FileBlock(ResolvePath(tree, path).entry);
    }

    /** writeFS on what openFS returned for a path. */
    method WritePath(path: seq<Byte>, data: seq<Byte>)
      requires Valid() && path != [] && 0 !in path && ResolvePath(tree, path).AtFile? && |data| <= BLOCK
      requires forall name :: name in Components(path) ==> |name| <= NAME_MAX
      modifies ResolvePath(tree, path).entry.block
      ensures Valid()
      ensures var e := ResolvePath(tree, path).entry;
        && e in old(Content()) && |data| <= |old(Content())[e]|
        && Content() == old(Content())[e := Overwritten(old(Content())[e], data)]
    {
      FileAt(path);
      hide Valid, Content, Overwritten, ResolvePath, Components;
      var file := FindDir(path);
      WriteAll(file, data);
    }

    /** writeFS of a whole buffer. */
    method WriteAll(file: Entry, data: seq<Byte>)
      requires Valid() && file in Content() && |data| <= BLOCK
      modifies file.block
      ensures Valid() && |data| <= |old(Content())[file]|
      ensures Content() == old(Content())[file := Overwritten(old(Content())[file], data)]
    {
      ContentOf(file);
      hide Valid, Content, Overwritten;
      assert data[..|data|] == data;
      WriteFS(file, |data|, data);
    }

    /** readFS copies out of the block from `pos` on. */
    method ReadFS(file: Entry, count: nat, buf: array<Byte>, pos: nat)
      requires Valid() && file in home && file.file && pos + count <= BLOCK && count <= buf.Length
      requires file.block != null && buf != file.block
      modifies buf
      ensures file.block.Length == BLOCK && buf[..count] == file.block[pos..pos + count]
      ensures buf[count..] == old(buf[count..])
    {
      FileBlock(file);
      for i := 0 to count
        invariant forall k :: 0 <= k < i ==> buf[k] == file.block[pos + k]
        invariant forall k :: i <= k < buf.Length ==> buf[k] == old(buf[k])
      {
        buf[i] := file.block[i + pos];
      }
    }

    /** Every file of the tree is among the contents, with a whole block. */
    lemma FilesStocked()
      requires Valid()
      ensures forall d: Entry, i: nat {:trigger tree.dirs[d][i]} ::
        d in tree.dirs && i < |tree.dirs[d]| && tree.dirs[d][i].file ==> tree.dirs[d][i].entry in Content()
      ensures forall e: Entry :: e in Content() ==> |Content()[e]| == BLOCK
    {
      AllStored();
      forall d: Entry, i: nat | d in tree.dirs && i < |tree.dirs[d]| && tree.dirs[d][i].file
        ensures tree.dirs[d][i].entry in Content()
      {
        assert Stored(d, i);
      }
      forall e: Entry | e in Content() ensures |Content()[e]| == BLOCK { FileBlock(e); }
    }

    lemma AllStored()
      requires Valid()
      ensures rootDir == tree.root && WellFormed(tree)
      ensures forall d: Entry, i: nat {:trigger Stored(d, i)} :: d in tree.dirs && i < |tree.dirs[d]| ==> Stored(d, i)
      ensures forall d: Entry :: d in tree.dirs ==> d in home
      ensures forall e: Entry {:trigger Placed(tree, home, e)} :: e in home ==> Placed(tree, home, e)
    {
      forall d: Entry | d in tree.dirs ensures d in home { HeadOfChain(d); }
    }
  }

  // ------------------------------------------------------ fields and blocks

  /** The fields of an entry but for its links. */
  datatype Fields = Fields(name: Name, file: bool, block: array?<Byte>)

  ghost function FieldsOf(entries: set<Entry>): map<Entry, Fields>
    reads entries
  {
    map e: Entry | e in entries :: Fields(e.name, e.file, e.block)
  }

  ghost function BytesOf(blocks: set<array<Byte>>): map<array<Byte>, seq<Byte>>
    reads blocks
  {
    map b: array<Byte> | b in blocks :: b[..]
  }

  /** The bytes of every file. */
  ghost function FileBytes(fields: map<Entry, Fields>, bytes: map<array<Byte>, seq<Byte>>): map<Entry, seq<Byte>> {
    map e: Entry | e in fields && fields[e].file && fields[e].block in bytes :: bytes[fields[e].block]
  }

  /** Every file has a block that no other file has. */
  ghost predicate OwnBlocks(fields: map<Entry, Fields>, owner: map<array<Byte>, Entry>) {
    forall e: Entry :: e in fields && fields[e].file ==> fields[e].block in owner && owner[fields[e].block] == e
  }

  lemma FieldsKeys(entries: set<Entry>)
    ensures FieldsOf(entries).Keys == entries
  {
  }

  /** A new directory adds no bytes. */
  lemma DirectoryContents(fields: map<Entry, Fields>, bytes: map<array<Byte>, seq<Byte>>,
                          dot: Entry, dotdot: Entry, entry: Entry, name: Name)
    requires dot !in fields && dotdot !in fields && entry !in fields && dot != dotdot && dot != entry && dotdot != entry
    ensures FileBytes(fields[dot := Fields(DOT, false, null)][dotdot := Fields(DOTDOT, false, null)]
      [entry := Fields(name, false, null)], bytes) == FileBytes(fields, bytes)
  {
  }

  lemma OneMoreEntry(entries: set<Entry>, e: Entry)
    ensures FieldsOf(entries + {e}) == FieldsOf(entries)[e := Fields(e.name, e.file, e.block)]
  {
  }

  lemma ThreeMoreEntries(entries: set<Entry>, a: Entry, b: Entry, c: Entry)
    ensures FieldsOf(entries + {a} + {b} + {c}) == FieldsOf(entries)
      [a := Fields(a.name, a.file, a.block)][b := Fields(b.name, b.file, b.block)][c := Fields(c.name, c.file, c.block)]
  {
    hide FieldsOf;
    OneMoreEntry(entries, a);
    OneMoreEntry(entries + {a}, b);
    OneMoreEntry(entries + {a} + {b}, c);
  }

  lemma OneMoreBlock(blocks: set<array<Byte>>, b: array<Byte>)
    ensures BytesOf(blocks + {b}) == BytesOf(blocks)[b := b[..]]
  {
  }

  lemma NewFileBytes(fields: map<Entry, Fields>, bytes: map<array<Byte>, seq<Byte>>, owner: map<array<Byte>, Entry>,
                     e: Entry, name: Name, b: array<Byte>, data: seq<Byte>)
    requires OwnBlocks(fields, owner) && e !in fields && b !in owner
    ensures FileBytes(fields[e := Fields(name, true, b)], bytes[b := data]) == FileBytes(fields, bytes)[e := data]
  {
  }

  // ------------------------------------------------ what the entries hold

  /** The entry behind position `i`, or `end` after the last. */
  function NextIn(t: Tree, d: Entry, i: nat, end: Entry?): Entry?
    requires d in t.dirs && i < |t.dirs[d]|
  {
    if i + 1 < |t.dirs[d]| then t.dirs[d][i + 1].entry else end
  }

  ghost predicate Holds(t: Tree, home: map<Entry, Place>, owner: map<array<Byte>, Entry>,
                        d: Entry, i: nat, next: Entry?)
    requires d in t.dirs && i < |t.dirs[d]|
    reads home.Keys
  {
    var l := t.dirs[d][i];
    var e := l.entry;
    && e in home && home[e] == Place(d, i) && e.name == l.name && e.file == l.file && e.nextDir == next
    && (if l.file then l.target == e && e.block != null && e.block.Length == BLOCK
          && e.block in owner && owner[e.block] == e
        else e.extent == l.target)
  }

  /** Every known entry is in some chain, once. */
  ghost predicate Placed(t: Tree, home: map<Entry, Place>, e: Entry)
    requires e in home
  {
    var place := home[e];
    place.dir in t.dirs && place.index < |t.dirs[place.dir]| && t.dirs[place.dir][place.index].entry == e
  }

  /** Stored, but for the last entry of `p`'s chain, which leads to `e`. */
  ghost predicate Leads(t: Tree, home: map<Entry, Place>, owner: map<array<Byte>, Entry>,
                        p: Entry, e: Entry, d: Entry, i: nat)
    requires d in t.dirs && i < |t.dirs[d]|
    reads home.Keys
  {
    Holds(t, home, owner, d, i, NextIn(t, d, i, if d == p then e else null))
  }

  ghost predicate AllLead(t: Tree, home: map<Entry, Place>, owner: map<array<Byte>, Entry>, p: Entry, e: Entry)
    reads home.Keys
  {
    forall d: Entry, i: nat {:trigger Leads(t, home, owner, p, e, d, i)} ::
      d in t.dirs && i < |t.dirs[d]| ==> Leads(t, home, owner, p, e, d, i)
  }

  lemma LastLeads(t: Tree, d: Entry, i: nat, p: Entry, e: Entry)
    requires d in t.dirs && i < |t.dirs[d]|
    ensures NextIn(t, d, i, if d == p then e else null) ==
      if d == p && i == |t.dirs[d]| - 1 then e else NextIn(t, d, i, null)
  {
  }

  /** The tree with a new file is what the linked entries hold. */
  lemma FileEntered(t: Tree, home: map<Entry, Place>, owner: map<array<Byte>, Entry>, p: Entry, name: Name,
                    entry: Entry, block: array<Byte>)
    requires p in t.dirs && AllLead(t, home, owner, p, entry)
    requires forall e: Entry {:trigger Placed(t, home, e)} :: e in home ==> Placed(t, home, e)
    requires entry !in home && entry.name == name && entry.file && entry.nextDir == null
    requires entry.block == block && block.Length == BLOCK && block !in owner
    ensures var t' := AddFile(t, p, name, entry);
      var home', owner' := home[entry := Place(p, |t.dirs[p]|)], owner[block := entry];
      && (forall e: Entry {:trigger Placed(t', home', e)} :: e in home' ==> Placed(t', home', e))
      && (forall d: Entry, i: nat {:trigger Holds(t', home', owner', d, i, NextIn(t', d, i, null))} ::
        d in t'.dirs && i < |t'.dirs[d]| ==> Holds(t', home', owner', d, i, NextIn(t', d, i, null)))
  {
    AddFileChains(t, p, name, entry);
    hide AddFile;
    var t' := AddFile(t, p, name, entry);
    var home', owner' := home[entry := Place(p, |t.dirs[p]|)], owner[block := entry];
    forall d: Entry, i: nat | d in t'.dirs && i < |t'.dirs[d]|
      ensures Holds(t', home', owner', d, i, NextIn(t', d, i, null))
    {
      if i < |t.dirs[d]| { assert Leads(t, home, owner, p, entry, d, i); }
    }
    forall e: Entry | e in home' ensures Placed(t', home', e) {
      if e in home { assert Placed(t, home, e); }
    }
  }

  /** The tree with a new directory is what the linked entries hold. */
  lemma DirectoryEntered(t: Tree, home: map<Entry, Place>, owner: map<array<Byte>, Entry>, p: Entry, name: Name,
                         dot: Entry, dotdot: Entry, entry: Entry)
    requires p in t.dirs && p in t.rank && dot !in t.dirs && AllLead(t, home, owner, p, entry)
    requires forall e: Entry {:trigger Placed(t, home, e)} :: e in home ==> Placed(t, home, e)
    requires dot !in home && dotdot !in home && entry !in home && dot != dotdot && dot != entry && dotdot != entry
    requires dot.name == DOT && !dot.file && dot.extent == dot && dot.nextDir == dotdot
    requires dotdot.name == DOTDOT && !dotdot.file && dotdot.extent == p && dotdot.nextDir == null
    requires entry.name == name && !entry.file && entry.extent == dot && entry.nextDir == null
    ensures var t' := AddDir(t, p, name, dot, dotdot, entry);
      var home' := home[dot := Place(dot, 0)][dotdot := Place(dot, 1)][entry := Place(p, |t.dirs[p]|)];
      && (forall e: Entry {:trigger Placed(t', home', e)} :: e in home' ==> Placed(t', home', e))
      && (forall d: Entry, i: nat {:trigger Holds(t', home', owner, d, i, NextIn(t', d, i, null))} ::
        d in t'.dirs && i < |t'.dirs[d]| ==> Holds(t', home', owner, d, i, NextIn(t', d, i, null)))
  {
    AddDirChains(t, p, name, dot, dotdot, entry);
    hide AddDir;
    var t' := AddDir(t, p, name, dot, dotdot, entry);
    var home' := home[dot := Place(dot, 0)][dotdot := Place(dot, 1)][entry := Place(p, |t.dirs[p]|)];
    forall d: Entry, i: nat | d in t'.dirs && i < |t'.dirs[d]|
      ensures Holds(t', home', owner, d, i, NextIn(t', d, i, null))
    {
      if d != dot && i < |t.dirs[d]| { assert Leads(t, home, owner, p, entry, d, i); }
    }
    forall e: Entry | e in home' ensures Placed(t', home', e) {
      if e in home { assert Placed(t, home, e); }
    }
  }

  function Overwritten(content: seq<Byte>, data: seq<Byte>): (r: seq<Byte>)
    requires |data| <= |content|
    ensures |r| == |content|
  {
    data + content[|data|..]
  }

  /** A file's contents after a list of writes. */
  function AfterWrites(content: seq<Byte>, writes: seq<seq<Byte>>): (r: seq<Byte>)
    requires forall w :: w in writes ==> |w| <= |content|
    ensures |r| == |content|
    decreases |writes|
  {
    if writes == [] then content else AfterWrites(Overwritten(content, writes[0]), writes[1..])
  }

  /** A byte no write reaches is as before. */
  lemma {:induction false} UnreachedByte(content: seq<Byte>, writes: seq<seq<Byte>>, b: nat)
    requires (forall w :: w in writes ==> |w| <= |content| && |w| <= b) && b < |content|
    ensures AfterWrites(content, writes)[b] == content[b]
    decreases |writes|
  {
    if writes != [] {
      assert writes[0] in writes;
      UnreachedByte(Overwritten(content, writes[0]), writes[1..], b);
    }
  }

  /** The last write that reaches a byte decides it. */
  lemma {:induction false} LastWriteWins(content: seq<Byte>, writes: seq<seq<Byte>>, b: nat, k: nat)
    requires (forall w :: w in writes ==> |w| <= |content|) && k < |writes| && b < |writes[k]|
    requires forall w :: w in writes[k + 1..] ==> |w| <= b
    ensures b < |content| && AfterWrites(content, writes)[b] == writes[k][b]
    decreases |writes|
  {
    var rest := writes[1..];
    if k > 0 {
      assert rest[k - 1 + 1..] == writes[k + 1..];
      LastWriteWins(Overwritten(content, writes[0]), rest, b, k - 1);
    } else {
      assert writes[0] in writes;
      UnreachedByte(Overwritten(content, writes[0]), rest, b);
    }
  }

  lemma FirstMatch(c: seq<Link>, name: Name, i: nat)
    requires i <= |c| && (forall k :: 0 <= k < i ==> c[k].name != name) && (i < |c| ==> c[i].name == name)
    ensures i == Lookup(c, name)
  {
    var j := Lookup(c, name);
    assert j < |c| ==> c[j].name == name;
    assert i < |c| ==> c[i].name == name;
  }

  lemma AddFileChains(t: Tree, p: Entry, name: Name, entry: Entry)
    requires p in t.dirs
    ensures var t' := AddFile(t, p, name, entry);
      && t'.root == t.root && (forall d: Entry :: d in t'.dirs <==> d in t.dirs)
      && t'.dirs[p] == t.dirs[p] + [Link(name, true, entry, entry)]
      && (forall d: Entry :: d in t.dirs && d != p ==> t'.dirs[d] == t.dirs[d])
  {
  }

  lemma AddDirChains(t: Tree, p: Entry, name: Name, dot: Entry, dotdot: Entry, entry: Entry)
    requires p in t.dirs && p in t.rank && dot !in t.dirs
    ensures var t' := AddDir(t, p, name, dot, dotdot, entry);
      && t'.root == t.root && (forall d: Entry :: d in t'.dirs <==> d in t.dirs || d == dot)
      && t'.dirs[dot] == [Link(DOT, false, dot, dot), Link(DOTDOT, false, p, dotdot)]
      && t'.dirs[p] == t.dirs[p] + [Link(name, false, dot, entry)]
      && (forall d: Entry :: d in t.dirs && d != p ==> t'.dirs[d] == t.dirs[d])
  {
  }

  lemma PathStart(t: Tree, path: seq<Byte>)
    requires path != []
    ensures Components(path) == Rest(path, 0)
    ensures ResolvePath(t, path) == if path == [SLASH] then AtDir(t.root) else Resolve(t, t.root, Rest(path, 0))
  {
    assert path[0..] == path;
  }

  lemma ResolveFirst(t: Tree, d: Entry, names: seq<Name>)
    requires names != []
    ensures Resolve(t, d, names) ==
      match Enter(t, d, names[0]) case AtDir(e) => Resolve(t, e, names[1..]) case other => other
  {
  }

  lemma NothingLeft(t: Tree, d: Entry, path: seq<Byte>, i: nat)
    requires i >= |path|
    ensures Resolve(t, d, Rest(path, i)) == AtDir(d)
  {
  }
}
