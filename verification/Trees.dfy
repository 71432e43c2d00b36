/** The directory tree of ramfs.c as a value: chains of entries, path names and
    what they resolve to. */
module Trees {
  import opened Options
  import opened Bytes

  type Name = seq<Byte>

  const SLASH := 47
  const DOT: Name := [46]
  const DOTDOT: Name := [46, 46]

  /** dirEntry_t: `extent` of a directory is the "." entry of its chain, of a file
      its block. */
  class Entry {
    var nextDir: Entry?
    var extent: Entry?
    var block: array?<Byte>
    var name: Name
    var file: bool

    constructor (name: Name, file: bool)
      ensures this.name == name && this.file == file && nextDir == null && extent == null && block == null
    {
      this.name, this.file := name, file;
      nextDir, extent, block := null, null, null;
    }
  }

  /** One entry of a chain; `target` is its extent when it is a directory. */
  datatype Link = Link(name: Name, file: bool, target: Entry, entry: Entry)

  /** A directory is named by its "." entry, the head of its chain. `rank` is its
      distance from the root. */
  datatype Tree = Tree(root: Entry, dirs: map<Entry, seq<Link>>, rank: map<Entry, nat>)

  datatype Found = Missing | AtFile(entry: Entry) | AtDir(dir: Entry)

  // -------------------------------------------------------------- resolution

  /** The first entry of a chain with this name. */
  function Lookup(chain: seq<Link>, name: Name): (i: nat)
    ensures i <= |chain| && (i < |chain| ==> chain[i].name == name)
    ensures forall k :: 0 <= k < i ==> chain[k].name != name
    decreases |chain|
  {
    if chain == [] || chain[0].name == name then 0 else
    assert forall k :: 1 <= k < |chain| ==> chain[k] == chain[1..][k - 1];
    1 + Lookup(chain[1..], name)
  }

  function LinkFound(chain: seq<Link>, name: Name): Found {
    var i := Lookup(chain, name);
    if i == |chain| then Missing else if chain[i].file then AtFile(chain[i].entry) else AtDir(chain[i].target)
  }

  /** One component, from directory `d`. */
  function Enter(t: Tree, d: Entry, name: Name): Found {
    if d in t.dirs then LinkFound(t.dirs[d], name) else Missing
  }

  /** Components from left to right; a file or a missing name ends the walk. */
  function Resolve(t: Tree, d: Entry, names: seq<Name>): Found
    decreases |names|
  {
    if names == [] then AtDir(d) else
    match Enter(t, d, names[0])
    case AtDir(e) => Resolve(t, e, names[1..])
    case other => other
  }

  lemma {:induction false} ResolveConcat(t: Tree, d: Entry, a: seq<Name>, b: seq<Name>)
    ensures Resolve(t, d, a + b) == match Resolve(t, d, a) case AtDir(e) => Resolve(t, e, b) case other => other
    decreases |a|
  {
    if a == [] {
      assert a + b == b;
    } else {
      assert (a + b)[0] == a[0] && (a + b)[1..] == a[1..] + b;
      if Enter(t, d, a[0]).AtDir? { ResolveConcat(t, Enter(t, d, a[0]).dir, a[1..], b); }
    }
  }

  lemma ResolveOne(t: Tree, d: Entry, x: Name)
    ensures Resolve(t, d, [x]) == Enter(t, d, x)
  {
    assert [x][1..] == [];
    if Enter(t, d, x).AtDir? { assert Resolve(t, Enter(t, d, x).dir, []) == Enter(t, d, x); }
  }

  // ---------------------------------------------------------- well-formed trees

  /** "." leads to the directory itself and ".." to its parent. */
  predicate HasDots(t: Tree, d: Entry)
    requires d in t.dirs
  {
    var c := t.dirs[d];
    && |c| >= 2 && c[0] == Link(DOT, false, d, d)
    && c[1].name == DOTDOT && !c[1].file && c[1].target in t.dirs
  }

  function Parent(t: Tree, d: Entry): Entry
    requires d in t.dirs && HasDots(t, d)
  {
    t.dirs[d][1].target
  }

  /** A child directory leads back here, one step further from the root. */
  predicate ChildOk(t: Tree, d: Entry, i: nat)
    requires d in t.dirs && i < |t.dirs[d]|
  {
    var l := t.dirs[d][i];
    l.file || (l.target in t.dirs && HasDots(t, l.target) && Parent(t, l.target) == d
      && l.target in t.rank && d in t.rank && t.rank[l.target] == t.rank[d] + 1)
  }

  /** The root is its own parent; any other directory is one step below its parent. */
  predicate ParentOk(t: Tree, d: Entry)
    requires d in t.dirs
  {
    && HasDots(t, d) && d in t.rank && Parent(t, d) in t.rank
    && (if d == t.root then Parent(t, d) == d else t.rank[d] == t.rank[Parent(t, d)] + 1)
  }

  ghost predicate WellFormed(t: Tree) {
    && t.root in t.dirs && t.dirs.Keys == t.rank.Keys && t.rank[t.root] == 0
    && (forall d: Entry {:trigger HasDots(t, d)} :: d in t.dirs ==> HasDots(t, d))
    && (forall d: Entry, i: nat {:trigger ChildOk(t, d, i)} :: d in t.dirs && 2 <= i < |t.dirs[d]| ==> ChildOk(t, d, i))
    && ParentOk(t, t.root)
    && (forall d: Entry {:trigger ParentOk(t, d)} :: d in t.dirs ==> ParentOk(t, d))
  }

  lemma EnterStays(t: Tree, d: Entry, name: Name)
    requires WellFormed(t) && d in t.dirs
    ensures Enter(t, d, name).AtDir? ==> Enter(t, d, name).dir in t.dirs
  {
    var i := Lookup(t.dirs[d], name);
    assert HasDots(t, d);
    if 2 <= i < |t.dirs[d]| { assert ChildOk(t, d, i); }
  }

  lemma {:induction false} ResolveStays(t: Tree, d: Entry, names: seq<Name>)
    requires WellFormed(t) && d in t.dirs
    ensures Resolve(t, d, names).AtDir? ==> Resolve(t, d, names).dir in t.dirs
    decreases |names|
  {
    if names != [] {
      EnterStays(t, d, names[0]);
      if Enter(t, d, names[0]).AtDir? { ResolveStays(t, Enter(t, d, names[0]).dir, names[1..]); }
    }
  }

  /** A path that names a file ends at a link of some directory. */
  lemma {:induction false} FileLink(t: Tree, d: Entry, names: seq<Name>) returns (p: Entry, i: nat)
    requires WellFormed(t) && d in t.dirs && Resolve(t, d, names).AtFile?
    ensures p in t.dirs && i < |t.dirs[p]| && t.dirs[p][i].file && t.dirs[p][i].entry == Resolve(t, d, names).entry
    decreases |names|
  {
    hide WellFormed;
    EnterStays(t, d, names[0]);
    if Enter(t, d, names[0]).AtDir? {
      p, i := FileLink(t, Enter(t, d, names[0]).dir, names[1..]);
    } else {
      p, i := d, Lookup(t.dirs[d], names[0]);
    }
  }

  // ------------------------------------------------------- "." and ".." in paths

  lemma EnterDots(t: Tree, d: Entry)
    requires WellFormed(t) && d in t.dirs
    ensures Enter(t, d, DOT) == AtDir(d) && Enter(t, d, DOTDOT) == AtDir(Parent(t, d)) && Parent(t, d) in t.dirs
    ensures Parent(t, d) == d <==> d == t.root
  {
    assert HasDots(t, d) && ParentOk(t, d);
    var c := t.dirs[d];
    assert c[0].name == DOT && DOT != DOTDOT;
    assert Lookup(c, DOT) == 0;
    assert Lookup(c, DOTDOT) == 1;
  }

  /** Taking out a "." never changes what a path resolves to. */
  lemma DotIsNeutral(t: Tree, a: seq<Name>, b: seq<Name>)
    requires WellFormed(t)
    ensures Resolve(t, t.root, a + [DOT] + b) == Resolve(t, t.root, a + b)
  {
    ResolveStays(t, t.root, a);
    ResolveConcat(t, t.root, a, b);
    ResolveConcat(t, t.root, a + [DOT], b);
    ResolveConcat(t, t.root, a, [DOT]);
    if Resolve(t, t.root, a).AtDir? {
      var d := Resolve(t, t.root, a).dir;
      EnterDots(t, d);
      ResolveOne(t, d, DOT);
    }
  }

  /** `x` is a directory made in `d`, not one of its two dot entries. */
  predicate IsChildDir(t: Tree, d: Entry, x: Name)
    requires d in t.dirs
  {
    var i := Lookup(t.dirs[d], x);
    2 <= i < |t.dirs[d]| && !t.dirs[d][i].file
  }

  /** Going into `x` and back up returns exactly when `x` is a directory made
      there, or at the root, whose dot entries stay at the root. */
  lemma UpAndDown(t: Tree, d: Entry, x: Name)
    requires WellFormed(t) && d in t.dirs
    ensures Resolve(t, d, [x, DOTDOT]) == AtDir(d) <==>
      IsChildDir(t, d, x) || (d == t.root && (x == DOT || x == DOTDOT))
  {
    assert HasDots(t, d);
    var i := Lookup(t.dirs[d], x);
    assert [x, DOTDOT] == [x] + [DOTDOT];
    ResolveConcat(t, d, [x], [DOTDOT]);
    ResolveOne(t, d, x);
    EnterDots(t, d);
    if 2 <= i < |t.dirs[d]| { assert ChildOk(t, d, i); }
    if Enter(t, d, x).AtDir? {
      EnterStays(t, d, x);
      var e := Enter(t, d, x).dir;
      ResolveOne(t, e, DOTDOT);
      EnterDots(t, e);
      assert ParentOk(t, d) && ParentOk(t, e);
    }
  }

  /** Below the root, "../.." does not lead back. */
  lemma UpFromBelow(t: Tree, d: Entry)
    requires WellFormed(t) && d in t.dirs && d != t.root
    ensures Resolve(t, d, [DOTDOT, DOTDOT]) != AtDir(d)
  {
    UpAndDown(t, d, DOTDOT);
    EnterDots(t, d);
    assert t.dirs[d][1].name == DOTDOT by { assert HasDots(t, d); }
    assert Lookup(t.dirs[d], DOTDOT) <= 1;
  }

  /** Taking out `x/..` never changes the result when `x` is a directory there. */
  lemma DotDotCancels(t: Tree, a: seq<Name>, x: Name, b: seq<Name>)
    requires WellFormed(t)
    requires Resolve(t, t.root, a).AtDir? ==>
      Resolve(t, t.root, a).dir in t.dirs && IsChildDir(t, Resolve(t, t.root, a).dir, x)
    ensures Resolve(t, t.root, a + [x, DOTDOT] + b) == Resolve(t, t.root, a + b)
  {
    ResolveConcat(t, t.root, a, b);
    ResolveConcat(t, t.root, a + [x, DOTDOT], b);
    ResolveConcat(t, t.root, a, [x, DOTDOT]);
    if Resolve(t, t.root, a).AtDir? { UpAndDown(t, Resolve(t, t.root, a).dir, x); }
  }

  // ---------------------------------------------------------- growing the tree

  /** mkFile: a file entry at the end of directory `p`'s chain. */
  function AddFile(t: Tree, p: Entry, name: Name, entry: Entry): Tree
    requires p in t.dirs
  {
    t.(dirs := t.dirs[p := t.dirs[p] + [Link(name, true, entry, entry)]])
  }

  /** mkDir: a chain of the two dot entries, and an entry for it in `p`. */
  function AddDir(t: Tree, p: Entry, name: Name, dot: Entry, dotdot: Entry, entry: Entry): Tree
    requires p in t.dirs && p in t.rank
  {
    t.(dirs := t.dirs[p := t.dirs[p] + [Link(name, false, dot, entry)]]
                     [dot := [Link(DOT, false, dot, dot), Link(DOTDOT, false, p, dotdot)]],
       rank := t.rank[dot := t.rank[p] + 1])
  }

  /** `t'` has every chain of `t`, perhaps longer. */
  ghost predicate Extends(t: Tree, t': Tree) {
    t'.root == t.root && forall d: Entry :: d in t.dirs ==> d in t'.dirs && t.dirs[d] <= t'.dirs[d]
  }

  lemma {:induction false} LookupExtends(c: seq<Link>, c': seq<Link>, name: Name)
    requires c <= c'
    ensures Lookup(c, name) < |c| ==> Lookup(c', name) == Lookup(c, name)
    ensures Lookup(c, name) == |c| ==> Lookup(c', name) >= |c|
  {
    var i, j := Lookup(c, name), Lookup(c', name);
    assert i < |c| ==> c'[i].name == name;
    assert j < |c| ==> c[j].name == c'[j].name == name;
  }

  /** Growing a tree loses no path: what resolved still resolves to the same. */
  lemma {:induction false} ExtendsKeepsPaths(t: Tree, t': Tree, d: Entry, names: seq<Name>)
    requires Extends(t, t') && Resolve(t, d, names) != Missing
    ensures Resolve(t', d, names) == Resolve(t, d, names)
    decreases |names|
  {
    if names != [] {
      assert d in t.dirs;
      LookupExtends(t.dirs[d], t'.dirs[d], names[0]);
      assert Enter(t', d, names[0]) == Enter(t, d, names[0]);
      if Enter(t, d, names[0]).AtDir? { ExtendsKeepsPaths(t, t', Enter(t, d, names[0]).dir, names[1..]); }
    }
  }

  lemma FileDirectory(t: Tree, p: Entry, name: Name, entry: Entry, d: Entry)
    requires WellFormed(t) && p in t.dirs && d in t.dirs
    ensures HasDots(AddFile(t, p, name, entry), d) && ParentOk(AddFile(t, p, name, entry), d)
  {
    assert HasDots(t, d) && ParentOk(t, d);
  }

  lemma FileChild(t: Tree, p: Entry, name: Name, entry: Entry, d: Entry, i: nat)
    requires WellFormed(t) && p in t.dirs && d in t.dirs && 2 <= i < |AddFile(t, p, name, entry).dirs[d]|
    ensures ChildOk(AddFile(t, p, name, entry), d, i)
  {
    if i < |t.dirs[d]| { assert ChildOk(t, d, i); }
  }

  lemma FileExtends(t: Tree, p: Entry, name: Name, entry: Entry)
    requires p in t.dirs
    ensures Extends(t, AddFile(t, p, name, entry))
  {
  }

  /** Adding a file keeps the tree well formed and every chain as it was, or longer. */
  lemma AddFileKeeps(t: Tree, p: Entry, name: Name, entry: Entry)
    requires WellFormed(t) && p in t.dirs
    ensures WellFormed(AddFile(t, p, name, entry)) && Extends(t, AddFile(t, p, name, entry))
  {
    hide HasDots, ParentOk, ChildOk, Extends;
    var t' := AddFile(t, p, name, entry);
    FileExtends(t, p, name, entry);
    forall d: Entry | d in t'.dirs ensures HasDots(t', d) && ParentOk(t', d) {
      FileDirectory(t, p, name, entry, d);
    }
    forall d: Entry, i: nat | d in t'.dirs && 2 <= i < |t'.dirs[d]| ensures ChildOk(t', d, i) {
      FileChild(t, p, name, entry, d, i);
    }
  }

  lemma DirDirectory(t: Tree, p: Entry, name: Name, dot: Entry, dotdot: Entry, entry: Entry, d: Entry)
    requires WellFormed(t) && p in t.dirs && p in t.rank && dot !in t.dirs && (d in t.dirs || d == dot)
    ensures HasDots(AddDir(t, p, name, dot, dotdot, entry), d) && ParentOk(AddDir(t, p, name, dot, dotdot, entry), d)
  {
    if d != dot { assert HasDots(t, d) && ParentOk(t, d); }
  }

  lemma DirChild(t: Tree, p: Entry, name: Name, dot: Entry, dotdot: Entry, entry: Entry, d: Entry, i: nat)
    requires WellFormed(t) && p in t.dirs && p in t.rank && dot !in t.dirs && d in t.dirs
    requires 2 <= i < |AddDir(t, p, name, dot, dotdot, entry).dirs[d]|
    ensures ChildOk(AddDir(t, p, name, dot, dotdot, entry), d, i)
  {
    if i < |t.dirs[d]| { assert ChildOk(t, d, i); }
  }

  lemma DirExtends(t: Tree, p: Entry, name: Name, dot: Entry, dotdot: Entry, entry: Entry)
    requires p in t.dirs && p in t.rank && dot !in t.dirs
    ensures Extends(t, AddDir(t, p, name, dot, dotdot, entry))
  {
  }

  /** So does adding a directory, whose dot entries lead to itself and to `p`. */
  lemma AddDirKeeps(t: Tree, p: Entry, name: Name, dot: Entry, dotdot: Entry, entry: Entry)
    requires WellFormed(t) && p in t.dirs && dot !in t.dirs
    ensures p in t.rank && WellFormed(AddDir(t, p, name, dot, dotdot, entry))
    ensures Extends(t, AddDir(t, p, name, dot, dotdot, entry))
  {
    hide HasDots, ParentOk, ChildOk, Extends;
    assert p in t.dirs.Keys;
    var t' := AddDir(t, p, name, dot, dotdot, entry);
    DirExtends(t, p, name, dot, dotdot, entry);
    forall d: Entry | d in t'.dirs ensures HasDots(t', d) && ParentOk(t', d) {
      DirDirectory(t, p, name, dot, dotdot, entry, d);
    }
    forall d: Entry, i: nat | d in t'.dirs && 2 <= i < |t'.dirs[d]| ensures ChildOk(t', d, i) {
      if d != dot { DirChild(t, p, name, dot, dotdot, entry, d, i); }
    }
  }

  /** The new entry is what its path resolves to exactly when no earlier entry of
      the directory has its name. */
  lemma NewEntryFound(t: Tree, t': Tree, a: seq<Name>, p: Entry, l: Link)
    requires Extends(t, t') && p in t.dirs && Resolve(t, t.root, a) == AtDir(p)
    requires t'.dirs[p] == t.dirs[p] + [l]
    requires forall k :: 0 <= k < |t.dirs[p]| ==>
      t.dirs[p][k].entry != l.entry && (!l.file && !t.dirs[p][k].file ==> t.dirs[p][k].target != l.target)
    ensures Resolve(t', t.root, a + [l.name]) == (if l.file then AtFile(l.entry) else AtDir(l.target))
      <==> Lookup(t.dirs[p], l.name) == |t.dirs[p]|
  {
    var c, c' := t.dirs[p], t'.dirs[p];
    ExtendsKeepsPaths(t, t', t.root, a);
    ResolveConcat(t', t.root, a, [l.name]);
    ResolveOne(t', p, l.name);
    LookupExtends(c, c', l.name);
    assert c'[|c|] == l;
    var i := Lookup(c', l.name);
    assert c'[|c|].name == l.name && i <= |c|;
    if i < |c| { assert c'[i] == c[i]; }
  }
}
