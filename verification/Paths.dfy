/** Path names as findDir scans them (ramfs.c). */
module Paths {
  import opened Bytes
  import opened Trees

  /** The position of the first slash, or the length. */
  function FirstSlash(s: seq<Byte>): (n: nat)
    ensures n <= |s| && SLASH !in s[..n] && (n < |s| ==> s[n] == SLASH)
    decreases |s|
  {
    if s == [] || s[0] == SLASH then 0 else
    assert s[..1 + FirstSlash(s[1..])] == [s[0]] + s[1..][..FirstSlash(s[1..])];
    1 + FirstSlash(s[1..])
  }

  /** The parts between slashes; there is one more part than slashes. */
  function Split(s: seq<Byte>): (parts: seq<Name>)
    ensures |parts| > 0
    decreases |s|
  {
    var n := FirstSlash(s);
    if n == |s| then [s] else [s[..n]] + Split(s[n + 1..])
  }

  /** The components the scan looks up: an empty part is skipped when another one
      follows it, which is then taken as it is; an empty last part is no component. */
  function Scan(parts: seq<Name>): seq<Name>
    decreases |parts|
  {
    if parts == [] || parts == [[]] then []
    else if parts[0] == [] then [parts[1]] + Scan(parts[2..])
    else [parts[0]] + Scan(parts[1..])
  }

  function Components(path: seq<Byte>): seq<Name> { Scan(Split(path)) }

  function ResolvePath(t: Tree, path: seq<Byte>): Found {
    if path == [SLASH] then AtDir(t.root) else Resolve(t, t.root, Components(path))
  }

  // --------------------------------------------------------- plain splitting

  function NonEmpty(parts: seq<Name>): seq<Name>
    decreases |parts|
  {
    if parts == [] then [] else (if parts[0] == [] then [] else [parts[0]]) + NonEmpty(parts[1..])
  }

  lemma {:induction false} NonEmptyHasNoEmpty(parts: seq<Name>)
    ensures [] !in NonEmpty(parts)
    decreases |parts|
  {
    if parts != [] { NonEmptyHasNoEmpty(parts[1..]); }
  }

  lemma {:induction false} ScanSkipsEmpties(parts: seq<Name>)
    requires [] !in Scan(parts)
    ensures Scan(parts) == NonEmpty(parts)
    decreases |parts|
  {
    if parts == [] {
    } else if parts == [[]] {
      assert parts[1..] == [];
    } else if parts[0] == [] {
      assert parts[1] in Scan(parts);
      ScanSkipsEmpties(parts[2..]);
      assert parts[1..][1..] == parts[2..];
    } else {
      ScanSkipsEmpties(parts[1..]);
    }
  }

  /** Two slashes at `i` with another one, or the end, behind them. */
  predicate DeadEnd(path: seq<Byte>, i: nat) {
    i + 1 < |path| && path[i] == SLASH && path[i + 1] == SLASH && (i + 2 == |path| || path[i + 2] == SLASH)
  }

  /** "/", a path that starts with two slashes, or one with a dead end. */
  predicate StopsAtNothing(path: seq<Byte>) {
    || (path != [] && path[0] == SLASH && (|path| == 1 || path[1] == SLASH))
    || exists i: nat | i < |path| :: DeadEnd(path, i)
  }

  /** Behind a component and its slash, what follows decides. */
  lemma StopsLater(path: seq<Byte>, j: nat, k: nat)
    requires j < k < |path| && path[k] == SLASH && (forall i :: j <= i < k ==> path[i] != SLASH)
    requires j == 0 || (j == 1 && path[0] == SLASH)
    ensures StopsAtNothing(path) <==> StopsAtNothing(path[k + 1..])
  {
    var s := path[k + 1..];
    if i: nat :| i < |s| && DeadEnd(s, i) {
      assert DeadEnd(path, k + 1 + i);
    } else if s != [] && s[0] == SLASH && (|s| == 1 || s[1] == SLASH) {
      assert DeadEnd(path, k);
    } else if i: nat :| i < |path| && DeadEnd(path, i) {
      assert i > k;
      assert DeadEnd(s, i - (k + 1));
    }
  }

  lemma SlashFrom(path: seq<Byte>, j: nat)
    requires j <= |path|
    ensures var k := j + FirstSlash(path[j..]);
      && k <= |path| && (k < |path| ==> path[k] == SLASH) && (forall i :: j <= i < k ==> path[i] != SLASH)
  {
    var t := path[j..];
    var n := FirstSlash(t);
    assert forall i :: 0 <= i < n ==> t[i] in t[..n];
    assert forall i :: j <= i < j + n ==> path[i] == t[i - j];
  }

  /** The first turn of the scan stops, or leaves it to what is behind `k`. */
  lemma FirstTurn(path: seq<Byte>) returns (j: nat, k: nat)
    requires path != []
    ensures j == (if path[0] == SLASH then 1 else 0) && j <= k <= |path| && (k < |path| ==> path[k] == SLASH)
    ensures forall i :: j <= i < k ==> path[i] != SLASH
    ensures [] in Components(path) <==> k == j || (k + 1 < |path| && [] in Components(path[k + 1..]))
  {
    ScanTurn(path, 0);
    j := if path[0] == SLASH then 1 else 0;
    SlashFrom(path, j);
    hide Components, FirstSlash;
    assert path[0..] == path;
    k := j + FirstSlash(path[j..]);
    assert Components(path) == [path[j..k]] + Rest(path, k + 1);
    assert |path[j..k]| == k - j;
  }

  /** The scan stops at an empty component exactly on such paths. */
  lemma {:induction false} StopsExactly(path: seq<Byte>)
    ensures [] in Components(path) <==> StopsAtNothing(path)
    decreases |path|
  {
    hide Components, StopsAtNothing;
    if path == [] {
      NoComponents();
    } else {
      var j, k := FirstTurn(path);
      if k == j {
        StopsAtOnce(path, k);
      } else if k + 1 >= |path| {
        StopsNowhere(path, j, k);
      } else {
        StopsLater(path, j, k);
        StopsExactly(path[k + 1..]);
      }
    }
  }

  lemma StopsAtOnce(path: seq<Byte>, k: nat)
    requires path != [] && k == (if path[0] == SLASH then 1 else 0) && (k < |path| ==> path[k] == SLASH)
    ensures StopsAtNothing(path)
  {
  }

  lemma NoComponents()
    ensures Components([]) == [] && !StopsAtNothing([])
  {
  }

  lemma StopsNowhere(path: seq<Byte>, j: nat, k: nat)
    requires j < k <= |path| <= k + 1 && (forall i :: j <= i < k ==> path[i] != SLASH)
    requires j == 0 || (j == 1 && path[0] == SLASH)
    ensures !StopsAtNothing(path)
  {
  }

  /** The scan takes the same components as splitting at every slash and dropping
      empty parts, exactly when it does not stop at an empty one. */
  lemma ScanIsSplitting(path: seq<Byte>)
    ensures Components(path) == NonEmpty(Split(path)) <==> !StopsAtNothing(path)
  {
    StopsExactly(path);
    NonEmptyHasNoEmpty(Split(path));
    if [] !in Components(path) { ScanSkipsEmpties(Split(path)); }
  }

  /** No entry has the empty name. */
  ghost predicate ProperNames(t: Tree) {
    forall d: Entry, i: nat {:trigger t.dirs[d][i]} :: d in t.dirs && i < |t.dirs[d]| ==> t.dirs[d][i].name != []
  }

  /** Growing a tree by proper names keeps all names proper. */
  lemma DirectoryStaysProper(t: Tree, p: Entry, name: Name, dot: Entry, dotdot: Entry, entry: Entry)
    requires ProperNames(t) && p in t.dirs && p in t.rank && dot !in t.dirs && name != []
    ensures ProperNames(AddDir(t, p, name, dot, dotdot, entry))
  {
  }

  lemma FileStaysProper(t: Tree, p: Entry, name: Name, entry: Entry)
    requires ProperNames(t) && p in t.dirs && name != []
    ensures ProperNames(AddFile(t, p, name, entry))
  {
  }

  /** Up to the first empty component the scan is plain splitting. */
  lemma {:induction false} ScanUntilEmpty(parts: seq<Name>) returns (n: nat)
    requires [] in Scan(parts)
    ensures n < |Scan(parts)| && Scan(parts)[n] == [] && Scan(parts)[..n] <= NonEmpty(parts)
    ensures [] !in Scan(parts)[..n]
    decreases |parts|
  {
    var skip := if parts[0] == [] then 1 else 0;
    var head, rest := parts[skip], parts[skip + 1..];
    assert parts[1..][1..] == parts[2..];
    if head == [] {
      n := 0;
    } else {
      n := ScanUntilEmpty(rest);
      assert Scan(parts)[..n + 1] == [head] + Scan(rest)[..n];
      assert NonEmpty(parts) == [head] + NonEmpty(rest);
      n := n + 1;
    }
  }

  /** An empty component is nowhere to be found. */
  lemma EmptyIsMissing(t: Tree, a: seq<Name>, b: seq<Name>)
    requires ProperNames(t)
    ensures Resolve(t, t.root, a + [[]] + b) == match Resolve(t, t.root, a) case AtDir(_) => Missing case other => other
  {
    ResolveConcat(t, t.root, a + [[]], b);
    ResolveConcat(t, t.root, a, [[]]);
    if Resolve(t, t.root, a).AtDir? { ResolveOne(t, Resolve(t, t.root, a).dir, []); }
  }

  /** The names up to the first empty one. */
  function UntilEmpty(names: seq<Name>): seq<Name>
    decreases |names|
  {
    if names == [] || names[0] == [] then [] else [names[0]] + UntilEmpty(names[1..])
  }

  lemma {:induction false} UntilEmptyAt(names: seq<Name>, n: nat)
    requires n < |names| && names[n] == [] && [] !in names[..n]
    ensures UntilEmpty(names) == names[..n]
    decreases n
  {
    if n > 0 {
      assert names[0] == names[..n][0];
      assert names[..n] == [names[0]] + names[1..][..n - 1];
      UntilEmptyAt(names[1..], n - 1);
    }
  }

  /** What a scan that stops at component `n` finds, and what it would go on to. */
  lemma StoppedScan(t: Tree, c: seq<Name>, plain: seq<Name>, n: nat)
    requires ProperNames(t) && n < |c| && c[n] == [] && [] !in c[..n] && c[..n] <= plain
    ensures var before := Resolve(t, t.root, UntilEmpty(c));
      && Resolve(t, t.root, c) == (if before.AtDir? then Missing else before)
      && (before.AtDir? || Resolve(t, t.root, plain) == before)
  {
    hide ProperNames, Resolve, UntilEmpty;
    UntilEmptyAt(c, n);
    assert c == c[..n] + [[]] + c[n + 1..];
    assert plain == c[..n] + plain[n..];
    EmptyIsMissing(t, c[..n], c[n + 1..]);
    ResolveConcat(t, t.root, c[..n], plain[n..]);
  }

  /** What findDir returns is what splitting at slashes would, exactly when the scan
      does not stop at an empty component, or has reached a file before it does, or
      there is nothing to find. Otherwise findDir misses what is there. */
  lemma ResolveIsSplitting(t: Tree, path: seq<Byte>)
    requires ProperNames(t)
    ensures var plain := Resolve(t, t.root, NonEmpty(Split(path)));
      && (ResolvePath(t, path) == plain <==>
        || path == [SLASH] || !StopsAtNothing(path) || plain == Missing
        || Resolve(t, t.root, UntilEmpty(Components(path))).AtFile?)
      && (ResolvePath(t, path) == plain || ResolvePath(t, path) == Missing)
      && (plain.AtDir? ==> (ResolvePath(t, path) == plain <==> path == [SLASH] || !StopsAtNothing(path)))
  {
    hide Split, Scan, NonEmpty, StopsAtNothing, ProperNames, Resolve, UntilEmpty;
    var parts := Split(path);
    StopsExactly(path);
    ScanIsSplitting(path);
    if path == [SLASH] {
      RootSplits(t);
    } else if [] in Components(path) {
      var n := ScanUntilEmpty(parts);
      StoppedScan(t, Components(path), NonEmpty(parts), n);
    }
  }

  lemma RootSplits(t: Tree)
    ensures Resolve(t, t.root, NonEmpty(Split([SLASH]))) == AtDir(t.root)
  {
    hide Resolve, Scan;
    SplitAt([], []);
    assert [] + [SLASH] + [] == [SLASH];
    var one: seq<Name>, none: seq<Name> := [[]], [];
    DropEmpty(one);
    DropEmpty(none);
    assert Split([SLASH]) == one + one && one + none == one;
    assert Resolve(t, t.root, []) == AtDir(t.root) by { ResolveNothing(t, t.root); }
  }

  lemma DropEmpty(parts: seq<Name>)
    ensures NonEmpty([[]] + parts) == NonEmpty(parts)
    ensures Scan([[]]) == [] && NonEmpty([]) == []
  {
    assert ([[]] + parts)[1..] == parts;
  }

  lemma KeepFirst(name: Name, parts: seq<Name>)
    requires name != []
    ensures NonEmpty([name] + parts) == [name] + NonEmpty(parts)
    ensures Scan([name] + parts) == [name] + Scan(parts)
    ensures Scan([[], name] + parts) == [name] + Scan(parts) && Scan([[], []] + parts) == [[]] + Scan(parts)
  {
    assert ([name] + parts)[1..] == parts;
    assert ([[], name] + parts)[2..] == parts && ([[], []] + parts)[2..] == parts;
  }

  lemma ResolveNothing(t: Tree, d: Entry)
    ensures Resolve(t, d, []) == AtDir(d)
  {
  }

  /** "a//" asks for the empty name in "a"; "a//a" does not. */
  lemma DeadEndInstance()
    ensures var a: Byte := 97;
      && Components([a, SLASH, SLASH]) == [[a], []] && NonEmpty(Split([a, SLASH, SLASH])) == [[a]]
      && Components([a, SLASH, SLASH, a]) == [[a], [a]]
  {
    hide Split, Scan, NonEmpty;
    var a: Byte := 97;
    SplitAt([], []);
    SplitAt([], [a]);
    SplitAt([a], [SLASH]);
    SplitAt([a], [SLASH, a]);
    SplitAt([a], []);
    assert [] + [SLASH] + [] == [SLASH] && [] + [SLASH] + [a] == [SLASH, a];
    assert [a] + [SLASH] + [SLASH] == [a, SLASH, SLASH] && [a] + [SLASH] + [SLASH, a] == [a, SLASH, SLASH, a];
    var none: seq<Name>, empties: seq<Name> := [], [[], []];
    assert Split([a, SLASH, SLASH]) == [[a]] + empties && Split([a, SLASH, SLASH, a]) == [[a]] + [[], [a]];
    KeepFirst([a], empties);
    KeepFirst([a], [[], [a]]);
    KeepFirst([a], none);
    DropEmpty(none);
    DropEmpty([[]]);
    assert empties == [[]] + [[]] == empties + none && [[], [a]] + none == [[], [a]] && [[]] + none == [[]];
    assert Scan(none) == none by { ScanNames(none); }
  }

  /** "a//" finds `a` when that is a file. */
  lemma DeadEndBehindFile(t: Tree, f: Entry)
    requires ProperNames(t) && Enter(t, t.root, [97]) == AtFile(f)
    ensures StopsAtNothing([97, SLASH, SLASH]) && ResolvePath(t, [97, SLASH, SLASH]) == AtFile(f)
  {
    var path: seq<Byte> := [97, SLASH, SLASH];
    DeadEndInstance();
    assert Components(path) == [[97], []] && Components(path)[1] == [];
    StopsExactly(path);
    hide Components;
    assert ResolvePath(t, path) == Resolve(t, t.root, [[97], []]);
  }

  /** A root directory with its two dot entries only has proper names. */
  lemma RootNames(t: Tree)
    requires WellFormed(t) && t.dirs.Keys == {t.root} && |t.dirs[t.root]| == 2
    ensures ProperNames(t)
  {
    assert HasDots(t, t.root);
  }

  // ---------------------------------------------------------- canonical paths

  predicate GoodName(name: Name) { name != [] && SLASH !in name }

  /** Names joined by single slashes. */
  function Join(names: seq<Name>): seq<Byte>
    requires names != []
    decreases |names|
  {
    if |names| == 1 then names[0] else names[0] + [SLASH] + Join(names[1..])
  }

  lemma SplitAt(a: seq<Byte>, b: seq<Byte>)
    requires SLASH !in a
    ensures Split(a) == [a] && Split(a + [SLASH] + b) == [a] + Split(b)
  {
    var s := a + [SLASH] + b;
    FirstSlashAt(a, b);
    assert s[..|a|] == a && s[|a| + 1..] == b;
    var n := FirstSlash(a);
    assert n == |a| by { assert a == a[..n] + a[n..]; }
  }

  lemma FirstSlashAt(a: seq<Byte>, b: seq<Byte>)
    requires SLASH !in a
    ensures FirstSlash(a + [SLASH] + b) == |a|
  {
    var s := a + [SLASH] + b;
    var n := FirstSlash(s);
    assert s[|a|] == SLASH;
    assert n < |s| && s[n] == SLASH;
    assert s[..|a|] == a;
    assert forall k :: 0 <= k < |a| ==> s[k] in a;
    assert forall k :: 0 <= k < n ==> s[k] in s[..n];
  }

  lemma {:induction false} SplitJoin(names: seq<Name>)
    requires names != [] && (forall k :: 0 <= k < |names| ==> GoodName(names[k]))
    ensures Split(Join(names)) == names && Split(Join(names) + [SLASH]) == names + [[]]
    decreases |names|
  {
    hide Split;
    var a := names[0];
    if |names| == 1 {
      SplitAt(a, []);
      SplitEmpty();
      assert a + [SLASH] + [] == a + [SLASH];
      assert names == [a];
    } else {
      var rest := Join(names[1..]);
      SplitJoin(names[1..]);
      SplitAt(a, rest);
      SplitAt(a, rest + [SLASH]);
      assert Join(names) + [SLASH] == a + [SLASH] + (rest + [SLASH]);
      assert names == [a] + names[1..];
      assert names + [[]] == [a] + (names[1..] + [[]]);
    }
  }

  lemma {:induction false} ScanNames(names: seq<Name>)
    requires forall k :: 0 <= k < |names| ==> names[k] != []
    ensures Scan(names) == names && Scan(names + [[]]) == names
    decreases |names|
  {
    if names == [] {
      assert names + [[]] == [[]];
    } else {
      ScanNames(names[1..]);
      assert (names + [[]])[1..] == names[1..] + [[]];
      assert names == [names[0]] + names[1..];
      assert (names + [[]])[0] == names[0];
    }
  }

  lemma ScanRooted(parts: seq<Name>)
    requires |parts| > 0 && parts[0] != []
    ensures Scan([[]] + parts) == Scan(parts)
  {
    assert ([[]] + parts)[1] == parts[0] && ([[]] + parts)[2..] == parts[1..];
  }

  /** A path of proper names joined by single slashes, with or without a slash in
      front or behind, stands for exactly these names. */
  lemma CanonicalPath(names: seq<Name>)
    requires names != [] && (forall k :: 0 <= k < |names| ==> GoodName(names[k]))
    ensures Components(Join(names)) == names
    ensures Components([SLASH] + Join(names)) == names
    ensures Components([SLASH] + Join(names) + [SLASH]) == names
    ensures Components(Join(names) + [SLASH]) == names
  {
    hide Split, Scan, Join;
    var path := Join(names);
    SplitJoin(names);
    ScanNames(names);
    RootedSplit(path);
    RootedSplit(path + [SLASH]);
    assert [SLASH] + (path + [SLASH]) == [SLASH] + path + [SLASH];
    ScanRooted(names);
    ScanRooted(names + [[]]);
  }

  lemma RootedSplit(s: seq<Byte>)
    ensures Split([SLASH] + s) == [[]] + Split(s)
  {
    SplitAt([], s);
    assert [] + [SLASH] + s == [SLASH] + s;
  }

  // ------------------------------------------------- paths of a growing tree

  /** The absolute path of some names. */
  function AbsPath(names: seq<Name>): seq<Byte> {
    [SLASH] + (if names == [] then [] else Join(names))
  }

  lemma AbsPathResolves(t: Tree, names: seq<Name>)
    requires forall k :: 0 <= k < |names| ==> GoodName(names[k])
    ensures ResolvePath(t, AbsPath(names)) == Resolve(t, t.root, names)
  {
    if names != [] {
      CanonicalPath(names);
      JoinNotEmpty(names);
    }
  }

  lemma JoinNotEmpty(names: seq<Name>)
    requires names != [] && GoodName(names[0])
    ensures |Join(names)| > 0
  {
  }

  /** Taking "./" out of a path string never changes what it resolves to. */
  lemma DotInPath(t: Tree, a: seq<Name>, b: seq<Name>)
    requires WellFormed(t) && (forall name :: name in a + b ==> GoodName(name))
    ensures ResolvePath(t, AbsPath(a + [DOT] + b)) == ResolvePath(t, AbsPath(a + b))
  {
    assert forall name :: name in a + [DOT] + b ==> name == DOT || name in a + b;
    AbsPathResolves(t, a + [DOT] + b);
    AbsPathResolves(t, a + b);
    DotIsNeutral(t, a, b);
  }

  /** Nor does taking out "x/../", x a directory there. */
  lemma DotDotInPath(t: Tree, a: seq<Name>, x: Name, b: seq<Name>)
    requires WellFormed(t) && GoodName(x) && (forall name :: name in a + b ==> GoodName(name))
    requires ResolvePath(t, AbsPath(a)).AtDir? ==>
      ResolvePath(t, AbsPath(a)).dir in t.dirs && IsChildDir(t, ResolvePath(t, AbsPath(a)).dir, x)
    ensures ResolvePath(t, AbsPath(a + [x, DOTDOT] + b)) == ResolvePath(t, AbsPath(a + b))
  {
    assert forall name :: name in a + [x, DOTDOT] + b ==> name == x || name == DOTDOT || name in a + b;
    assert forall name :: name in a ==> name in a + b;
    AbsPathResolves(t, a);
    AbsPathResolves(t, a + [x, DOTDOT] + b);
    AbsPathResolves(t, a + b);
    DotDotCancels(t, a, x, b);
  }

  /** Any path that resolved keeps resolving to the same entry. */
  lemma PathsSurvive(t: Tree, t': Tree, path: seq<Byte>)
    requires Extends(t, t') && ResolvePath(t, path) != Missing
    ensures ResolvePath(t', path) == ResolvePath(t, path)
  {
    if path != [SLASH] { ExtendsKeepsPaths(t, t', t.root, Components(path)); }
  }

  /** No entry of a tree leads outside it. */
  lemma TargetsInTree(t: Tree, p: Entry)
    requires WellFormed(t) && p in t.dirs
    ensures forall k :: 0 <= k < |t.dirs[p]| && !t.dirs[p][k].file ==> t.dirs[p][k].target in t.dirs
  {
    assert HasDots(t, p);
    forall k | 0 <= k < |t.dirs[p]| && !t.dirs[p][k].file ensures t.dirs[p][k].target in t.dirs {
      assert k < 2 || ChildOk(t, p, k);
    }
  }

  /** The path of a new directory leads to it exactly when its name was unused. */
  lemma NewDirectoryPath(t: Tree, names: seq<Name>, p: Entry, name: Name, dot: Entry, dotdot: Entry, entry: Entry)
    requires WellFormed(t) && p in t.dirs && p in t.rank && dot !in t.dirs && GoodName(name)
    requires (forall k :: 0 <= k < |names| ==> GoodName(names[k])) && ResolvePath(t, AbsPath(names)) == AtDir(p)
    requires forall k :: 0 <= k < |t.dirs[p]| ==> t.dirs[p][k].entry != entry
    ensures ResolvePath(AddDir(t, p, name, dot, dotdot, entry), AbsPath(names + [name])) == AtDir(dot)
      <==> Lookup(t.dirs[p], name) == |t.dirs[p]|
  {
    hide HasDots, ParentOk, ChildOk, Extends, ResolvePath, Resolve, AbsPath, Lookup, GoodName;
    assert WellFormed(t);
    hide WellFormed;
    var t' := AddDir(t, p, name, dot, dotdot, entry);
    AbsPathResolves(t, names);
    AbsPathResolves(t', names + [name]);
    AddDirKeeps(t, p, name, dot, dotdot, entry);
    TargetsInTree(t, p);
    NewEntryFound(t, t', names, p, Link(name, false, dot, entry));
  }

  /** A directory named "." is never found: the path leads to its parent. */
  lemma DotIsTaken(t: Tree, p: Entry, dot: Entry, dotdot: Entry, entry: Entry)
    requires WellFormed(t) && p in t.dirs && p in t.rank && dot !in t.dirs && p == t.root
    ensures ResolvePath(AddDir(t, p, DOT, dot, dotdot, entry), [SLASH] + DOT) == AtDir(t.root)
  {
    var t' := AddDir(t, p, DOT, dot, dotdot, entry);
    AddDirKeeps(t, p, DOT, dot, dotdot, entry);
    assert Join([DOT]) == DOT && AbsPath([DOT]) == [SLASH] + DOT;
    AbsPathResolves(t', [DOT]);
    ResolveOne(t', t.root, DOT);
    EnterDots(t', t.root);
  }

  /** And the path of a new file leads to its entry exactly when its name was unused. */
  lemma NewFilePath(t: Tree, names: seq<Name>, p: Entry, name: Name, entry: Entry)
    requires WellFormed(t) && p in t.dirs && GoodName(name)
    requires (forall k :: 0 <= k < |names| ==> GoodName(names[k])) && ResolvePath(t, AbsPath(names)) == AtDir(p)
    requires forall k :: 0 <= k < |t.dirs[p]| ==> t.dirs[p][k].entry != entry
    ensures ResolvePath(AddFile(t, p, name, entry), AbsPath(names + [name])) == AtFile(entry)
      <==> Lookup(t.dirs[p], name) == |t.dirs[p]|
  {
    var t' := AddFile(t, p, name, entry);
    AbsPathResolves(t, names);
    AbsPathResolves(t', names + [name]);
    AddFileKeeps(t, p, name, entry);
    NewEntryFound(t, t', names, p, Link(name, true, entry, entry));
  }

  // -------------------------------------------------------- one turn of the scan

  /** What the scan still has to look up from position `i`. */
  function Rest(path: seq<Byte>, i: nat): seq<Name> {
    if i < |path| then Components(path[i..]) else []
  }

  lemma SplitEmpty()
    ensures Split([]) == [[]]
  {
  }

  /** The parts after the first. */
  function Tail(t: seq<Byte>): seq<Name> {
    var n := FirstSlash(t);
    if n < |t| then Split(t[n + 1..]) else []
  }

  lemma SplitHead(t: seq<Byte>)
    ensures Split(t) == [t[..FirstSlash(t)]] + Tail(t)
  {
    var n := FirstSlash(t);
    if n == |t| { assert t[..n] == t; }
  }

  lemma ScanTail(t: seq<Byte>)
    ensures Scan(Tail(t)) == Rest(t, FirstSlash(t) + 1)
  {
    hide Split;
    var n := FirstSlash(t);
    if n + 1 == |t| {
      assert t[n + 1..] == [];
      SplitEmpty();
    }
  }

  lemma ScanParts(head: Name, tail: seq<Name>)
    ensures head != [] ==> Scan([head] + tail) == [head] + Scan(tail)
    ensures Scan([[], head] + tail) == [head] + Scan(tail)
  {
    assert ([head] + tail)[1..] == tail;
    assert ([[], head] + tail)[2..] == tail && ([[], head] + tail)[1] == head;
  }

  /** One turn: skip one slash, take the bytes up to the next, step over it. */
  lemma ScanTurn(path: seq<Byte>, i: nat)
    requires i < |path|
    ensures var j := if path[i] == SLASH then i + 1 else i;
      var k := j + FirstSlash(path[j..]);
      && j <= |path| && Rest(path, i) == [path[j..k]] + Rest(path, k + 1)
  {
    hide Split, Scan, Tail;
    var j := if path[i] == SLASH then i + 1 else i;
    var s, t := path[i..], path[j..];
    var k := j + FirstSlash(t);
    SplitHead(t);
    ScanTail(t);
    var head := t[..FirstSlash(t)];
    assert head == path[j..k];
    ScanParts(head, Tail(t));
    if path[i] == SLASH {
      assert [SLASH] + t == s;
      RootedSplit(t);
      assert [[]] + Split(t) == [[], head] + Tail(t);
    } else {
      assert s == t && t[0] != SLASH;
      NonEmptyHead(t);
    }
    RestOf(path, j, FirstSlash(t) + 1);
  }

  lemma NonEmptyHead(t: seq<Byte>)
    requires t != [] && t[0] != SLASH
    ensures FirstSlash(t) > 0
  {
  }

  lemma RestOf(path: seq<Byte>, j: nat, n: nat)
    requires j <= |path|
    ensures Rest(path[j..], n) == Rest(path, j + n)
  {
    if j + n < |path| { assert path[j..][n..] == path[j + n..]; }
  }
}
