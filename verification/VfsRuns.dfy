/** Whole runs of the virtual filesystem: descriptors, positions and contents. */
module VfsRuns {
  import opened Bytes
  import opened Trees
  import opened Paths
  import opened RamFiles
  import opened VfsState

  ghost predicate IsRun(states: seq<VState>, ops: seq<VOp>) {
    |states| == |ops| + 1 && forall i :: 0 <= i < |ops| ==> Next(states[i], ops[i], states[i + 1])
  }

  // ------------------------------------------------------------ what stays

  /** Records keep their file and filesystem, trees and blocks only grow. */
  ghost predicate Grown(s: VState, s': VState) {
    && Extends(s.tree, s'.tree) && s.content.Keys <= s'.content.Keys && s.systems <= s'.systems
    && |s.files| <= |s'.files|
    && (forall k :: 0 <= k < |s.files| ==>
      s'.files[k].fileNum == s.files[k].fileNum && s'.files[k].filesystem == s.files[k].filesystem)
  }

  lemma MkDirKeeps(s: VState, op: VOp, s': VState)
    requires Consistent(s) && op.MkDir? && Next(s, op, s')
    ensures Consistent(s') && Grown(s, s')
  {
    hide WellFormed;
    var p := ResolvePath(s.tree, op.parent).dir;
    AddDirKeeps(s.tree, p, op.name, op.dot, op.dotdot, op.entry);
    AddDirChains(s.tree, p, op.name, op.dot, op.dotdot, op.entry);
  }

  lemma MkFileKeeps(s: VState, op: VOp, s': VState)
    requires Consistent(s) && op.MkFile? && Next(s, op, s')
    ensures Consistent(s') && Grown(s, s')
  {
    hide WellFormed;
    var p := ResolvePath(s.tree, op.parent).dir;
    AddFileKeeps(s.tree, p, op.name, op.entry);
    AddFileChains(s.tree, p, op.name, op.entry);
  }

  lemma NextKeeps(s: VState, op: VOp, s': VState)
    requires Consistent(s) && Next(s, op, s')
    ensures Consistent(s') && Grown(s, s')
  {
    hide WellFormed, OpenedAs;
    if op.MkDir? {
      MkDirKeeps(s, op, s');
    } else if op.MkFile? {
      MkFileKeeps(s, op, s');
    }
  }

  lemma GrownTrans(s: VState, s1: VState, s2: VState)
    requires Grown(s, s1) && Grown(s1, s2)
    ensures Grown(s, s2)
  {
  }

  /** Every run keeps the state consistent and what is open, made and named. */
  lemma {:induction false} RunGrows(states: seq<VState>, ops: seq<VOp>)
    requires IsRun(states, ops) && Consistent(states[0])
    ensures Consistent(states[|ops|]) && Grown(states[0], states[|ops|])
    decreases |ops|
  {
    hide Consistent, Grown, Next;
    if ops == [] {
      GrownSelf(states[0]);
    } else {
      NextKeeps(states[0], ops[0], states[1]);
      RunGrows(states[1..], ops[1..]);
      GrownTrans(states[0], states[1], states[|ops|]);
    }
  }

  lemma GrownSelf(s: VState)
    ensures Grown(s, s)
  {
  }

  // ------------------------------------------------------------ descriptors

  function Opens(ops: seq<VOp>): nat {
    if ops == [] then 0 else (if ops[0].Open? then 1 else 0) + Opens(ops[1..])
  }

  /** Where the last seek on `fd` put the position, `pos` without one. */
  function LastSeek(ops: seq<VOp>, fd: nat, pos: int): int
    decreases |ops|
  {
    if ops == [] then pos else
    LastSeek(ops[1..], fd, if ops[0].Seek? && ops[0].fd == fd then ops[0].pos else pos)
  }

  /** Descriptors are handed out in order: one for each open. */
  lemma {:induction false} OpensCount(states: seq<VState>, ops: seq<VOp>)
    requires IsRun(states, ops)
    ensures |states[|ops|].files| == |states[0].files| + Opens(ops)
    decreases |ops|
  {
    if ops != [] { OpensCount(states[1..], ops[1..]); }
  }

  /** A position is where its last seek put it. */
  lemma {:induction false} PositionIsLastSeek(states: seq<VState>, ops: seq<VOp>, fd: nat)
    requires IsRun(states, ops) && fd < |states[0].files|
    ensures fd < |states[|ops|].files|
    ensures states[|ops|].files[fd].pos == LastSeek(ops, fd, states[0].files[fd].pos)
    decreases |ops|
  {
    if ops != [] { PositionIsLastSeek(states[1..], ops[1..], fd); }
  }

  lemma RunPart(states: seq<VState>, ops: seq<VOp>, j: nat)
    requires IsRun(states, ops) && j <= |ops|
    ensures IsRun(states[..j + 1], ops[..j]) && IsRun(states[j..], ops[j..])
    ensures states[..j + 1][j] == states[j] && states[j..][|ops| - j] == states[|ops|] && states[j..][0] == states[j]
  {
    hide Next;
  }

  /** The k-th opened file keeps descriptor k: its record, its filesystem, and the
      position its last seek gave it. */
  lemma DescriptorStable(states: seq<VState>, ops: seq<VOp>, j: nat)
    requires IsRun(states, ops) && Consistent(states[0]) && j < |ops| && ops[j].Open?
    ensures var fd := |states[0].files| + Opens(ops[..j]);
      && fd == |states[j].files| && fd < |states[j + 1].files| && fd < |states[|ops|].files|
      && OpenedAs(states[j], states[j + 1].files[fd], ops[j].filename, ops[j].number)
      && states[|ops|].files[fd] == states[j + 1].files[fd].(pos := LastSeek(ops[j + 1..], fd, 0))
  {
    hide Consistent, OpenedAs;
    RunPart(states, ops, j);
    RunPart(states, ops, j + 1);
    OpensCount(states[..j + 1], ops[..j]);
    RunGrows(states[..j + 2], ops[..j + 1]);
    RunGrows(states[j + 1..], ops[j + 1..]);
    OpenedAtStart(states[j], ops[j], states[j + 1]);
    PositionIsLastSeek(states[j + 1..], ops[j + 1..], |states[j].files|);
  }

  lemma OpenedAtStart(s: VState, op: VOp, s': VState)
    requires op.Open? && Next(s, op, s')
    ensures |s'.files| == |s.files| + 1 && s'.files[|s.files|].pos == 0
    ensures OpenedAs(s, s'.files[|s.files|], op.filename, op.number)
  {
  }

  // ---------------------------------------------------------------- contents

  /** The data written to file `e` in a run, in order. */
  function WritesTo(states: seq<VState>, ops: seq<VOp>, e: Entry): seq<seq<Byte>>
    requires |states| == |ops| + 1
    decreases |ops|
  {
    if ops == [] then [] else
    (if ops[0].Write? && ResolvePath(states[0].tree, ops[0].path) == AtFile(e) then [ops[0].data] else [])
      + WritesTo(states[1..], ops[1..], e)
  }

  /** A file's block is what the writes to that file made of it; nothing else in
      the run changes it. */
  lemma {:induction false} ContentIsWrites(states: seq<VState>, ops: seq<VOp>, e: Entry)
    requires IsRun(states, ops) && Consistent(states[0]) && e in states[0].content
    ensures forall w :: w in WritesTo(states, ops, e) ==> |w| <= |states[0].content[e]|
    ensures e in states[|ops|].content
    ensures states[|ops|].content[e] == AfterWrites(states[0].content[e], WritesTo(states, ops, e))
    decreases |ops|
  {
    hide ResolvePath, Overwritten, Next, Consistent, Grown;
    if ops != [] {
      NextKeeps(states[0], ops[0], states[1]);
      ContentStep(states[0], ops[0], states[1], e);
      ContentIsWrites(states[1..], ops[1..], e);
      var rest := WritesTo(states[1..], ops[1..], e);
      if ops[0].Write? && ResolvePath(states[0].tree, ops[0].path) == AtFile(e) {
        WritesCons(states[0].content[e], ops[0].data, rest);
      } else {
        assert WritesTo(states, ops, e) == rest;
      }
    }
  }

  /** One step writes to a file only when it is a write to that file. */
  lemma ContentStep(s: VState, op: VOp, s': VState, e: Entry)
    requires Next(s, op, s') && e in s.content
    ensures e in s'.content && |s'.content[e]| == |s.content[e]|
    ensures if op.Write? && ResolvePath(s.tree, op.path) == AtFile(e)
      then |op.data| <= |s.content[e]| && s'.content[e] == Overwritten(s.content[e], op.data)
      else s'.content[e] == s.content[e]
  {
    hide ResolvePath, Overwritten, OpenedAs, AddDir, AddFile, Readable;
  }

  lemma WritesCons(content: seq<Byte>, data: seq<Byte>, rest: seq<seq<Byte>>)
    requires |data| <= |content| && (forall w :: w in rest ==> |w| <= |content|)
    ensures AfterWrites(content, [data] + rest) == AfterWrites(Overwritten(content, data), rest)
  {
    assert ([data] + rest)[1..] == rest;
  }

  /** After any run, a file opened in it is still behind its descriptor and its
      path, and a read gives the bytes at the position of the last seek that the
      file's own writes left, counted from any moment `i` at which it existed. */
  lemma ReadAfterAnyRun(states: seq<VState>, ops: seq<VOp>, j: nat, e: Entry, i: nat, count: nat)
    requires IsRun(states, ops) && Consistent(states[0]) && j < |ops| && ops[j].Open?
    requires NoMatchAfter(states[j].mounts, ops[j].filename, 0)
    requires ResolvePath(states[j].tree, ops[j].filename) == AtFile(e)
    requires i <= |ops| && e in states[i].content
    requires var p := LastSeek(ops[j + 1..], |states[j].files|, 0); 0 <= p && p + count <= BLOCK
    ensures |states[j].files| == |states[0].files| + Opens(ops[..j])
    ensures var fd, s := |states[j].files|, states[|ops|];
      var p := LastSeek(ops[j + 1..], fd, 0);
      && ResolvePath(s.tree, ops[j].filename) == AtFile(e)
      && Readable(s, fd, count) && e in s.content && |states[i].content[e]| == BLOCK
      && (forall w :: w in WritesTo(states[i..], ops[i..], e) ==> |w| <= BLOCK)
      && ReadBytes(s, fd, count) == AfterWrites(states[i].content[e], WritesTo(states[i..], ops[i..], e))[p..p + count]
  {
    hide Next, Grown, WellFormed, Extends, ResolvePath, AfterWrites, WritesTo, LastSeek;
    var s := states[|ops|];
    RunPart(states, ops, i);
    RunPart(states, ops, j);
    RunGrows(states[..i + 1], ops[..i]);
    RunGrows(states[..j + 1], ops[..j]);
    RunGrows(states, ops);
    RunGrows(states[j..], ops[j..]);
    DescriptorStable(states, ops, j);
    ContentIsWrites(states[i..], ops[i..], e);
    RootOpened(states[j], states[j + 1].files[|states[j].files|], ops[j].filename, ops[j].number);
    assert Extends(states[j].tree, s.tree) by { GrownExtends(states[j], s); }
    PathsSurvive(states[j].tree, s.tree, ops[j].filename);
  }

  lemma GrownExtends(s: VState, s': VState)
    requires Grown(s, s')
    ensures Extends(s.tree, s'.tree)
  {
  }

  lemma RootOpened(s: VState, f: FileValue, filename: seq<Byte>, number: int)
    requires Consistent(s) && OpenedAs(s, f, filename, number) && NoMatchAfter(s.mounts, filename, 0)
    requires ResolvePath(s.tree, filename).AtFile?
    ensures f.fileNum == Ram(ResolvePath(s.tree, filename).entry)
  {
    assert forall i: nat, k: nat :: !Chosen(s.mounts, filename, i, k);
  }

  // ------------------------------------------------------------------- paths

  /** mkDir and mkFile are given names, not the empty string. */
  ghost predicate NamesGiven(ops: seq<VOp>) {
    forall i :: 0 <= i < |ops| ==> (ops[i].MkDir? || ops[i].MkFile? ==> ops[i].name != [])
  }

  lemma NextKeepsNames(s: VState, op: VOp, s': VState)
    requires ProperNames(s.tree) && Next(s, op, s') && (op.MkDir? || op.MkFile? ==> op.name != [])
    ensures ProperNames(s'.tree)
  {
    hide ProperNames, ResolvePath, OpenedAs, AddDir, AddFile;
    if op.MkDir? {
      DirectoryStaysProper(s.tree, ResolvePath(s.tree, op.parent).dir, op.name, op.dot, op.dotdot, op.entry);
    } else if op.MkFile? {
      FileStaysProper(s.tree, ResolvePath(s.tree, op.parent).dir, op.name, op.entry);
    }
  }

  lemma {:induction false} RunKeepsNames(states: seq<VState>, ops: seq<VOp>)
    requires IsRun(states, ops) && NamesGiven(ops) && ProperNames(states[0].tree)
    ensures ProperNames(states[|ops|].tree)
    decreases |ops|
  {
    hide Next, ProperNames;
    if ops != [] {
      NextKeepsNames(states[0], ops[0], states[1]);
      RunKeepsNames(states[1..], ops[1..]);
    }
  }

  /** In the tree any run from the fresh ramfs builds, findDir resolves a path as
      splitting at slashes does, under the same exact condition. */
  lemma ResolveAfterAnyRun(states: seq<VState>, ops: seq<VOp>, path: seq<Byte>)
    requires IsRun(states, ops) && NamesGiven(ops) && AtStart(states[0])
    ensures var t := states[|ops|].tree; var plain := Resolve(t, t.root, NonEmpty(Split(path)));
      && (ResolvePath(t, path) == plain <==>
        || path == [SLASH] || !StopsAtNothing(path) || plain == Missing
        || Resolve(t, t.root, UntilEmpty(Components(path))).AtFile?)
      && (plain.AtDir? ==> (ResolvePath(t, path) == plain <==> path == [SLASH] || !StopsAtNothing(path)))
  {
    RootNames(states[0].tree);
    RunKeepsNames(states, ops);
    ResolveIsSplitting(states[|ops|].tree, path);
  }
}
