/** All-or-nothing replacement of a group of files. The file system is a map from paths to nodes;
    every call on it may fail. `trace` records the state after each call. */
module FileCommit {
  import opened Sets

  type Path = string

  datatype Node = File(content: string) | Directory

  type Files = map<Path, Node>

  const TMP_SUFFIX: string := ".tmp"

  /** "<final path>.<id>.tmp" */
  function BuildTempPath(finalPath: Path, id: string): Path {
    finalPath + "." + id + TMP_SUFFIX
  }

  /** A name that `mkstemps` may pick for a temporary path beside `p`. */
  predicate IsTempOf(t: Path, p: Path) {
    |t| == |p| + 11 && t[..|p|] == p && t[|p|] == '.' && t[|p| + 7..] == TMP_SUFFIX
  }

  /** A temporary path is beside its file: the file's path, a dot, six characters and ".tmp". */
  lemma TempNameExactly(t: Path, p: Path)
    ensures IsTempOf(t, p) <==> exists id: string :: |id| == 6 && t == p + "." + id + ".tmp"
    ensures forall id: string :: |id| == 6 ==> BuildTempPath(p, id) == p + "." + id + ".tmp"
  {
    if IsTempOf(t, p) {
      var id := t[|p| + 1..|p| + 7];
      assert t == t[..|p|] + [t[|p|]] + id + t[|p| + 7..];
      assert t == p + "." + id + ".tmp";
    }
    if id: string :| |id| == 6 && t == p + "." + id + ".tmp" {
      assert t[..|p|] == p && t[|p|] == '.' && t[|p| + 7..] == ".tmp";
    }
  }

  class FileSystem {
    var files: Files
    ghost var trace: seq<Files>
    /** Whether a call has failed for a reason outside this model. */
    ghost var faults: bool

    /** The trace grew by the current state. */
    twostate predicate Stepped()
      reads this
    {
      trace == old(trace) + [files]
    }

    method Status(p: Path) returns (known: bool, exists_: bool, isDirectory: bool)
      modifies `faults
      ensures known ==> (exists_ <==> p in files) && (isDirectory <==> p in files && files[p].Directory?)
      ensures faults == (old(faults) || !known)
    {
      known := *;
      if !known { faults := true; }
      exists_ := p in files;
      isDirectory := p in files && files[p].Directory?;
    }

    method Mkstemps(p: Path) returns (ok: bool, t: Path)
      modifies this
      ensures ok ==> IsTempOf(t, p) && t !in old(files) && files == old(files)[t := File("")]
      ensures !ok ==> files == old(files)
      ensures faults == (old(faults) || !ok)
      ensures Stepped()
    {
      var id: string := *;
      t := BuildTempPath(p, id);
      var allowed: bool := *;
      ok := allowed && |id| == 6 && t !in files;
      if ok {
        files := files[t := File("")];
      } else {
        faults := true;
      }
      trace := trace + [files];
    }

    method Rename(src: Path, dst: Path) returns (ok: bool)
      modifies this
      ensures ok ==> src in old(files) && files == (old(files) - {src})[dst := old(files)[src]]
      ensures !ok ==> files == old(files)
      ensures faults == (old(faults) || (!ok && src in old(files)))
      ensures Stepped()
    {
      var allowed: bool := *;
      ok := allowed && src in files;
      if ok {
        var node := files[src];
        files := (files - {src})[dst := node];
      } else if src in files {
        faults := true;
      }
      trace := trace + [files];
    }

    method UnlinkIfExists(p: Path) returns (ok: bool)
      modifies this
      ensures ok ==> files == old(files) - {p}
      ensures !ok ==> files == old(files)
      ensures faults == (old(faults) || !ok)
      ensures Stepped()
    {
      ok := *;
      if ok {
        files := files - {p};
      } else {
        faults := true;
      }
      trace := trace + [files];
    }
  }

  // ---- What is asked for ----

  type Pairs = seq<(Path, Path)>

  /** Moves as (source, destination) pairs, and files to remove besides. */
  datatype Plan = Plan(moves: Pairs, removes: set<Path>)

  function Firsts(ps: Pairs): set<Path> { set m <- ps :: m.0 }

  function Seconds(ps: Pairs): set<Path> { set m <- ps :: m.1 }

  /** The files that must give way: destinations and files to remove. */
  function Olds(p: Plan): set<Path> { Seconds(p.moves) + p.removes }

  /** What lists of moves and of files to remove ask for. A move may be listed twice, and a file to
      remove may be listed twice or be a destination. */
  function Normal(moves: Pairs, removes: seq<Path>): Plan {
    Plan(Dedup(moves), SetOf(removes) - Seconds(moves))
  }

  /** No path occurs twice. */
  ghost predicate NoDuplicates(p: Plan) {
    && (forall i, j :: 0 <= i < j < |p.moves| ==> p.moves[i].0 != p.moves[j].0 && p.moves[i].1 != p.moves[j].1)
    && Firsts(p.moves) !! Seconds(p.moves) && Firsts(p.moves) !! p.removes && Seconds(p.moves) !! p.removes
  }

  /** No listed path can be taken for a temporary path of an old file; a source may look like one
      when it is there. */
  ghost predicate NoTempClash(p: Plan, files: Files) {
    forall o, t :: o in Olds(p) && IsTempOf(t, o) ==> t !in Olds(p) && (t in Firsts(p.moves) ==> t in files)
  }

  ghost predicate Acceptable(p: Plan, files: Files) {
    NoDuplicates(p) && NoTempClash(p, files)
  }

  predicate IsDirectory(files: Files, p: Path) { p in files && files[p].Directory? }

  /** What the operation needs when no call fails by itself: every source is there and no old
      file is a directory. */
  ghost predicate Possible(p: Plan, files: Files) {
    && (forall k :: 0 <= k < |p.moves| ==> p.moves[k].0 in files)
    && (forall o <- Olds(p) :: !IsDirectory(files, o))
  }

  // ---- What it may end in ----

  datatype Lookup = Absent | Found(node: Node)

  function At(s: Files, x: Path): Lookup {
    if x in s then Found(s[x]) else Absent
  }

  /** Every destination holds its source's content. */
  ghost predicate NewInPlace(p: Plan, old_: Files, s: Files) {
    forall k :: 0 <= k < |p.moves| ==> p.moves[k].0 in old_ && At(s, p.moves[k].1) == Found(old_[p.moves[k].0])
  }

  /** Everything is replaced: destinations hold the sources' nodes, sources and files to remove
      are gone, and nothing else has changed. */
  ghost predicate IsReplaced(p: Plan, old_: Files, s: Files) {
    && NewInPlace(p, old_, s)
    && (forall x :: x !in Seconds(p.moves) ==> At(s, x) == if x in Firsts(p.moves) + p.removes then Absent else At(old_, x))
  }

  /** Nothing is replaced: the sources are gone and nothing else has changed. */
  ghost predicate IsAbandoned(p: Plan, old_: Files, s: Files) {
    forall x :: At(s, x) == if x in Firsts(p.moves) then Absent else At(old_, x)
  }

  /** Every old content is at its own path or at its recorded temporary path. */
  ghost predicate NothingLost(p: Plan, old_: Files, aside: Pairs, s: Files) {
    forall o :: o in Olds(p) && o in old_ ==>
      At(s, o) == Found(old_[o]) || (exists k :: 0 <= k < |aside| && aside[k].0 == o && At(s, aside[k].1) == Found(old_[o]))
  }

  // ---- The states in between ----

  /** Old files set aside so far, as (original, temporary) pairs: distinct fresh temporaries. */
  ghost predicate SetAside(p: Plan, old_: Files, aside: Pairs) {
    && (forall k :: 0 <= k < |aside| ==> aside[k].0 in Olds(p) && aside[k].0 in old_)
    && (forall k :: 0 <= k < |aside| ==> aside[k].1 !in old_ && aside[k].1 !in Olds(p) && aside[k].1 !in Firsts(p.moves))
    && (forall j, k :: 0 <= j < k < |aside| ==> aside[j].0 != aside[k].0 && aside[j].1 != aside[k].1)
  }

  /** Old files in `aside` are at their temporaries; moves `from` up to `upto` are made; `gone`
      and the set-aside originals are absent unless they are one of those destinations. */
  ghost predicate Staged(p: Plan, old_: Files, aside: Pairs, from: nat, upto: nat, gone: set<Path>, s: Files)
    requires from <= upto <= |p.moves|
  {
    && (forall k :: from <= k < upto ==> p.moves[k].0 in old_ && At(s, p.moves[k].1) == Found(old_[p.moves[k].0]))
    && (forall k :: 0 <= k < |aside| ==> aside[k].0 in old_ && At(s, aside[k].1) == Found(old_[aside[k].0]))
    && (forall x :: x !in Seconds(p.moves[from..upto]) && x !in Seconds(aside) ==>
          At(s, x) == if x in Firsts(aside) + gone then Absent else At(old_, x))
  }

  ghost predicate AllGood(p: Plan, old_: Files, aside: Pairs, trace: seq<Files>, start: nat) {
    forall i :: start <= i < |trace| ==> NothingLost(p, old_, aside, trace[i])
  }

  /** Destinations hold the new contents; sources and files to remove are gone. */
  ghost predicate Done(p: Plan, old_: Files, s: Files) {
    NewInPlace(p, old_, s) && forall x :: x in Firsts(p.moves) + p.removes ==> At(s, x) == Absent
  }

  ghost predicate AllDone(p: Plan, old_: Files, trace: seq<Files>, point: nat) {
    forall i :: point <= i < |trace| ==> Done(p, old_, trace[i])
  }

  /** Of the states from `start` on, those before the point of no return lose no old content and
      those after it have the new contents in place. */
  ghost predicate GroupTrace(p: Plan, old_: Files, aside: Pairs, trace: seq<Files>, start: nat, point: nat) {
    start <= point <= |trace| && AllGood(p, old_, aside, trace[..point], start) && AllDone(p, old_, trace, point)
  }

  /** Temporaries still hold what was set aside, and nothing else was lost. */
  ghost predicate AsideIntact(p: Plan, old_: Files, aside: Pairs, s: Files) {
    && (forall k :: 0 <= k < |aside| ==> aside[k].0 in old_ && At(s, aside[k].1) == Found(old_[aside[k].0]))
    && (forall o :: o in Olds(p) && o in old_ && o !in Firsts(aside) ==> At(s, o) == Found(old_[o]))
  }

  lemma StagedLosesNothing(p: Plan, old_: Files, aside: Pairs, from: nat, upto: nat, gone: set<Path>, s: Files)
    requires from <= upto <= |p.moves| && Staged(p, old_, aside, from, upto, gone, s) && SetAside(p, old_, aside)
    requires gone !! Olds(p)
    requires forall o :: o in Seconds(p.moves[from..upto]) && o in old_ ==> o in Firsts(aside)
    ensures NothingLost(p, old_, aside, s)
  {
    forall o | o in Olds(p) && o in old_
      ensures At(s, o) == Found(old_[o]) || (exists k :: 0 <= k < |aside| && aside[k].0 == o && At(s, aside[k].1) == Found(old_[o]))
    {
      if o in Firsts(aside) {
        var k :| 0 <= k < |aside| && aside[k].0 == o;
      }
    }
  }

  lemma MoreAsideStillGood(p: Plan, old_: Files, aside: Pairs, more: (Path, Path), trace: seq<Files>, start: nat)
    requires AllGood(p, old_, aside, trace, start)
    ensures AllGood(p, old_, aside + [more], trace, start)
  {
    forall i | start <= i < |trace| ensures NothingLost(p, old_, aside + [more], trace[i]) {
      assert NothingLost(p, old_, aside, trace[i]);
      forall o | o in Olds(p) && o in old_ && At(trace[i], o) != Found(old_[o])
        ensures exists k :: 0 <= k < |aside + [more]| && (aside + [more])[k].0 == o && At(trace[i], (aside + [more])[k].1) == Found(old_[o])
      {
        var k :| 0 <= k < |aside| && aside[k].0 == o && At(trace[i], aside[k].1) == Found(old_[o]);
        assert (aside + [more])[k] == aside[k];
      }
    }
  }

  lemma GoodSnoc(p: Plan, old_: Files, aside: Pairs, trace: seq<Files>, start: nat, s: Files)
    requires AllGood(p, old_, aside, trace, start)
    requires NothingLost(p, old_, aside, s)
    ensures AllGood(p, old_, aside, trace + [s], start)
  {
    hide NothingLost;
  }

  // ---- Phase one: set old files aside ----

  /** A temporary path that `mkstemps` can pick is new to everything listed or recorded. */
  lemma FreshTemp(p: Plan, old_: Files, aside: Pairs, o: Path, t: Path, s: Files)
    requires Acceptable(p, old_) && o in Olds(p) && SetAside(p, old_, aside) && Staged(p, old_, aside, 0, 0, {}, s)
    requires IsTempOf(t, o) && t !in s
    ensures t !in old_ && t !in Olds(p) && t !in Firsts(p.moves) && t !in Seconds(aside)
  {
    assert At(s, t) == Absent;
  }

  lemma ExtraFileLosesNothing(p: Plan, old_: Files, aside: Pairs, s: Files, t: Path, n: Node)
    requires NothingLost(p, old_, aside, s) && t !in Olds(p) && t !in Seconds(aside)
    ensures NothingLost(p, old_, aside, s[t := n])
  {
    forall o | o in Olds(p) && o in old_ && At(s[t := n], o) != Found(old_[o])
      ensures exists k :: 0 <= k < |aside| && aside[k].0 == o && At(s[t := n], aside[k].1) == Found(old_[o]) {
      var k :| 0 <= k < |aside| && aside[k].0 == o && At(s, aside[k].1) == Found(old_[o]);
      assert aside[k].1 != t;
    }
  }

  lemma ExtraFileKeepsAside(p: Plan, old_: Files, aside: Pairs, s: Files, t: Path, n: Node)
    requires AsideIntact(p, old_, aside, s) && t !in Olds(p) && t !in Seconds(aside)
    ensures AsideIntact(p, old_, aside, s[t := n])
  {
  }

  lemma NoSeconds(ps: Pairs)
    ensures Seconds(ps[0..0]) == {}
  {
  }

  lemma InSeconds(ps: Pairs, k: nat)
    requires k < |ps|
    ensures ps[k].0 in Firsts(ps) && ps[k].1 in Seconds(ps)
  {
    assert ps[k] in ps;
  }

  lemma FirstsSnoc(ps: Pairs, m: (Path, Path))
    ensures Firsts(ps + [m]) == Firsts(ps) + {m.0} && Seconds(ps + [m]) == Seconds(ps) + {m.1}
  {
  }

  lemma AsideGrows(p: Plan, old_: Files, aside: Pairs, o: Path, t: Path)
    requires SetAside(p, old_, aside) && o in old_
    requires o in Olds(p) && o !in Firsts(aside) && t !in old_ && t !in Olds(p) && t !in Firsts(p.moves) && t !in Seconds(aside)
    ensures SetAside(p, old_, aside + [(o, t)])
  {
    hide Olds;
    FirstsSnoc(aside, (o, t));
    forall k | 0 <= k < |aside| ensures aside[k].0 in Firsts(aside) && aside[k].1 in Seconds(aside) { InSeconds(aside, k); }
  }

  lemma AsideStep(p: Plan, old_: Files, aside: Pairs, o: Path, t: Path, s: Files)
    requires SetAside(p, old_, aside) && Staged(p, old_, aside, 0, 0, {}, s)
    requires o in Olds(p) && o in s && o !in Firsts(aside) && o !in Seconds(aside)
    requires t !in old_ && t !in Olds(p) && t !in Firsts(p.moves) && t !in Seconds(aside)
    ensures SetAside(p, old_, aside + [(o, t)]) && Staged(p, old_, aside + [(o, t)], 0, 0, {}, (s - {o})[t := s[o]])
  {
    hide SetAside, Firsts, Seconds, Olds;
    var aside', s' := aside + [(o, t)], (s - {o})[t := s[o]];
    FirstsSnoc(aside, (o, t));
    assert At(s, o) == At(old_, o) by { NoSeconds(p.moves); }
    AsideGrows(p, old_, aside, o, t);
    forall k | 0 <= k < |aside'| ensures aside'[k].0 in old_ && At(s', aside'[k].1) == Found(old_[aside'[k].0]) {
      if k < |aside| {
        InSeconds(aside, k);
      }
    }
    NoSeconds(p.moves);
  }

  lemma OldFileInPlace(p: Plan, old_: Files, aside: Pairs, o: Path, s: Files)
    requires SetAside(p, old_, aside) && Staged(p, old_, aside, 0, 0, {}, s) && o in Olds(p)
    ensures At(s, o) == (if o in Firsts(aside) then Absent else At(old_, o)) && o !in Seconds(aside)
  {
  }

  lemma StagedKeepsAside(p: Plan, old_: Files, aside: Pairs, from: nat, upto: nat, gone: set<Path>, s: Files)
    requires from <= upto <= |p.moves| && Staged(p, old_, aside, from, upto, gone, s) && SetAside(p, old_, aside)
    requires gone !! Olds(p)
    requires forall o :: o in Seconds(p.moves[from..upto]) && o in old_ ==> o in Firsts(aside)
    ensures AsideIntact(p, old_, aside, s)
  {
  }

  /** Sets one old file aside, if it is there. */
  method SetOneAside(fs: FileSystem, ghost p: Plan, ghost old_: Files, o: Path, aside: Pairs, ghost start: nat)
    returns (ok: bool, ghost clean: bool, aside': Pairs)
    requires Acceptable(p, old_) && o in Olds(p) && SetAside(p, old_, aside)
    requires Staged(p, old_, aside, 0, 0, {}, fs.files) && start <= |fs.trace| && AllGood(p, old_, aside, fs.trace, start)
    modifies fs
    ensures old(fs.trace) <= fs.trace
    ensures start <= |fs.trace| && AllGood(p, old_, aside', fs.trace, start)
    ensures SetAside(p, old_, aside')
    ensures ok ==> clean && Staged(p, old_, aside', 0, 0, {}, fs.files)
    ensures ok ==> if o in old_ && o !in Firsts(aside) then exists t :: aside' == aside + [(o, t)] else aside' == aside
    ensures !ok ==> aside' == aside && AsideIntact(p, old_, aside, fs.files)
    ensures !ok && clean ==> Staged(p, old_, aside, 0, 0, {}, fs.files)
    ensures (old(fs.faults) ==> fs.faults) && (!fs.faults ==> clean && (ok <==> !IsDirectory(old_, o) || o in Firsts(aside)))
    ensures ok ==> !IsDirectory(old_, o) || o in Firsts(aside)
  {
    hide Staged, SetAside, Acceptable, NothingLost, AllGood, NewInPlace, IsTempOf, AsideIntact;
    aside', clean, ok := aside, true, false;
    ghost var s := fs.files;
    StagedLosesNothing(p, old_, aside, 0, 0, {}, s);
    StagedKeepsAside(p, old_, aside, 0, 0, {}, s);
    OldFileInPlace(p, old_, aside, o, s);
    var known, there, isDir := fs.Status(o);
    if !known || isDir { return; }
    if !there { ok := true; return; }
    var made, t := fs.Mkstemps(o);
    if !made {
      GoodSnoc(p, old_, aside, old(fs.trace), start, s);
      return;
    }
    FreshTemp(p, old_, aside, o, t, s);
    ExtraFileLosesNothing(p, old_, aside, s, t, File(""));
    ExtraFileKeepsAside(p, old_, aside, s, t, File(""));
    ghost var trace1 := fs.trace;
    GoodSnoc(p, old_, aside, old(fs.trace), start, fs.files);
    var moved := fs.Rename(o, t);
    ghost var trace2 := fs.trace;
    if !moved {
      GoodSnoc(p, old_, aside, trace1, start, fs.files);
      var unlinked := fs.UnlinkIfExists(t);
      clean := unlinked;
      assert s[t := File("")] - {t} == s;
      GoodSnoc(p, old_, aside, trace2, start, fs.files);
      return;
    }
    assert fs.files == (s - {o})[t := s[o]];
    AsideStep(p, old_, aside, o, t, s);
    aside', ok := aside + [(o, t)], true;
    StagedLosesNothing(p, old_, aside', 0, 0, {}, fs.files);
    MoreAsideStillGood(p, old_, aside, (o, t), trace1, start);
    GoodSnoc(p, old_, aside', trace1, start, fs.files);
  }

  // ---- Phase two: make the moves ----

  lemma PrefixFirsts(ps: Pairs, n: nat)
    requires n < |ps|
    ensures Firsts(ps[..n + 1]) == Firsts(ps[..n]) + {ps[n].0} && Seconds(ps[0..n + 1]) == Seconds(ps[0..n]) + {ps[n].1}
  {
    assert ps[..n + 1] == ps[..n] + [ps[n]] && ps[0..n + 1] == ps[0..n] + [ps[n]];
  }

  lemma MoveStep(p: Plan, old_: Files, aside: Pairs, n: nat, s: Files)
    requires NoDuplicates(p) && SetAside(p, old_, aside) && n < |p.moves| && p.moves[n].0 in s
    requires Staged(p, old_, aside, 0, n, Firsts(p.moves[..n]), s)
    ensures var m := p.moves[n];
      Staged(p, old_, aside, 0, n + 1, Firsts(p.moves[..n + 1]), (s - {m.0})[m.1 := s[m.0]])
  {
    var (src, dst) := p.moves[n];
    var s' := (s - {src})[dst := s[src]];
    PrefixFirsts(p.moves, n);
    assert src in Firsts(p.moves) && dst in Seconds(p.moves) && dst in Olds(p);
    assert src in Firsts(p.moves);
    forall m <- p.moves[..n] ensures m.0 != src && m.1 != src {
      var k :| 0 <= k < n && p.moves[k] == m;
      assert p.moves[k] in p.moves && p.moves[k].1 in Olds(p);
    }
    assert p.moves[0..n] == p.moves[..n];
    assert src !in Seconds(p.moves[..n]) && src !in Firsts(p.moves[..n]);
    assert src !in Firsts(aside) && src !in Seconds(aside);
    assert At(s, src) == At(old_, src);
    forall k | 0 <= k < n + 1 ensures p.moves[k].0 in old_ && At(s', p.moves[k].1) == Found(old_[p.moves[k].0]) {
      assert p.moves[k] in p.moves;
    }
    forall k | 0 <= k < |aside| ensures At(s', aside[k].1) == Found(old_[aside[k].0]) {
      assert aside[k].1 != src && aside[k].1 != dst;
    }
  }

  /** Where the old contents are once every old file has been dealt with. */
  ghost predicate Preserved(p: Plan, old_: Files, aside: Pairs, s: Files) {
    && (forall k :: 0 <= k < |aside| ==> aside[k].0 in old_)
    && (forall k :: 0 <= k < |aside| ==>
          At(s, aside[k].0) == Found(old_[aside[k].0]) || At(s, aside[k].1) == Found(old_[aside[k].0]))
    && (forall o :: o in Olds(p) && o in old_ && o !in Firsts(aside) ==> At(s, o) == Found(old_[o]))
  }

  lemma PreservedLosesNothing(p: Plan, old_: Files, aside: Pairs, s: Files)
    requires Preserved(p, old_, aside, s)
    ensures NothingLost(p, old_, aside, s)
  {
    forall o | o in Olds(p) && o in old_ && At(s, o) != Found(old_[o])
      ensures exists k :: 0 <= k < |aside| && aside[k].0 == o && At(s, aside[k].1) == Found(old_[o]) {
      var k :| 0 <= k < |aside| && aside[k].0 == o;
    }
  }

  // ---- The scope guard: undo everything ----

  function Min(a: nat, b: nat): nat { if a < b then a else b }

  function Max(a: nat, b: nat): nat { if a < b then b else a }

  lemma UnlinkTargetStep(p: Plan, old_: Files, aside: Pairs, n: nat, k: nat, gone: set<Path>, s: Files)
    requires NoDuplicates(p) && SetAside(p, old_, aside) && k < n <= |p.moves|
    requires p.moves[k].1 in old_ ==> p.moves[k].1 in Firsts(aside)
    requires Staged(p, old_, aside, k, n, gone, s)
    ensures Staged(p, old_, aside, k + 1, n, gone, s - {p.moves[k].1})
  {
    var victim := p.moves[k].1;
    var s' := s - {victim};
    assert p.moves[k] in p.moves && victim in Olds(p);
    assert Seconds(p.moves[k..n]) == {victim} + Seconds(p.moves[k + 1..n]) by {
      assert p.moves[k..n] == [p.moves[k]] + p.moves[k + 1..n];
    }
    forall i | 0 <= i < |aside| ensures At(s', aside[i].1) == Found(old_[aside[i].0]) { }
  }

  lemma UnlinkSourceStep(p: Plan, old_: Files, aside: Pairs, n: nat, k: nat, s: Files)
    requires NoDuplicates(p) && SetAside(p, old_, aside) && n <= k < |p.moves|
    requires Staged(p, old_, aside, n, n, Firsts(p.moves[..k]), s)
    ensures Staged(p, old_, aside, n, n, Firsts(p.moves[..k + 1]), s - {p.moves[k].0})
  {
    var victim := p.moves[k].0;
    assert p.moves[k] in p.moves;
    PrefixFirsts(p.moves, k);
    forall i | 0 <= i < |aside| ensures At(s - {victim}, aside[i].1) == Found(old_[aside[i].0]) { }
  }

  /** Unlinking a destination that was moved into, or a source that was not moved. */
  lemma UnlinkStep(p: Plan, old_: Files, aside: Pairs, n: nat, k: nat, s: Files)
    requires NoDuplicates(p) && SetAside(p, old_, aside) && n <= |p.moves| && k < |p.moves|
    requires forall i :: 0 <= i < n && p.moves[i].1 in old_ ==> p.moves[i].1 in Firsts(aside)
    requires Staged(p, old_, aside, Min(k, n), n, Firsts(p.moves[..Max(k, n)]), s)
    ensures var victim := if k < n then p.moves[k].1 else p.moves[k].0;
      Staged(p, old_, aside, Min(k + 1, n), n, Firsts(p.moves[..Max(k + 1, n)]), s - {victim})
  {
    hide Staged, NoDuplicates, SetAside;
    if k < n {
      UnlinkTargetStep(p, old_, aside, n, k, Firsts(p.moves[..n]), s);
    } else {
      UnlinkSourceStep(p, old_, aside, n, k, s);
    }
  }

  lemma UnlinkKeepsAside(p: Plan, old_: Files, aside: Pairs, victim: Path, s: Files)
    requires SetAside(p, old_, aside) && AsideIntact(p, old_, aside, s)
    requires victim in Firsts(p.moves) + Olds(p) && (victim in Olds(p) && victim in old_ ==> victim in Firsts(aside)) && Firsts(p.moves) !! Olds(p)
    ensures AsideIntact(p, old_, aside, s - {victim})
  {
    forall k | 0 <= k < |aside| ensures At(s - {victim}, aside[k].1) == Found(old_[aside[k].0]) {
      assert aside[k].1 != victim;
    }
  }

  lemma IntactIsPreserved(p: Plan, old_: Files, aside: Pairs, s: Files)
    requires AsideIntact(p, old_, aside, s)
    ensures Preserved(p, old_, aside, s) && NothingLost(p, old_, aside, s)
  {
    PreservedLosesNothing(p, old_, aside, s);
  }

  lemma CommittedIsPrefix(p: Plan, n: nat, k: nat)
    requires NoDuplicates(p) && n <= |p.moves| && k < |p.moves|
    ensures p.moves[k].1 in Seconds(p.moves[..n]) <==> k < n
  {
    if k < n {
      assert p.moves[..n][k] in p.moves[..n];
    }
  }

  lemma NothingMoved(p: Plan, old_: Files, aside: Pairs, n: nat, s: Files)
    requires n <= |p.moves| && Staged(p, old_, aside, Min(|p.moves|, n), n, Firsts(p.moves[..Max(|p.moves|, n)]), s)
    ensures Staged(p, old_, aside, 0, 0, Firsts(p.moves), s)
  {
    assert p.moves[..|p.moves|] == p.moves;
    assert p.moves[n..n] == [] && p.moves[0..0] == [];
  }

  /** Unlinking for a repeated move finds nothing: its first occurrence is dealt with already. */
  lemma AlreadyGone(p: Plan, old_: Files, aside: Pairs, n: nat, m: nat, i: nat, s: Files)
    requires NoDuplicates(p) && SetAside(p, old_, aside) && n <= |p.moves| && i < m <= |p.moves|
    requires forall k :: 0 <= k < n && p.moves[k].1 in old_ ==> p.moves[k].1 in Firsts(aside)
    requires Staged(p, old_, aside, Min(m, n), n, Firsts(p.moves[..Max(m, n)]), s)
    ensures (if i < n then p.moves[i].1 else p.moves[i].0) !in s
  {
    var x := if i < n then p.moves[i].1 else p.moves[i].0;
    assert p.moves[i] in p.moves && x in Firsts(p.moves) + Olds(p);
    assert x !in Seconds(p.moves[Min(m, n)..n]) by {
      forall k | Min(m, n) <= k < n ensures p.moves[k].1 != x { assert p.moves[k] in p.moves; }
    }
    if i >= n {
      assert p.moves[..Max(m, n)][i] in p.moves[..Max(m, n)];
    }
    assert At(s, x) == Absent;
  }

  lemma DedupOfNone(moves: Pairs)
    ensures Dedup(moves[..0]) == []
  {
  }

  /** Where a listed move is among the moves without repetition. */
  lemma ListedAt(moves: Pairs, all: Pairs, k: nat, m: nat) returns (i: nat)
    requires k < |moves| && all == Dedup(moves) && m <= |all| && Dedup(moves[..k]) == all[..m]
    ensures i <= m && i < |all| && all[i] == moves[k]
    ensures moves[k] in moves[..k] <==> i < m
    ensures Dedup(moves[..k + 1]) == all[..if i < m then m else m + 1]
  {
    hide Dedup;
    DedupStep(moves, k);
    DedupPrefix(moves, k + 1);
    if moves[k] in moves[..k] {
      assert moves[k] in all[..m];
      i :| 0 <= i < m && all[i] == moves[k];
    } else {
      i := m;
      assert all[..m + 1] == all[..m] + [moves[k]];
    }
  }

  /** Removes what was moved in and what was to be moved. */
  method UnlinkNewFiles(fs: FileSystem, moves: Pairs, ghost p: Plan, ghost old_: Files, ghost aside: Pairs, committed: set<Path>, ghost n: nat, ghost clean0: bool, ghost start: nat)
    returns (ghost clean: bool)
    requires p.moves == Dedup(moves)
    requires NoDuplicates(p) && SetAside(p, old_, aside) && n <= |p.moves| && committed == Seconds(p.moves[..n])
    requires forall i :: 0 <= i < n && p.moves[i].1 in old_ ==> p.moves[i].1 in Firsts(aside)
    requires AsideIntact(p, old_, aside, fs.files)
    requires clean0 ==> Staged(p, old_, aside, 0, n, Firsts(p.moves[..n]), fs.files)
    requires start <= |fs.trace| && AllGood(p, old_, aside, fs.trace, start)
    modifies fs
    ensures old(fs.trace) <= fs.trace
    ensures start <= |fs.trace| && AllGood(p, old_, aside, fs.trace, start) && AsideIntact(p, old_, aside, fs.files)
    ensures clean ==> Staged(p, old_, aside, 0, 0, Firsts(p.moves), fs.files)
    ensures (old(fs.faults) ==> fs.faults) && (!fs.faults && clean0 ==> clean)
  {
    hide Staged, SetAside, NothingLost, AllGood, AsideIntact, NewInPlace, Dedup;
    clean := clean0;
    ghost var m := 0;
    assert Dedup(moves[..0]) == [] by { DedupOfNone(moves); }
    for k := 0 to |moves|
      invariant old(fs.trace) <= fs.trace
      invariant (old(fs.faults) ==> fs.faults) && (!fs.faults && clean0 ==> clean)
      invariant m <= |p.moves| && Dedup(moves[..k]) == p.moves[..m]
      invariant clean ==> Staged(p, old_, aside, Min(m, n), n, Firsts(p.moves[..Max(m, n)]), fs.files)
      invariant AsideIntact(p, old_, aside, fs.files) && start <= |fs.trace| && AllGood(p, old_, aside, fs.trace, start)
    {
      var (src, dst) := moves[k];
      ghost var i := ListedAt(moves, p.moves, k, m);
      CommittedIsPrefix(p, n, i);
      var victim := if dst in committed then dst else src;
      ghost var s, trace := fs.files, fs.trace;
      if clean {
        if i < m {
          AlreadyGone(p, old_, aside, n, m, i, s);
          assert s - {victim} == s;
        } else {
          UnlinkStep(p, old_, aside, n, m, s);
        }
      }
      assert p.moves[i] in p.moves;
      UnlinkKeepsAside(p, old_, aside, victim, s);
      var ok := fs.UnlinkIfExists(victim);
      clean := clean && ok;
      IntactIsPreserved(p, old_, aside, fs.files);
      GoodSnoc(p, old_, aside, trace, start, fs.files);
      m := if i < m then m else m + 1;
    }
    assert moves[..|moves|] == moves;
    if clean {
      NothingMoved(p, old_, aside, n, fs.files);
    }
  }

  lemma RestoreStep(p: Plan, old_: Files, aside: Pairs, j: nat, s: Files)
    requires SetAside(p, old_, aside) && j < |aside| && Firsts(p.moves) !! Olds(p)
    requires Staged(p, old_, aside[j..], 0, 0, Firsts(p.moves), s)
    ensures var (o, t) := aside[j];
      t in s && Staged(p, old_, aside[j + 1..], 0, 0, Firsts(p.moves), (s - {t})[o := s[t]])
  {
    var (o, t) := aside[j];
    var rest := aside[j + 1..];
    assert aside[j..] == [aside[j]] + rest;
    assert aside[j..][0] == aside[j];
    assert At(s, t) == Found(old_[o]);
    var s' := (s - {t})[o := s[t]];
    forall k | 0 <= k < |rest| ensures rest[k].0 in old_ && At(s', rest[k].1) == Found(old_[rest[k].0]) {
      assert rest[k] == aside[j + 1 + k] == aside[j..][k + 1];
    }
    assert o !in Firsts(rest) && t !in Seconds(rest) && o !in Firsts(p.moves);
    assert Firsts(aside[j..]) == {o} + Firsts(rest) && Seconds(aside[j..]) == {t} + Seconds(rest);
  }

  lemma RestoreKeeps(p: Plan, old_: Files, aside: Pairs, j: nat, s: Files)
    requires SetAside(p, old_, aside) && j < |aside| && Preserved(p, old_, aside, s)
    requires forall k :: j <= k < |aside| ==> At(s, aside[k].1) == Found(old_[aside[k].0])
    ensures var (o, t) := aside[j];
      t in s && var s' := (s - {t})[o := s[t]];
      Preserved(p, old_, aside, s') && (forall k :: j < k < |aside| ==> At(s', aside[k].1) == Found(old_[aside[k].0]))
  {
    var (o, t) := aside[j];
    var s' := (s - {t})[o := s[t]];
    assert At(s, t) == Found(old_[o]);
    forall k | 0 <= k < |aside| && k != j
      ensures At(s', aside[k].0) == At(s, aside[k].0) && At(s', aside[k].1) == At(s, aside[k].1) {
      assert aside[k].0 != o && aside[k].1 != t && aside[k].0 != t && aside[k].1 != o;
    }
    forall x | x in Olds(p) && x in old_ && x !in Firsts(aside) ensures At(s', x) == Found(old_[x]) {
      assert aside[j] in aside;
    }
  }

  lemma AllBack(p: Plan, old_: Files, aside: Pairs, s: Files)
    requires Staged(p, old_, aside[|aside|..], 0, 0, Firsts(p.moves), s)
    ensures IsAbandoned(p, old_, s)
  {
    assert aside[|aside|..] == [];
  }

  /** Moves old files back. */
  method MoveOldFilesBack(fs: FileSystem, ghost p: Plan, ghost old_: Files, aside: Pairs, ghost clean0: bool, ghost start: nat)
    returns (ghost clean: bool)
    requires NoDuplicates(p) && SetAside(p, old_, aside) && AsideIntact(p, old_, aside, fs.files)
    requires clean0 ==> Staged(p, old_, aside, 0, 0, Firsts(p.moves), fs.files)
    requires start <= |fs.trace| && AllGood(p, old_, aside, fs.trace, start)
    modifies fs
    ensures old(fs.trace) <= fs.trace
    ensures start <= |fs.trace| && AllGood(p, old_, aside, fs.trace, start) && NothingLost(p, old_, aside, fs.files)
    ensures clean ==> IsAbandoned(p, old_, fs.files)
    ensures (old(fs.faults) ==> fs.faults) && (!fs.faults && clean0 ==> clean)
  {
    hide Staged, SetAside, NothingLost, AllGood, NewInPlace, Preserved, IsAbandoned;
    clean := clean0;
    IntactIsPreserved(p, old_, aside, fs.files);
    assert aside[0..] == aside;
    for j := 0 to |aside|
      invariant old(fs.trace) <= fs.trace
      invariant (old(fs.faults) ==> fs.faults) && (!fs.faults && clean0 ==> clean)
      invariant clean ==> Staged(p, old_, aside[j..], 0, 0, Firsts(p.moves), fs.files)
      invariant Preserved(p, old_, aside, fs.files) && NothingLost(p, old_, aside, fs.files)
      invariant forall k :: j <= k < |aside| ==> At(fs.files, aside[k].1) == Found(old_[aside[k].0])
      invariant start <= |fs.trace| && AllGood(p, old_, aside, fs.trace, start)
    {
      ghost var s, trace := fs.files, fs.trace;
      if clean {
        RestoreStep(p, old_, aside, j, s);
      }
      RestoreKeeps(p, old_, aside, j, s);
      var ok := fs.Rename(aside[j].1, aside[j].0);
      clean := clean && ok;
      PreservedLosesNothing(p, old_, aside, fs.files);
      GoodSnoc(p, old_, aside, trace, start, fs.files);
    }
    if clean {
      AllBack(p, old_, aside, fs.files);
    }
  }

  /** The scope guard's work. */
  method Abandon(fs: FileSystem, moves: Pairs, ghost p: Plan, ghost old_: Files, aside: Pairs, committed: set<Path>, ghost n: nat, ghost clean0: bool, ghost start: nat)
    returns (ghost clean: bool)
    requires p.moves == Dedup(moves)
    requires NoDuplicates(p) && SetAside(p, old_, aside) && n <= |p.moves| && committed == Seconds(p.moves[..n])
    requires forall i :: 0 <= i < n && p.moves[i].1 in old_ ==> p.moves[i].1 in Firsts(aside)
    requires AsideIntact(p, old_, aside, fs.files)
    requires clean0 ==> Staged(p, old_, aside, 0, n, Firsts(p.moves[..n]), fs.files)
    requires start <= |fs.trace| && AllGood(p, old_, aside, fs.trace, start)
    modifies fs
    ensures old(fs.trace) <= fs.trace
    ensures start <= |fs.trace| && AllGood(p, old_, aside, fs.trace, start) && NothingLost(p, old_, aside, fs.files)
    ensures clean ==> IsAbandoned(p, old_, fs.files)
    ensures (old(fs.faults) ==> fs.faults) && (!fs.faults && clean0 ==> clean)
  {
    clean := UnlinkNewFiles(fs, moves, p, old_, aside, committed, n, clean0, start);
    clean := MoveOldFilesBack(fs, p, old_, aside, clean, start);
  }

  // ---- After the point of no return ----

  lemma DropTemp(p: Plan, old_: Files, o: Path, t: Path, rest: Pairs, gone: set<Path>, s: Files)
    requires Staged(p, old_, [(o, t)] + rest, 0, |p.moves|, gone, s)
    requires t !in old_ && t !in Olds(p) && t !in Seconds(rest)
    ensures Staged(p, old_, rest, 0, |p.moves|, gone + {o}, s - {t})
  {
    var all, s' := [(o, t)] + rest, s - {t};
    assert Firsts(all) == {o} + Firsts(rest) && Seconds(all) == {t} + Seconds(rest);
    forall k | 0 <= k < |p.moves| ensures p.moves[k].0 in old_ && At(s', p.moves[k].1) == Found(old_[p.moves[k].0]) {
      assert p.moves[k] in p.moves;
    }
    forall k | 0 <= k < |rest| ensures rest[k].0 in old_ && At(s', rest[k].1) == Found(old_[rest[k].0]) {
      assert rest[k] == all[k + 1] && rest[k] in rest;
    }
  }

  lemma TempGoneStep(p: Plan, old_: Files, aside: Pairs, j: nat, s: Files)
    requires SetAside(p, old_, aside) && j < |aside|
    requires Staged(p, old_, aside[j..], 0, |p.moves|, Firsts(p.moves) + Firsts(aside[..j]), s)
    ensures Staged(p, old_, aside[j + 1..], 0, |p.moves|, Firsts(p.moves) + Firsts(aside[..j + 1]), s - {aside[j].1})
  {
    hide Staged;
    var (o, t) := aside[j];
    PrefixFirsts(aside, j);
    assert aside[j..] == [(o, t)] + aside[j + 1..];
    DropTemp(p, old_, o, t, aside[j + 1..], Firsts(p.moves) + Firsts(aside[..j]), s);
    assert Firsts(p.moves) + Firsts(aside[..j]) + {o} == Firsts(p.moves) + Firsts(aside[..j + 1]);
  }

  lemma TempsGone(p: Plan, old_: Files, aside: Pairs, s: Files)
    requires SetAside(p, old_, aside) && NoDuplicates(p) && forall o :: o in Olds(p) && o in old_ ==> o in Firsts(aside)
    requires Staged(p, old_, aside[|aside|..], 0, |p.moves|, Firsts(p.moves) + Firsts(aside[..|aside|]), s)
    ensures IsReplaced(p, old_, s)
  {
    assert aside[|aside|..] == [] && aside[..|aside|] == aside && p.moves[0..|p.moves|] == p.moves;
  }

  lemma StagedIsDone(p: Plan, old_: Files, aside: Pairs, s: Files)
    requires SetAside(p, old_, aside) && NoDuplicates(p) && forall o :: o in Olds(p) && o in old_ ==> o in Firsts(aside)
    requires Staged(p, old_, aside, 0, |p.moves|, Firsts(p.moves), s)
    ensures Done(p, old_, s)
  {
    assert p.moves[0..|p.moves|] == p.moves;
  }

  lemma UnlinkTempKeepsDone(p: Plan, old_: Files, aside: Pairs, j: nat, s: Files)
    requires SetAside(p, old_, aside) && j < |aside| && Done(p, old_, s)
    ensures Done(p, old_, s - {aside[j].1})
  {
    forall k | 0 <= k < |p.moves| ensures At(s - {aside[j].1}, p.moves[k].1) == At(s, p.moves[k].1) {
      assert p.moves[k] in p.moves;
    }
  }

  /** Removes the temporaries; from here on every state has the new contents in place. */
  method CleanUpOldFiles(fs: FileSystem, ghost p: Plan, ghost old_: Files, aside: Pairs) returns (ghost clean: bool)
    requires NoDuplicates(p) && SetAside(p, old_, aside) && forall o :: o in Olds(p) && o in old_ ==> o in Firsts(aside)
    requires Staged(p, old_, aside, 0, |p.moves|, Firsts(p.moves), fs.files)
    modifies fs
    ensures old(fs.trace) <= fs.trace && AllDone(p, old_, fs.trace, |old(fs.trace)|) && Done(p, old_, fs.files)
    ensures clean ==> IsReplaced(p, old_, fs.files)
    ensures (old(fs.faults) ==> fs.faults) && (!fs.faults ==> clean)
  {
    hide Staged, SetAside, NothingLost, IsReplaced, Done, NoDuplicates;
    clean := true;
    StagedIsDone(p, old_, aside, fs.files);
    assert aside[0..] == aside && aside[..0] == [] && Firsts(aside[..0]) == {};
    assert Firsts(p.moves) + Firsts(aside[..0]) == Firsts(p.moves);
    for j := 0 to |aside|
      invariant (old(fs.faults) ==> fs.faults) && (!fs.faults ==> clean)
      invariant clean ==> Staged(p, old_, aside[j..], 0, |p.moves|, Firsts(p.moves) + Firsts(aside[..j]), fs.files)
      invariant Done(p, old_, fs.files) && old(fs.trace) <= fs.trace && AllDone(p, old_, fs.trace, |old(fs.trace)|)
    {
      if clean {
        TempGoneStep(p, old_, aside, j, fs.files);
      }
      UnlinkTempKeepsDone(p, old_, aside, j, fs.files);
      var ok := fs.UnlinkIfExists(aside[j].1);
      clean := clean && ok;
    }
    if clean {
      TempsGone(p, old_, aside, fs.files);
    }
  }

  // ---- The whole operation ----

  /** The old files in the order in which they are set aside. */
  function OldList(moves: Pairs, removes: seq<Path>): (r: seq<Path>)
    ensures forall x :: x in r <==> x in Seconds(moves) + SetOf(removes)
  {
    var dsts := seq(|moves|, i requires 0 <= i < |moves| => moves[i].1);
    assert forall i :: 0 <= i < |moves| ==> dsts[i] == moves[i].1;
    assert forall x :: x in dsts <==> x in Seconds(moves);
    dsts + removes
  }

  lemma NormalFacts(moves: Pairs, removes: seq<Path>)
    ensures var p := Normal(moves, removes);
      Firsts(p.moves) == Firsts(moves) && Seconds(p.moves) == Seconds(moves) && Olds(p) == Seconds(moves) + SetOf(removes)
  {
    hide Dedup;
    var d := Dedup(moves);
    forall m | m in moves ensures m in d { }
  }

  /** Without faults, the group move needs every source and no directory in the way. */
  lemma PossibleExactly(moves: Pairs, removes: seq<Path>, files: Files)
    ensures Possible(Normal(moves, removes), files) <==>
      && (forall m <- moves :: m.0 in files && !(m.1 in files && files[m.1].Directory?))
      && forall x <- removes :: !(x in files && files[x].Directory?)
  {
    hide Dedup;
    NormalFacts(moves, removes);
    var p := Normal(moves, removes);
    if Possible(p, files) {
      forall m | m in moves ensures m.0 in files && !(m.1 in files && files[m.1].Directory?) {
        assert m in p.moves && m.1 in Olds(p);
      }
      forall x | x in removes ensures !(x in files && files[x].Directory?) {
        assert x in Olds(p);
      }
    }
  }

  predicate SameFile(a: Files, b: Files, x: Path) {
    if x in a then x in b && b[x] == a[x] else x !in b
  }

  lemma InPlaceExactly(moves: Pairs, removes: seq<Path>, old_: Files, s: Files)
    ensures NewInPlace(Normal(moves, removes), old_, s) <==> forall m <- moves :: m.0 in old_ && m.1 in s && s[m.1] == old_[m.0]
  {
    hide Dedup;
    var p := Normal(moves, removes);
    if NewInPlace(p, old_, s) {
      forall m | m in moves ensures m.0 in old_ && m.1 in s && s[m.1] == old_[m.0] {
        assert m in p.moves;
        var k :| 0 <= k < |p.moves| && p.moves[k] == m;
      }
    }
    if forall m <- moves :: m.0 in old_ && m.1 in s && s[m.1] == old_[m.0] {
      forall k | 0 <= k < |p.moves| ensures p.moves[k].0 in old_ && At(s, p.moves[k].1) == Found(old_[p.moves[k].0]) {
        assert p.moves[k] in p.moves;
      }
    }
  }

  lemma SameFileExactly(a: Files, b: Files)
    ensures forall x :: SameFile(a, b, x) <==> At(b, x) == At(a, x)
  {
  }

  /** Replaced, one of the two ways a group move ends when every undo call works: each destination
      holds what its source held, sources and removed files are gone, and all other files are as
      before. */
  lemma ReplacedExactly(moves: Pairs, removes: seq<Path>, old_: Files, s: Files)
    requires NoDuplicates(Normal(moves, removes))
    ensures IsReplaced(Normal(moves, removes), old_, s) <==>
      && (forall m <- moves :: m.0 in old_ && m.1 in s && s[m.1] == old_[m.0])
      && (forall x <- Firsts(moves) :: x !in s)
      && (forall x <- removes :: x in Seconds(moves) || x !in s)
      && (forall x :: x !in Firsts(moves) && x !in Seconds(moves) && x !in removes ==> SameFile(old_, s, x))
  {
    hide Dedup, NewInPlace, Firsts, Seconds, SameFile;
    NormalFacts(moves, removes);
    InPlaceExactly(moves, removes, old_, s);
    SameFileExactly(old_, s);
    var p, f, d := Normal(moves, removes), Firsts(moves), Seconds(moves);
    assert f !! d && p.removes == SetOf(removes) - d;
    if IsReplaced(p, old_, s) {
      forall x | x in f ensures x !in s { assert At(s, x) == Absent; }
      forall x | x in removes && x !in d ensures x !in s { assert At(s, x) == Absent; }
    }
  }

  /** Abandoned, the other way: the sources are gone and all other files are as before. */
  lemma AbandonedExactly(moves: Pairs, removes: seq<Path>, old_: Files, s: Files)
    ensures IsAbandoned(Normal(moves, removes), old_, s) <==>
      (forall x <- Firsts(moves) :: x !in s) && forall x :: x !in Firsts(moves) ==> SameFile(old_, s, x)
  {
    hide Dedup, Firsts, SameFile;
    NormalFacts(moves, removes);
    SameFileExactly(old_, s);
    if IsAbandoned(Normal(moves, removes), old_, s) {
      forall x | x in Firsts(moves) ensures x !in s { assert At(s, x) == Absent; }
    }
  }

  lemma NothingAside(p: Plan, old_: Files, trace: seq<Files>, start: nat)
    requires start == |trace|
    ensures Staged(p, old_, [], 0, 0, {}, old_) && SetAside(p, old_, []) && AllGood(p, old_, [], trace, start)
  {
  }

  /** Phase one over all old files. */
  method SetAllAside(fs: FileSystem, ghost p: Plan, olds: seq<Path>, ghost old_: Files, ghost start: nat)
    returns (ok: bool, ghost clean: bool, aside: Pairs)
    requires Acceptable(p, old_) && fs.files == old_ && start == |fs.trace| && forall x :: x in olds <==> x in Olds(p)
    modifies fs
    ensures old(fs.trace) <= fs.trace
    ensures start <= |fs.trace| && AllGood(p, old_, aside, fs.trace, start) && SetAside(p, old_, aside)
    ensures AsideIntact(p, old_, aside, fs.files)
    ensures ok ==> clean && forall o :: o in Olds(p) && o in old_ ==> o in Firsts(aside)
    ensures clean ==> Staged(p, old_, aside, 0, 0, {}, fs.files)
    ensures (old(fs.faults) ==> fs.faults) && (!fs.faults ==> clean && (ok <==> forall o <- Olds(p) :: !IsDirectory(old_, o)))
    ensures ok ==> forall o <- Olds(p) :: !IsDirectory(old_, o)
  {
    hide Staged, SetAside, NothingLost, AllGood, NewInPlace, NoTempClash, AsideIntact, IsDirectory;
    ok, clean, aside := true, true, [];
    NothingAside(p, old_, fs.trace, start);
    for i := 0 to |olds|
      invariant old(fs.trace) <= fs.trace
      invariant old(fs.faults) ==> fs.faults
      invariant forall j :: 0 <= j < i ==> !IsDirectory(old_, olds[j])
      invariant ok && clean && Staged(p, old_, aside, 0, 0, {}, fs.files) && SetAside(p, old_, aside)
      invariant start <= |fs.trace| && AllGood(p, old_, aside, fs.trace, start)
      invariant forall o :: o in Firsts(aside) ==> o in olds[..i]
      invariant forall j :: 0 <= j < i && olds[j] in old_ ==> olds[j] in Firsts(aside)
    {
      ghost var before := aside;
      assert olds[i] in olds && olds[..i + 1] == olds[..i] + [olds[i]];
      ok, clean, aside := SetOneAside(fs, p, old_, olds[i], aside, start);
      if !ok { return; }
      assert forall x :: x in Firsts(aside) <==> x in Firsts(before) || (x == olds[i] && olds[i] in old_) by {
        if olds[i] in old_ && olds[i] !in Firsts(before) {
          var t :| aside == before + [(olds[i], t)];
          FirstsSnoc(before, (olds[i], t));
        }
      }
    }
    StagedKeepsAside(p, old_, aside, 0, 0, {}, fs.files);
  }

  lemma EmptyPrefix(p: Plan, old_: Files, aside: Pairs, s: Files)
    ensures Staged(p, old_, aside, 0, 0, {}, s) <==> Staged(p, old_, aside, 0, 0, Firsts(p.moves[..0]), s)
    ensures Seconds(p.moves[..0]) == {} && Firsts(p.moves[..0]) == {}
  {
    assert p.moves[..0] == [];
  }

  lemma SourceInPlace(p: Plan, old_: Files, aside: Pairs, n: nat, s: Files)
    requires NoDuplicates(p) && SetAside(p, old_, aside) && n < |p.moves|
    requires Staged(p, old_, aside, 0, n, Firsts(p.moves[..n]), s)
    ensures At(s, p.moves[n].0) == At(old_, p.moves[n].0)
  {
    var src := p.moves[n].0;
    assert p.moves[n] in p.moves;
    assert src in Firsts(p.moves);
    forall m <- p.moves[..n] ensures m.0 != src && m.1 != src {
      var k :| 0 <= k < n && p.moves[k] == m;
      assert p.moves[k] in p.moves && p.moves[k].1 in Olds(p);
    }
    assert p.moves[0..n] == p.moves[..n];
    assert src !in Seconds(p.moves[..n]) && src !in Firsts(p.moves[..n]);
    assert src !in Firsts(aside) && src !in Seconds(aside);
  }

  lemma StagedLoses(p: Plan, old_: Files, aside: Pairs, n: nat, s: Files)
    requires NoDuplicates(p) && SetAside(p, old_, aside) && forall o :: o in Olds(p) && o in old_ ==> o in Firsts(aside)
    requires n <= |p.moves| && Staged(p, old_, aside, 0, n, Firsts(p.moves[..n]), s)
    ensures NothingLost(p, old_, aside, s) && AsideIntact(p, old_, aside, s)
  {
    assert Firsts(p.moves[..n]) <= Firsts(p.moves) && Seconds(p.moves[0..n]) <= Seconds(p.moves);
    StagedLosesNothing(p, old_, aside, 0, n, Firsts(p.moves[..n]), s);
    StagedKeepsAside(p, old_, aside, 0, n, Firsts(p.moves[..n]), s);
  }

  /** A move that is listed again has lost its source to its first occurrence. */
  lemma SourceMovedAway(p: Plan, old_: Files, aside: Pairs, n: nat, i: nat, s: Files)
    requires NoDuplicates(p) && SetAside(p, old_, aside) && i < n <= |p.moves|
    requires Staged(p, old_, aside, 0, n, Firsts(p.moves[..n]), s)
    ensures p.moves[i].0 !in s
  {
    var src := p.moves[i].0;
    assert p.moves[i] in p.moves && src in Firsts(p.moves) && p.moves[..n][i] in p.moves[..n];
    assert src !in Seconds(p.moves[0..n]) by {
      forall k | 0 <= k < n ensures p.moves[k].1 != src { assert p.moves[k] in p.moves; }
    }
    assert At(s, src) == Absent;
  }

  lemma RepeatIsNotNormal(moves: Pairs, i: nat, k: nat)
    requires i < k < |moves| && moves[i] == moves[k]
    ensures Dedup(moves) != moves
  {
    DedupOfDistinct(moves);
  }

  /** Phase two over all moves; stops at the first failure, after `n` moves. */
  method MakeMoves(fs: FileSystem, moves: Pairs, ghost p: Plan, ghost old_: Files, ghost aside: Pairs, ghost start: nat)
    returns (ok: bool, committed: set<Path>, ghost n: nat)
    requires p.moves == Dedup(moves)
    requires NoDuplicates(p) && SetAside(p, old_, aside) && forall o :: o in Olds(p) && o in old_ ==> o in Firsts(aside)
    requires Staged(p, old_, aside, 0, 0, {}, fs.files)
    requires start <= |fs.trace| && AllGood(p, old_, aside, fs.trace, start)
    modifies fs
    ensures old(fs.trace) <= fs.trace
    ensures start <= |fs.trace| && AllGood(p, old_, aside, fs.trace, start)
    ensures n <= |p.moves| && committed == Seconds(p.moves[..n]) && (ok ==> n == |p.moves| && moves == p.moves)
    ensures Staged(p, old_, aside, 0, n, Firsts(p.moves[..n]), fs.files)
    ensures old(fs.faults) ==> fs.faults
    ensures !fs.faults && !ok ==> moves != p.moves || (n < |p.moves| && p.moves[n].0 !in old_)
  {
    hide Staged, SetAside, NothingLost, AllGood, NewInPlace, Dedup;
    ok, committed, n := true, {}, 0;
    EmptyPrefix(p, old_, aside, fs.files);
    assert Dedup(moves[..0]) == [] by { DedupOfNone(moves); }
    for k := 0 to |moves|
      invariant old(fs.trace) <= fs.trace
      invariant old(fs.faults) ==> fs.faults
      invariant ok && n == k <= |p.moves| && moves[..k] == p.moves[..k] == Dedup(moves[..k]) && committed == Seconds(p.moves[..n])
      invariant Staged(p, old_, aside, 0, n, Firsts(p.moves[..n]), fs.files)
      invariant start <= |fs.trace| && AllGood(p, old_, aside, fs.trace, start)
    {
      ghost var s, trace := fs.files, fs.trace;
      StagedLoses(p, old_, aside, n, s);
      ghost var i := ListedAt(moves, p.moves, k, k);
      if i < k {
        SourceMovedAway(p, old_, aside, n, i, s);
        assert moves[i] == moves[k] && p.moves[i] == moves[i];
        RepeatIsNotNormal(moves, i, k);
      } else {
        SourceInPlace(p, old_, aside, k, s);
        if moves[k].0 in s {
          MoveStep(p, old_, aside, k, s);
          StagedLoses(p, old_, aside, k + 1, (s - {moves[k].0})[moves[k].1 := s[moves[k].0]]);
        }
      }
      var moved := fs.Rename(moves[k].0, moves[k].1);
      GoodSnoc(p, old_, aside, trace, start, fs.files);
      if !moved {
        ok := false;
        return;
      }
      PrefixFirsts(p.moves, k);
      assert p.moves[0..k] == p.moves[..k] && p.moves[0..k + 1] == p.moves[..k + 1];
      assert moves[..k + 1] == moves[..k] + [moves[k]] && p.moves[..k + 1] == p.moves[..k] + [p.moves[k]];
      committed := committed + {moves[k].1};
      n := n + 1;
    }
    assert moves[..|moves|] == moves;
  }

  lemma DoneHadSources(p: Plan, old_: Files, s: Files)
    requires Done(p, old_, s)
    ensures forall k :: 0 <= k < |p.moves| ==> p.moves[k].0 in old_
  {
  }

  lemma TargetsAreOld(p: Plan)
    ensures forall i :: 0 <= i < |p.moves| ==> p.moves[i].1 in Olds(p)
  {
    forall i | 0 <= i < |p.moves| ensures p.moves[i].1 in Olds(p) {
      assert p.moves[i] in p.moves;
    }
  }

  /** Moves every source onto its destination and removes the listed files, or abandons the
      sources and restores the old files. For every combination of failing calls: success means
      every destination holds its source's content and sources and listed files are gone; failure
      with every undo call succeeding means everything but the sources is as before; and in every
      state before `point`, the point of no return, even when undo calls fail, every old content is
      at its own path or at its recorded temporary path. A failed call never passes that point; from
      it on, every state has the new contents in place. A list that has a move twice always fails,
      because the second time the source is gone. */
  method MoveAllOrAbandon(fs: FileSystem, moves: Pairs, removes: seq<Path>)
    returns (ok: bool, ghost clean: bool, ghost aside: Pairs, ghost point: nat)
    requires Acceptable(Normal(moves, removes), fs.files)
    modifies fs
    ensures ok ==> NoRepeats(moves) && Done(Normal(moves, removes), old(fs.files), fs.files)
    ensures ok && clean ==> IsReplaced(Normal(moves, removes), old(fs.files), fs.files)
    ensures !ok ==> NothingLost(Normal(moves, removes), old(fs.files), aside, fs.files)
    ensures !ok && clean ==> IsAbandoned(Normal(moves, removes), old(fs.files), fs.files)
    ensures SetAside(Normal(moves, removes), old(fs.files), aside)
    ensures old(fs.trace) <= fs.trace && GroupTrace(Normal(moves, removes), old(fs.files), aside, fs.trace, |old(fs.trace)|, point)
    ensures !ok ==> point == |fs.trace|
    ensures !fs.faults ==> clean && (ok <==> Possible(Normal(moves, removes), old(fs.files)) && NoRepeats(moves))
  {
    hide Staged, SetAside, NothingLost, AsideIntact, IsAbandoned, IsReplaced, Done, NoTempClash, Dedup;
    ghost var p, old_, start := Normal(moves, removes), fs.files, |fs.trace|;
    NormalFacts(moves, removes);
    DedupOfDistinct(moves);
    var moved;
    ok, clean, moved := SetAllAside(fs, p, OldList(moves, removes), old_, start);
    aside := moved;
    if !ok {
      EmptyPrefix(p, old_, moved, fs.files);
      clean := Abandon(fs, moves, p, old_, moved, {}, 0, clean, start);
      point := |fs.trace|;
      return;
    }
    var committed;
    ghost var n;
    ok, committed, n := MakeMoves(fs, moves, p, old_, moved, start);
    if !ok {
      StagedLoses(p, old_, moved, n, fs.files);
      TargetsAreOld(p);
      clean := Abandon(fs, moves, p, old_, moved, committed, n, true, start);
      point := |fs.trace|;
      return;
    }
    assert p.moves[..n] == p.moves;
    point := |fs.trace|;
    ghost var before := fs.trace;
    clean := CleanUpOldFiles(fs, p, old_, moved);
    assert fs.trace[..point] == before;
    DoneHadSources(p, old_, fs.files);
  }
}
