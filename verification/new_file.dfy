/** A file that is written beside its final path and committed later, alone or in a group. */
module NewFiles {
  import opened FileCommit
  import opened Sets

  class NewFile {
    const finalPath: Path
    const tempPath: Path
    /** Whether the descriptor is open; while it is, destruction unlinks the file. */
    var open_: bool

    constructor (finalPath: Path, tempPath: Path)
      ensures this.finalPath == finalPath && this.tempPath == tempPath && open_
    {
      this.finalPath, this.tempPath, this.open_ := finalPath, tempPath, true;
    }

    /** Closes the descriptor whether or not closing reports an error. */
    method Keep() returns (ok: bool)
      modifies this
      ensures !open_
    {
      open_ := false;
      ok := *;
    }

    /** What destruction does: unlinks the file unless it was kept. */
    method Cleanup(fs: FileSystem) returns (ghost clean: bool)
      modifies this, fs
      ensures !open_
      ensures fs.files == if old(open_) && clean then old(fs.files) - {tempPath} else old(fs.files)
      ensures !old(open_) ==> clean
    {
      clean := true;
      if open_ {
        var unlinked := fs.UnlinkIfExists(tempPath);
        clean := unlinked;
        open_ := false;
      }
    }

    /** Moves the file to its final path, or abandons it. */
    method CommitOrAbandon(fs: FileSystem) returns (ok: bool, ghost clean: bool)
      requires tempPath != finalPath
      modifies this, fs
      ensures ok ==> tempPath in old(fs.files) && fs.files == (old(fs.files) - {tempPath})[finalPath := old(fs.files)[tempPath]]
      ensures !ok ==> fs.files == if clean then old(fs.files) - {tempPath} else old(fs.files)
    {
      clean := true;
      ok := Keep();
      if ok {
        ok := fs.Rename(tempPath, finalPath);
      }
      if !ok {
        var unlinked := fs.UnlinkIfExists(tempPath);
        clean := unlinked;
      }
    }
  }

  /** Creates the temporary file. When setting its mode or owner fails, the file goes away again. */
  method Create(fs: FileSystem, path: Path) returns (r: NewFile?, ghost clean: bool)
    modifies fs
    ensures r == null && clean ==> fs.files == old(fs.files)
    ensures r != null ==> fresh(r) && r.open_ && r.finalPath == path && IsTempOf(r.tempPath, path)
    ensures r != null ==> r.tempPath !in old(fs.files) && fs.files == old(fs.files)[r.tempPath := File("")]
  {
    r, clean := null, true;
    var made, t := fs.Mkstemps(path);
    if !made { return; }
    var file := new NewFile(path, t);
    var permitted: bool := *;
    if !permitted {
      clean := file.Cleanup(fs);
      assert old(fs.files)[t := File("")] - {t} == old(fs.files);
      return;
    }
    r := file;
  }

  function PairsOf(fs: seq<NewFile>): (r: Pairs)
    ensures |r| == |fs| && forall i :: 0 <= i < |fs| ==> r[i] == (fs[i].tempPath, fs[i].finalPath)
  {
    if fs == [] then [] else PairsOf(fs[..|fs| - 1]) + [(fs[|fs| - 1].tempPath, fs[|fs| - 1].finalPath)]
  }

  lemma UnlinkOne(ps: Pairs, k: nat, old_: Files, s: Files)
    requires k < |ps| && forall x :: At(s, x) == if x in Firsts(ps[..k]) then Absent else At(old_, x)
    ensures forall x :: At(s - {ps[k].0}, x) == if x in Firsts(ps[..k + 1]) then Absent else At(old_, x)
  {
    PrefixFirsts(ps, k);
  }

  /** Abandons all new files; nothing else changes. */
  method UnlinkAll(fs: FileSystem, moves: Pairs, ghost plan: Plan) returns (ghost clean: bool)
    requires NoDuplicates(plan) && Firsts(plan.moves) == Firsts(moves)
    modifies fs
    ensures clean ==> IsAbandoned(plan, old(fs.files), fs.files)
    ensures NothingLost(plan, old(fs.files), [], fs.files)
    ensures old(fs.trace) <= fs.trace && AllGood(plan, old(fs.files), [], fs.trace, |old(fs.trace)|)
  {
    clean := true;
    ghost var old_ := fs.files;
    for k := 0 to |moves|
      invariant clean ==> forall x :: At(fs.files, x) == if x in Firsts(moves[..k]) then Absent else At(old_, x)
      invariant forall x :: x !in Firsts(moves) ==> At(fs.files, x) == At(old_, x)
      invariant old(fs.trace) <= fs.trace && AllGood(plan, old_, [], fs.trace, |old(fs.trace)|)
    {
      assert moves[k] in moves;
      if clean {
        UnlinkOne(moves, k, old_, fs.files);
      }
      ghost var trace := fs.trace;
      var ok := fs.UnlinkIfExists(moves[k].0);
      clean := clean && ok;
      GoodSnoc(plan, old_, [], trace, |old(fs.trace)|, fs.files);
    }
    assert moves[..|moves|] == moves;
  }

  lemma NothingAfter(p: Plan, old_: Files, trace: seq<Files>)
    ensures AllDone(p, old_, trace, |trace|)
  {
  }

  /** Commits all new files and removes the listed ones, or abandons all new files and leaves
      everything else as it was, with what the group move guarantees in between. `kept` says
      whether every descriptor could be closed. */
  method CommitAllOrAbandon(fs: FileSystem, news: seq<NewFile>, removes: seq<Path>)
    returns (ok: bool, ghost clean: bool, ghost aside: Pairs, ghost point: nat, ghost kept: bool)
    requires Acceptable(Normal(PairsOf(news), removes), fs.files)
    modifies fs, news
    ensures ok ==> NoRepeats(PairsOf(news)) && Done(Normal(PairsOf(news), removes), old(fs.files), fs.files)
    ensures ok && clean ==> IsReplaced(Normal(PairsOf(news), removes), old(fs.files), fs.files)
    ensures !ok && clean ==> IsAbandoned(Normal(PairsOf(news), removes), old(fs.files), fs.files)
    ensures !ok ==> NothingLost(Normal(PairsOf(news), removes), old(fs.files), aside, fs.files) && point == |fs.trace|
    ensures old(fs.trace) <= fs.trace
    ensures GroupTrace(Normal(PairsOf(news), removes), old(fs.files), aside, fs.trace, |old(fs.trace)|, point)
    ensures !kept ==> !ok
    ensures kept && !fs.faults ==> clean && (ok <==> Possible(Normal(PairsOf(news), removes), old(fs.files)) && NoRepeats(PairsOf(news)))
  {
    hide Done, IsReplaced, NothingLost, NoTempClash, AllGood, AllDone, Possible, IsAbandoned, Dedup, NoRepeats;
    ghost var plan := Normal(PairsOf(news), removes);
    NormalFacts(PairsOf(news), removes);
    var moves: Pairs := [];
    aside, kept := [], true;
    for i := 0 to |news|
      invariant fs.files == old(fs.files) && fs.trace == old(fs.trace) && fs.faults == old(fs.faults)
      invariant kept && moves == PairsOf(news)[..i]
    {
      var closed := news[i].Keep();
      if !closed {
        ok, kept := false, false;
        clean := UnlinkAll(fs, PairsOf(news), plan);
        point := |fs.trace|;
        assert fs.trace[..point] == fs.trace;
        NothingAfter(plan, old(fs.files), fs.trace);
        return;
      }
      moves := moves + [(news[i].tempPath, news[i].finalPath)];
    }
    assert moves == PairsOf(news);
    ok, clean, aside, point := MoveAllOrAbandon(fs, moves, removes);
  }
}
