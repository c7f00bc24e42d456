/** Committing the files that were staged before a reboot: every artifact set is replaced as a
    whole or not at all. */
module StagedCommit {
  import opened Sets
  import opened Wrappers
  import opened FileCommit
  import opened ArtifactPaths

  predicate FileExists(files: Files, p: Path) { p in files && files[p].File? }

  function StagedPath(p: Path): Path { p + STAGED_SUFFIX }

  // ---- Profiles ----

  datatype WritableProfile =
    | Primary(package: string, profile: string, isPreReboot: bool)
    | Secondary(dexPath: string, isPreReboot: bool)

  predicate ValidPathElementSubstring(s: string) { s != [] && '/' !in s && '\0' !in s }

  /** The path of a reference profile; `data` is the Android data directory. */
  function BuildWritableProfilePath(p: WritableProfile, data: string): Result<Path> {
    var suffix := if p.isPreReboot then STAGED_SUFFIX else "";
    match p
    case Primary(package, profile, _) =>
      if !ValidPathElementSubstring(package) || package == "." || package == ".." || !ValidPathElementSubstring(profile) then Err
      else Ok(data + "/misc/profiles/ref/" + package + "/" + profile + ".prof" + suffix)
    case Secondary(dexPath, _) =>
      if dexPath == [] || dexPath[0] != '/' then Err
      else
        var pos := LastOf(dexPath, "/");
        if pos == -1 then Err
        else
          var parent := if pos == 0 then "/" else dexPath[..pos];
          Ok(parent + "/oat/" + dexPath[pos + 1..] + ".prof" + suffix)
  }

  lemma ProfileNameIsFinal(p: WritableProfile, data: string)
    requires BuildWritableProfilePath(p, data).Ok? && !p.isPreReboot
    ensures IsFinal(BuildWritableProfilePath(p, data).value)
  {
    hide IsFinal;
    var r := BuildWritableProfilePath(p, data).value;
    assert EndsWith(r, ".prof");
    ExtensionIsFinal(r, ".prof");
  }

  /** The name of a primary profile, and when there is one: neither the package nor the profile may be
      empty or have a slash or a NUL, and the package may not be "." or "..". */
  lemma PrimaryProfileName(package: string, profile: string, data: string)
    ensures BuildWritableProfilePath(Primary(package, profile, false), data) ==
      if package == "" || package == "." || package == ".." || '/' in package || '\0' in package ||
         profile == "" || '/' in profile || '\0' in profile
      then Err
      else Ok(data + "/misc/profiles/ref/" + package + "/" + profile + ".prof")
  {
    var r := data + "/misc/profiles/ref/" + package + "/" + profile + ".prof";
    assert r + "" == r;
  }

  /** The profile of a secondary dex file is in the directory "oat" beside it. */
  lemma SecondaryProfileName(dir: string, name: string, data: string)
    requires '/' !in name && (dir == "" || dir[0] == '/')
    ensures BuildWritableProfilePath(Secondary(dir + "/" + name, false), data) ==
      Ok((if dir == "" then "/" else dir) + "/oat/" + name + ".prof")
  {
    hide LastOf;
    var d := dir + "/" + name;
    assert d == dir + ['/'] + name;
    LastOfConcat(dir, '/', name, "/");
    assert d[..|dir|] == dir && d[|dir| + 1..] == name;
    var r := (if dir == "" then "/" else dir) + "/oat/" + name + ".prof";
    assert r + "" == r;
  }

  /** Different packages or profiles have different files. */
  lemma PrimaryProfilesDiffer(package: string, profile: string, package': string, profile': string, data: string)
    requires BuildWritableProfilePath(Primary(package, profile, false), data).Ok?
    requires BuildWritableProfilePath(Primary(package, profile, false), data) == BuildWritableProfilePath(Primary(package', profile', false), data)
    ensures package == package' && profile == profile'
  {
    PrimaryProfileName(package, profile, data);
    PrimaryProfileName(package', profile', data);
    var d := data + "/misc/profiles/ref/";
    SameTail(d + package + "/" + profile, d + package' + "/" + profile', ".prof");
    SplitAtSlash(d + package, profile, d + package', profile');
    assert (d + package)[|d|..] == package && (d + package')[|d|..] == package';
  }

  // ---- The plan ----

  function TripleMoves(r: RawArtifactsPath, files: Files): Pairs {
    if !FileExists(files, StagedPath(r.oat)) then []
    else [(StagedPath(r.oat), r.oat), (StagedPath(r.vdex), r.vdex)] +
         (if FileExists(files, StagedPath(r.art)) then [(StagedPath(r.art), r.art)] else [])
  }

  function TripleRemoves(r: RawArtifactsPath, files: Files): seq<Path> {
    if FileExists(files, StagedPath(r.oat)) && !FileExists(files, StagedPath(r.art)) then [r.art] else []
  }

  function ProfileMoves(p: Path, files: Files): Pairs {
    if FileExists(files, StagedPath(p)) then [(StagedPath(p), p)] else []
  }

  function AllTripleMoves(rs: seq<RawArtifactsPath>, files: Files): Pairs {
    if rs == [] then [] else AllTripleMoves(rs[..|rs| - 1], files) + TripleMoves(rs[|rs| - 1], files)
  }

  function AllTripleRemoves(rs: seq<RawArtifactsPath>, files: Files): seq<Path> {
    if rs == [] then [] else AllTripleRemoves(rs[..|rs| - 1], files) + TripleRemoves(rs[|rs| - 1], files)
  }

  function AllProfileMoves(ps: seq<Path>, files: Files): Pairs {
    if ps == [] then [] else AllProfileMoves(ps[..|ps| - 1], files) + ProfileMoves(ps[|ps| - 1], files)
  }

  /** The moves in the order they are made. */
  function Listed(rs: seq<RawArtifactsPath>, ps: seq<Path>, files: Files): Pairs {
    AllTripleMoves(rs, files) + AllProfileMoves(ps, files)
  }

  function PlanFor(rs: seq<RawArtifactsPath>, ps: seq<Path>, files: Files): Plan {
    Normal(Listed(rs, ps, files), AllTripleRemoves(rs, files))
  }

  /** A set is staged if its oat file with ".staged" is a regular file; then the vdex file goes along,
      and the art file goes along if it is there or else is removed. A profile is staged if its file is. */
  lemma PlannedExactly(r: RawArtifactsPath, p: Path, files: Files)
    ensures var staged := r.oat + ".staged" in files && files[r.oat + ".staged"].File?;
      var withArt := r.art + ".staged" in files && files[r.art + ".staged"].File?;
      && (!staged ==> TripleMoves(r, files) == [] && TripleRemoves(r, files) == [])
      && (staged && withArt ==> TripleRemoves(r, files) == [])
      && (staged && withArt ==>
            TripleMoves(r, files) == [(r.oat + ".staged", r.oat), (r.vdex + ".staged", r.vdex), (r.art + ".staged", r.art)])
      && (staged && !withArt ==> TripleRemoves(r, files) == [r.art])
      && (staged && !withArt ==>
            TripleMoves(r, files) == [(r.oat + ".staged", r.oat), (r.vdex + ".staged", r.vdex)])
    ensures ProfileMoves(p, files) == if p + ".staged" in files && files[p + ".staged"].File? then [(p + ".staged", p)] else []
  {
  }

  // ---- Raw paths ----

  function TriplePaths(r: RawArtifactsPath): set<Path> { {r.oat, r.vdex, r.art} }

  /** No name is that of a staged or a temporary file; every built name is like this. */
  ghost predicate FinalNames(rs: seq<RawArtifactsPath>, ps: seq<Path>) {
    && (forall i :: 0 <= i < |rs| ==> forall p <- TriplePaths(rs[i]) :: IsFinal(p))
    && (forall i :: 0 <= i < |ps| ==> IsFinal(ps[i]))
  }

  ghost predicate FinalTriple(r: RawArtifactsPath) {
    r.oat != r.vdex && r.oat != r.art && r.vdex != r.art && forall p <- TriplePaths(r) :: IsFinal(p)
  }

  ghost predicate DistinctTriples(rs: seq<RawArtifactsPath>) {
    && (forall i :: 0 <= i < |rs| ==> FinalTriple(rs[i]))
    && (forall i, j :: 0 <= i < j < |rs| ==> TriplePaths(rs[i]) !! TriplePaths(rs[j]))
  }

  ghost predicate DistinctInputs(rs: seq<RawArtifactsPath>, ps: seq<Path>) {
    && DistinctTriples(rs)
    && (forall i, j :: 0 <= i < j < |ps| ==> ps[i] != ps[j])
    && (forall i :: 0 <= i < |ps| ==> IsFinal(ps[i]))
    && (forall i, j :: 0 <= i < |rs| && 0 <= j < |ps| ==> ps[j] !in TriplePaths(rs[i]))
  }

  // ---- Building blocks about pairs ----

  /** Every move takes a staged file to its final name. */
  ghost predicate AllStaged(ps: Pairs) {
    forall m <- ps :: m.0 == StagedPath(m.1) && IsFinal(m.1)
  }

  /** Besides, no final name is taken twice. */
  ghost predicate StagedMoves(ps: Pairs) {
    AllStaged(ps) && forall i, j :: 0 <= i < j < |ps| ==> ps[i].1 != ps[j].1
  }

  lemma SecondsConcat(a: Pairs, b: Pairs)
    ensures Seconds(a + b) == Seconds(a) + Seconds(b) && Firsts(a + b) == Firsts(a) + Firsts(b)
  {
  }

  lemma StagedMovesConcat(a: Pairs, b: Pairs)
    requires StagedMoves(a) && StagedMoves(b) && Seconds(a) !! Seconds(b)
    ensures StagedMoves(a + b)
  {
    hide IsFinal;
    forall i, j | 0 <= i < j < |a + b| ensures (a + b)[i].1 != (a + b)[j].1 {
      if i < |a| <= j {
        assert a[i] in a && b[j - |a|] in b;
        assert a[i].1 in Seconds(a) && b[j - |a|].1 in Seconds(b);
      }
    }
  }

  lemma TripleFacts(r: RawArtifactsPath, files: Files)
    requires FinalTriple(r)
    ensures StagedMoves(TripleMoves(r, files))
    ensures Seconds(TripleMoves(r, files)) + SetOf(TripleRemoves(r, files)) == if FileExists(files, StagedPath(r.oat)) then TriplePaths(r) else {}
    ensures Seconds(TripleMoves(r, files)) !! SetOf(TripleRemoves(r, files))
    ensures r.art in SetOf(TripleRemoves(r, files)) <==> FileExists(files, StagedPath(r.oat)) && !FileExists(files, StagedPath(r.art))
  {
    hide IsFinal, FileExists, StagedPath;
    var ms := TripleMoves(r, files);
    forall x ensures x in Seconds(ms) <==>
      FileExists(files, StagedPath(r.oat)) && (x == r.oat || x == r.vdex || (x == r.art && FileExists(files, StagedPath(r.art)))) {
      if FileExists(files, StagedPath(r.oat)) {
        assert ms[0] in ms && ms[1] in ms;
        if FileExists(files, StagedPath(r.art)) { assert ms[2] in ms; }
      }
    }
  }

  /** The final names of the artifact sets whose oat file is staged. */
  function StagedSets(rs: seq<RawArtifactsPath>, files: Files): set<Path> {
    if rs == [] then {}
    else StagedSets(rs[..|rs| - 1], files) + (if FileExists(files, StagedPath(rs[|rs| - 1].oat)) then TriplePaths(rs[|rs| - 1]) else {})
  }

  lemma {:induction false} StagedSetsApart(rs: seq<RawArtifactsPath>, files: Files, other: set<Path>)
    requires forall i :: 0 <= i < |rs| ==> TriplePaths(rs[i]) !! other
    ensures StagedSets(rs, files) !! other
  {
    hide TriplePaths, FileExists, StagedPath;
    if rs != [] {
      StagedSetsApart(rs[..|rs| - 1], files, other);
    }
  }

  /** An artifact set is touched as a whole or not at all. */
  lemma {:induction false} StagedSetsAt(rs: seq<RawArtifactsPath>, files: Files, i: nat)
    requires DistinctTriples(rs) && i < |rs|
    ensures if FileExists(files, StagedPath(rs[i].oat)) then TriplePaths(rs[i]) <= StagedSets(rs, files) else TriplePaths(rs[i]) !! StagedSets(rs, files)
  {
    hide TriplePaths, FileExists, StagedPath, FinalTriple;
    var init := rs[..|rs| - 1];
    if i < |init| {
      assert init[i] == rs[i];
      StagedSetsAt(init, files, i);
    } else {
      StagedSetsApart(init, files, TriplePaths(rs[i]));
    }
  }

  lemma NoMoves()
    ensures StagedMoves([]) && Seconds([]) == {} && SetOf<Path>([]) == {}
  {
  }

  lemma SetOfConcat(a: seq<Path>, b: seq<Path>)
    ensures SetOf(a + b) == SetOf(a) + SetOf(b)
  {
  }

  lemma {:induction false} AllTripleFacts(rs: seq<RawArtifactsPath>, files: Files)
    requires DistinctTriples(rs)
    ensures StagedMoves(AllTripleMoves(rs, files))
    ensures Seconds(AllTripleMoves(rs, files)) !! SetOf(AllTripleRemoves(rs, files))
    ensures Seconds(AllTripleMoves(rs, files)) + SetOf(AllTripleRemoves(rs, files)) == StagedSets(rs, files)
  {
    hide FileExists, StagedPath, StagedMoves, TripleMoves, TripleRemoves, FinalTriple, TriplePaths, Seconds, SetOf;
    if rs == [] {
      NoMoves();
    } else {
      var init, r := rs[..|rs| - 1], rs[|rs| - 1];
      AllTripleFacts(init, files);
      assert FinalTriple(r);
      TripleFacts(r, files);
      var ms, us := AllTripleMoves(init, files), TripleMoves(r, files);
      var mr, ur := AllTripleRemoves(init, files), TripleRemoves(r, files);
      SecondsConcat(ms, us);
      SetOfConcat(mr, ur);
      StagedSetsApart(init, files, TriplePaths(r));
      StagedMovesConcat(ms, us);
    }
  }

  lemma RemovesWithin(r: RawArtifactsPath, files: Files)
    ensures SetOf(TripleRemoves(r, files)) <= TriplePaths(r)
  {
    hide FileExists, StagedPath;
  }

  /** The art file is removed exactly when the set is staged without one. */
  lemma {:induction false} RemovedAt(rs: seq<RawArtifactsPath>, files: Files, i: nat)
    requires DistinctTriples(rs) && i < |rs|
    ensures TriplePaths(rs[i]) * SetOf(AllTripleRemoves(rs, files)) == SetOf(TripleRemoves(rs[i], files))
  {
    hide FileExists, StagedPath, FinalTriple, TripleRemoves, TriplePaths, SetOf;
    var init, r := rs[..|rs| - 1], rs[|rs| - 1];
    SetOfConcat(AllTripleRemoves(init, files), TripleRemoves(r, files));
    RemovesWithin(r, files);
    if i < |init| {
      assert init[i] == rs[i];
      assert TriplePaths(rs[i]) !! TriplePaths(r);
      RemovedAt(init, files, i);
    } else {
      StagedSetsApart(init, files, TriplePaths(r));
      AllTripleFacts(init, files);
    }
  }

  lemma OnlyArtIsRemoved(rs: seq<RawArtifactsPath>, files: Files, i: nat)
    requires DistinctTriples(rs) && i < |rs|
    ensures var removed := SetOf(AllTripleRemoves(rs, files));
      && rs[i].oat !in removed && rs[i].vdex !in removed
      && (rs[i].art in removed <==> FileExists(files, StagedPath(rs[i].oat)) && !FileExists(files, StagedPath(rs[i].art)))
  {
    hide FileExists, StagedPath, AllTripleRemoves, IsFinal;
    var r, removed := rs[i], SetOf(AllTripleRemoves(rs, files));
    RemovedAt(rs, files, i);
    assert FinalTriple(r);
    forall x | x in TriplePaths(r) ensures x in removed <==> x in SetOf(TripleRemoves(r, files)) {
      assert x in TriplePaths(r) * removed <==> x in removed;
    }
  }

  lemma {:induction false} AllProfileFacts(ps: seq<Path>, files: Files)
    requires NoRepeats(ps) && forall i :: 0 <= i < |ps| ==> IsFinal(ps[i])
    ensures StagedMoves(AllProfileMoves(ps, files))
    ensures forall x :: x in Seconds(AllProfileMoves(ps, files)) <==> x in ps && FileExists(files, StagedPath(x))
  {
    hide IsFinal, FileExists, StagedPath;
    if ps != [] {
      var init, p := ps[..|ps| - 1], ps[|ps| - 1];
      AllProfileFacts(init, files);
      SecondsConcat(AllProfileMoves(init, files), ProfileMoves(p, files));
      assert FileExists(files, StagedPath(p)) ==> ProfileMoves(p, files)[0] in ProfileMoves(p, files);
      StagedMovesConcat(AllProfileMoves(init, files), ProfileMoves(p, files));
      assert ps == init + [p];
    }
  }

  lemma StagedPathInjective(a: Path, b: Path)
    ensures StagedPath(a) == StagedPath(b) ==> a == b
  {
    assert StagedPath(a)[..|StagedPath(a)| - |STAGED_SUFFIX|] == a;
    assert StagedPath(b)[..|StagedPath(b)| - |STAGED_SUFFIX|] == b;
  }

  lemma StagedMovesApart(p: Plan, files: Files)
    requires StagedMoves(p.moves) && Seconds(p.moves) !! p.removes && forall r <- p.removes :: IsFinal(r)
    ensures Acceptable(p, files)
  {
    forall k | 0 <= k < |p.moves| ensures IsPreRebootStagedFile(p.moves[k].0) && !IsTempFile(p.moves[k].0) {
      assert p.moves[k] in p.moves;
      StagedIsStaged(p.moves[k].1);
    }
    assert forall x :: x in Firsts(p.moves) ==> IsPreRebootStagedFile(x) && !IsTempFile(x);
    assert forall x :: x in Seconds(p.moves) ==> IsFinal(x);
    forall i, j | 0 <= i < j < |p.moves| ensures p.moves[i].0 != p.moves[j].0 {
      assert p.moves[i] in p.moves && p.moves[j] in p.moves;
      StagedPathInjective(p.moves[i].1, p.moves[j].1);
    }
    forall o, t | o in Olds(p) && IsTempOf(t, o) ensures t !in Olds(p) && t !in Firsts(p.moves) {
      TempIsTemp(t, o);
    }
  }

  /** Whatever is listed is a staged file, and whatever is touched has a final name. */
  lemma {:induction false} TriplesListed(rs: seq<RawArtifactsPath>, files: Files)
    requires FinalNames(rs, [])
    ensures AllStaged(AllTripleMoves(rs, files)) && forall r <- AllTripleRemoves(rs, files) :: IsFinal(r)
  {
    hide IsFinal, FileExists, StagedPath;
    if rs != [] {
      var r := rs[|rs| - 1];
      assert r.oat in TriplePaths(r) && r.vdex in TriplePaths(r) && r.art in TriplePaths(r);
      TriplesListed(rs[..|rs| - 1], files);
    }
  }

  lemma {:induction false} ProfilesListed(ps: seq<Path>, files: Files)
    requires FinalNames([], ps)
    ensures AllStaged(AllProfileMoves(ps, files))
  {
    hide IsFinal, FileExists, StagedPath;
    if ps != [] {
      ProfilesListed(ps[..|ps| - 1], files);
    }
  }

  /** The plan moves each staged file once. */
  lemma PlanIsStaged(rs: seq<RawArtifactsPath>, ps: seq<Path>, files: Files)
    requires FinalNames(rs, ps)
    ensures AllStaged(Listed(rs, ps, files)) && StagedMoves(PlanFor(rs, ps, files).moves)
    ensures forall r <- PlanFor(rs, ps, files).removes :: IsFinal(r)
  {
    hide IsFinal, StagedPath, AllTripleMoves, AllTripleRemoves, AllProfileMoves, Dedup;
    TriplesListed(rs, files);
    ProfilesListed(ps, files);
    var d := Dedup(Listed(rs, ps, files));
    forall i, j | 0 <= i < j < |d| ensures d[i].1 != d[j].1 {
      assert d[i] in d && d[j] in d;
      assert d[i] != d[j];
    }
  }

  lemma DistinctAreFinal(rs: seq<RawArtifactsPath>, ps: seq<Path>)
    requires DistinctInputs(rs, ps)
    ensures FinalNames(rs, ps)
  {
    hide IsFinal;
    forall i | 0 <= i < |rs| ensures forall p <- TriplePaths(rs[i]) :: IsFinal(p) {
      assert FinalTriple(rs[i]);
    }
  }

  lemma StagedMovesDistinct(moves: Pairs)
    requires StagedMoves(moves)
    ensures NoRepeats(moves) && Dedup(moves) == moves
  {
    hide IsFinal, StagedPath;
    DedupOfDistinct(moves);
  }

  lemma DistinctProfiles(rs: seq<RawArtifactsPath>, ps: seq<Path>)
    requires DistinctInputs(rs, ps)
    ensures NoRepeats(ps)
  {
    hide FinalTriple, IsFinal;
  }

  /** All moves of the plan, and the final names they and the removals touch. */
  lemma PlanFacts(rs: seq<RawArtifactsPath>, ps: seq<Path>, files: Files)
    requires DistinctInputs(rs, ps)
    ensures var p := PlanFor(rs, ps, files);
      && StagedMoves(p.moves) && NoRepeats(Listed(rs, ps, files)) && p.moves == Listed(rs, ps, files) && Seconds(p.moves) !! p.removes
      && Olds(p) == StagedSets(rs, files) + Seconds(AllProfileMoves(ps, files))
      && StagedSets(rs, files) !! Seconds(AllProfileMoves(ps, files))
      && p.removes == SetOf(AllTripleRemoves(rs, files))
      && forall i :: 0 <= i < |rs| ==> TriplePaths(rs[i]) !! Seconds(AllProfileMoves(ps, files))
  {
    hide FileExists, StagedPath, StagedMoves, FinalTriple, IsFinal, TriplePaths, NoRepeats, Dedup;
    AllTripleFacts(rs, files);
    assert NoRepeats(ps) by { DistinctProfiles(rs, ps); }
    AllProfileFacts(ps, files);
    var a, b := AllTripleMoves(rs, files), AllProfileMoves(ps, files);
    SecondsConcat(a, b);
    forall i | 0 <= i < |rs| ensures TriplePaths(rs[i]) !! Seconds(b) {
      forall x | x in Seconds(b) ensures x !in TriplePaths(rs[i]) {
        var j :| 0 <= j < |ps| && ps[j] == x;
      }
    }
    StagedSetsApart(rs, files, Seconds(b));
    StagedMovesConcat(a, b);
    StagedMovesDistinct(a + b);
  }

  /** The plan meets what the group move demands, because staged, temporary and final names never
      coincide. */
  lemma PlanIsAcceptable(rs: seq<RawArtifactsPath>, ps: seq<Path>, files: Files)
    requires FinalNames(rs, ps)
    ensures Acceptable(PlanFor(rs, ps, files), files)
  {
    hide FileExists, StagedPath, StagedMoves, AllStaged, IsFinal, FinalNames, Acceptable, Dedup, AllTripleMoves, AllTripleRemoves, AllProfileMoves;
    PlanIsStaged(rs, ps, files);
    NormalFacts(Listed(rs, ps, files), AllTripleRemoves(rs, files));
    StagedMovesApart(PlanFor(rs, ps, files), files);
  }

  lemma RepeatsConcat(a: Pairs, b: Pairs)
    ensures !NoRepeats(a) || !NoRepeats(b) ==> !NoRepeats(a + b)
  {
    if !NoRepeats(a) {
      var i, j :| 0 <= i < j < |a| && a[i] == a[j];
      assert (a + b)[i] == (a + b)[j];
    } else if !NoRepeats(b) {
      var i, j :| 0 <= i < j < |b| && b[i] == b[j];
      assert (a + b)[|a| + i] == (a + b)[|a| + j];
    }
  }

  lemma RepeatsAt(ms: Pairs)
    requires |ms| > 2 && ms[0] == ms[2]
    ensures !NoRepeats(ms)
  {
  }

  /** A staged set whose oat and art files have the same name is listed with a move twice. */
  lemma {:induction false} SharedNameRepeats(rs: seq<RawArtifactsPath>, files: Files, i: nat)
    requires i < |rs| && rs[i].oat == rs[i].art && FileExists(files, StagedPath(rs[i].oat))
    ensures !NoRepeats(AllTripleMoves(rs, files))
  {
    hide FileExists, StagedPath, NoRepeats;
    var init, r := rs[..|rs| - 1], rs[|rs| - 1];
    if i < |init| {
      assert init[i] == rs[i];
      SharedNameRepeats(init, files, i);
    } else {
      var ms := TripleMoves(r, files);
      assert ms[0] == ms[2];
      assert !NoRepeats(ms) by { RepeatsAt(ms); }
    }
    RepeatsConcat(AllTripleMoves(init, files), TripleMoves(r, files));
  }

  lemma {:induction false} TripleIsListed(rs: seq<RawArtifactsPath>, files: Files, i: nat)
    requires i < |rs|
    ensures forall m <- TripleMoves(rs[i], files) :: m in AllTripleMoves(rs, files)
  {
    hide TripleMoves;
    var init := rs[..|rs| - 1];
    if i < |init| {
      assert init[i] == rs[i];
      TripleIsListed(init, files, i);
    }
  }

  function BesideDexFile(base: Path): RawArtifactsPath {
    RawArtifactsPath(base + ".odex", base + ".vdex", base + ".art")
  }

  lemma BaseNamesDiffer(a: Path, b: Path, s: string, t: string)
    requires s in [".odex", ".vdex", ".art"] && t in [".odex", ".vdex", ".art"] && (a != b || s != t)
    ensures a + s != b + t
  {
    if s == t {
      if a + s == b + t {
        SameTail(a, b, s);
      }
    } else {
      assert EndsWith(a + s, s) && EndsWith(b + t, t) by { ConcatEndsWith(a, s, s); ConcatEndsWith(b, t, t); }
      if s == ".art" || t == ".art" {
        DifferentEnds(a + s, b + t, s, t, 0);
      } else {
        DifferentEnds(a + s, b + t, s, t, 3);
      }
    }
  }

  lemma DifferentBases(a: Path, b: Path)
    requires a != b
    ensures TriplePaths(BesideDexFile(a)) !! TriplePaths(BesideDexFile(b))
  {
    forall s, t | s in [".odex", ".vdex", ".art"] && t in [".odex", ".vdex", ".art"] ensures a + s != b + t {
      BaseNamesDiffer(a, b, s, t);
    }
  }

  lemma TripleBeside(base: Path)
    ensures FinalTriple(BesideDexFile(base))
    ensures EndsWith(base + ".odex", ".odex") && EndsWith(base + ".vdex", ".vdex") && EndsWith(base + ".art", ".art")
  {
    hide IsFinal;
    ConcatEndsWith(base, ".odex", ".odex");
    ConcatEndsWith(base, ".vdex", ".vdex");
    ConcatEndsWith(base, ".art", ".art");
    ExtensionIsFinal(base + ".odex", ".odex");
    ExtensionIsFinal(base + ".vdex", ".vdex");
    ExtensionIsFinal(base + ".art", ".art");
    BaseNamesDiffer(base, base, ".odex", ".vdex");
    BaseNamesDiffer(base, base, ".odex", ".art");
    BaseNamesDiffer(base, base, ".vdex", ".art");
  }

  /** Artifacts beside different dex files, and different profiles, never share a name. */
  lemma DifferentFilesAreDistinct(bases: seq<Path>, rs: seq<RawArtifactsPath>, ps: seq<Path>)
    requires NoRepeats(bases) && |rs| == |bases| && forall i :: 0 <= i < |rs| ==> rs[i] == BesideDexFile(bases[i])
    requires NoRepeats(ps) && forall p <- ps :: EndsWith(p, ".prof")
    ensures DistinctInputs(rs, ps)
  {
    hide IsFinal, EndsWith;
    forall i | 0 <= i < |rs| ensures FinalTriple(rs[i]) && forall p <- ps :: p !in TriplePaths(rs[i]) {
      TripleBeside(bases[i]);
      forall p | p in ps ensures p !in TriplePaths(rs[i]) {
        DifferentEnds(p, bases[i] + ".odex", ".prof", ".odex", 0);
        DifferentEnds(p, bases[i] + ".vdex", ".prof", ".vdex", 0);
        DifferentEnds(p, bases[i] + ".art", ".prof", ".art", 0);
      }
    }
    forall i, j | 0 <= i < j < |rs| ensures TriplePaths(rs[i]) !! TriplePaths(rs[j]) {
      DifferentBases(bases[i], bases[j]);
    }
    forall j | 0 <= j < |ps| ensures IsFinal(ps[j]) {
      assert ps[j] in ps;
      ExtensionIsFinal(ps[j], ".prof");
    }
  }

  // ---- What a commit does to an artifact set ----

  ghost predicate EntirelyOld(r: RawArtifactsPath, old_: Files, s: Files) {
    At(s, r.oat) == At(old_, r.oat) && At(s, r.vdex) == At(old_, r.vdex) && At(s, r.art) == At(old_, r.art)
  }

  /** The staged oat and vdex are in place, and the art file is the staged one or absent. */
  ghost predicate EntirelyStaged(r: RawArtifactsPath, old_: Files, s: Files) {
    && StagedPath(r.oat) in old_ && At(s, r.oat) == Found(old_[StagedPath(r.oat)])
    && StagedPath(r.vdex) in old_ && At(s, r.vdex) == Found(old_[StagedPath(r.vdex)])
    && At(s, r.art) == if FileExists(old_, StagedPath(r.art)) then Found(old_[StagedPath(r.art)]) else Absent
  }

  /** No staged file of a set that is staged is left. */
  ghost predicate StagedGone(r: RawArtifactsPath, old_: Files, s: Files) {
    FileExists(old_, StagedPath(r.oat)) ==>
      && At(s, StagedPath(r.oat)) == At(s, StagedPath(r.vdex)) == Absent
      && (FileExists(old_, StagedPath(r.art)) ==> At(s, StagedPath(r.art)) == Absent)
  }

  lemma TargetHoldsStaged(p: Plan, old_: Files, s: Files, x: Path)
    requires StagedMoves(p.moves) && NewInPlace(p, old_, s) && x in Seconds(p.moves)
    ensures StagedPath(x) in old_ && At(s, x) == Found(old_[StagedPath(x)])
  {
    var k :| 0 <= k < |p.moves| && p.moves[k].1 == x;
    assert p.moves[k] in p.moves;
  }

  lemma FinalIsNoSource(p: Plan, x: Path)
    requires StagedMoves(p.moves) && IsFinal(x)
    ensures x !in Firsts(p.moves)
  {
    forall k | 0 <= k < |p.moves| ensures p.moves[k].0 != x {
      assert p.moves[k] in p.moves;
      StagedIsStaged(p.moves[k].1);
    }
  }

  /** After the group move has replaced everything, each artifact set whose oat file was staged is
      entirely staged, and each other set is entirely old. */
  lemma ReplacedSetsAreWhole(rs: seq<RawArtifactsPath>, ps: seq<Path>, old_: Files, s: Files, i: nat)
    requires DistinctInputs(rs, ps) && IsReplaced(PlanFor(rs, ps, old_), old_, s) && i < |rs|
    ensures if FileExists(old_, StagedPath(rs[i].oat)) then EntirelyStaged(rs[i], old_, s) else EntirelyOld(rs[i], old_, s)
  {
    hide IsFinal, FileExists, StagedPath, EndsWith, StagedMoves, NewInPlace, PlanFor;
    var p, r := PlanFor(rs, ps, old_), rs[i];
    PlanFacts(rs, ps, old_);
    StagedSetsAt(rs, old_, i);
    OnlyArtIsRemoved(rs, old_, i);
    assert FinalTriple(r);
    assert r.oat in TriplePaths(r) && r.vdex in TriplePaths(r) && r.art in TriplePaths(r);
    if FileExists(old_, StagedPath(r.oat)) {
      assert r.oat !in p.removes && r.vdex !in p.removes;
      TargetHoldsStaged(p, old_, s, r.oat);
      TargetHoldsStaged(p, old_, s, r.vdex);
      if FileExists(old_, StagedPath(r.art)) {
        assert r.art !in p.removes;
        TargetHoldsStaged(p, old_, s, r.art);
      } else {
        assert r.art in p.removes;
      }
    } else {
      forall x | x in TriplePaths(r) ensures At(s, x) == At(old_, x) {
        assert x !in Olds(p);
        FinalIsNoSource(p, x);
      }
    }
  }

  /** After an abandoned group move every artifact set is entirely old. */
  lemma AbandonedSetsAreOld(rs: seq<RawArtifactsPath>, ps: seq<Path>, old_: Files, s: Files, i: nat)
    requires FinalNames(rs, ps) && IsAbandoned(PlanFor(rs, ps, old_), old_, s) && i < |rs|
    ensures EntirelyOld(rs[i], old_, s)
  {
    hide FileExists, StagedPath, EndsWith, IsFinal, StagedMoves, PlanFor;
    PlanIsStaged(rs, ps, old_);
    forall x | x in TriplePaths(rs[i]) ensures At(s, x) == At(old_, x) {
      FinalIsNoSource(PlanFor(rs, ps, old_), x);
    }
  }

  /** Either way no staged file of a staged set is left. */
  lemma SourcesAreGone(rs: seq<RawArtifactsPath>, ps: seq<Path>, old_: Files, s: Files, i: nat)
    requires i < |rs| && forall x :: x in Firsts(PlanFor(rs, ps, old_).moves) ==> At(s, x) == Absent
    ensures StagedGone(rs[i], old_, s)
  {
    hide FileExists, StagedPath, AllTripleMoves, AllTripleRemoves, AllProfileMoves, Dedup;
    NormalFacts(Listed(rs, ps, old_), AllTripleRemoves(rs, old_));
    if FileExists(old_, StagedPath(rs[i].oat)) {
      TripleIsListed(rs, old_, i);
      var ms := TripleMoves(rs[i], old_);
      forall k | 0 <= k < |ms| ensures At(s, ms[k].0) == Absent {
        assert ms[k] in ms;
        assert ms[k] in Listed(rs, ps, old_);
      }
      assert ms[0].0 == StagedPath(rs[i].oat) && ms[1].0 == StagedPath(rs[i].vdex);
      assert FileExists(old_, StagedPath(rs[i].art)) ==> ms[2].0 == StagedPath(rs[i].art);
    }
  }

  lemma ReplacedOrAbandonedLeavesNoSource(p: Plan, old_: Files, s: Files)
    requires NoDuplicates(p) && (IsReplaced(p, old_, s) || IsAbandoned(p, old_, s))
    ensures forall x :: x in Firsts(p.moves) ==> At(s, x) == Absent
  {
  }

  lemma AcceptableIsDistinct(p: Plan, files: Files)
    requires Acceptable(p, files)
    ensures NoDuplicates(p)
  {
    hide NoDuplicates, NoTempClash;
  }

  /** What a finished group move leaves, set by set. */
  lemma AfterCommit(rs: seq<RawArtifactsPath>, ps: seq<Path>, old_: Files, s: Files, ok: bool)
    requires FinalNames(rs, ps) && if ok then IsReplaced(PlanFor(rs, ps, old_), old_, s) else IsAbandoned(PlanFor(rs, ps, old_), old_, s)
    ensures !ok ==> forall i :: 0 <= i < |rs| ==> EntirelyOld(rs[i], old_, s)
    ensures forall i :: 0 <= i < |rs| ==> StagedGone(rs[i], old_, s)
    ensures ok && DistinctInputs(rs, ps) ==> forall i :: 0 <= i < |rs| ==>
      if FileExists(old_, StagedPath(rs[i].oat)) then EntirelyStaged(rs[i], old_, s) else EntirelyOld(rs[i], old_, s)
  {
    hide FinalNames, DistinctInputs, PlanFor, IsReplaced, IsAbandoned, EntirelyOld, EntirelyStaged, StagedGone, FileExists, StagedPath, Acceptable;
    PlanIsAcceptable(rs, ps, old_);
    assert NoDuplicates(PlanFor(rs, ps, old_)) by { AcceptableIsDistinct(PlanFor(rs, ps, old_), old_); }
    ReplacedOrAbandonedLeavesNoSource(PlanFor(rs, ps, old_), old_, s);
    forall i | 0 <= i < |rs|
      ensures StagedGone(rs[i], old_, s)
      ensures !ok ==> EntirelyOld(rs[i], old_, s)
      ensures ok && DistinctInputs(rs, ps) ==>
        if FileExists(old_, StagedPath(rs[i].oat)) then EntirelyStaged(rs[i], old_, s) else EntirelyOld(rs[i], old_, s)
    {
      SourcesAreGone(rs, ps, old_, s, i);
      if !ok {
        AbandonedSetsAreOld(rs, ps, old_, s, i);
      } else if DistinctInputs(rs, ps) {
        ReplacedSetsAreWhole(rs, ps, old_, s, i);
      }
    }
  }

  lemma Joined(rs: seq<RawArtifactsPath>, ps: seq<Path>, files: Files)
    ensures Listed(rs, ps, files) == AllTripleMoves(rs, files) + AllProfileMoves(ps, files)
  {
    hide AllTripleMoves, AllProfileMoves;
  }

  // ---- The operation ----

  datatype Outcome = Fatal | NonFatal | Committed(anyMoved: bool)

  predicate Buildable(artifacts: seq<ArtifactsPath>, cache: string) {
    forall a <- artifacts :: !a.isPreReboot && BuildArtifactsPath(a, cache).Ok?
  }

  predicate ProfilesBuildable(profiles: seq<WritableProfile>, data: string) {
    forall p <- profiles :: !p.isPreReboot && BuildWritableProfilePath(p, data).Ok?
  }

  lemma SecondaryBuilt(p: WritableProfile, data: string)
    requires p.Secondary?
    ensures BuildWritableProfilePath(p, data).Ok? <==> |p.dexPath| > 0 && p.dexPath[0] == '/'
  {
    if |p.dexPath| > 0 && p.dexPath[0] == '/' {
      assert LastOf(p.dexPath, "/") >= 0;
    }
  }

  /** The arguments that are refused as a whole: any that is marked pre-reboot, a dex path that is not
      absolute, an unknown instruction set, or a bad package or profile name. */
  lemma BuildableExactly(artifacts: seq<ArtifactsPath>, profiles: seq<WritableProfile>, cache: string, data: string)
    ensures Buildable(artifacts, cache) <==> forall a <- artifacts ::
      !a.isPreReboot && |a.dexPath| > 0 && a.dexPath[0] == '/' && a.isa in ["arm", "arm64", "riscv64", "x86", "x86_64"]
    ensures ProfilesBuildable(profiles, data) <==> forall p <- profiles ::
      && !p.isPreReboot
      && (p.Primary? ==>
            && p.package != "" && p.package != "." && p.package != ".." && '/' !in p.package && '\0' !in p.package
            && p.profile != "" && '/' !in p.profile && '\0' !in p.profile)
      && (p.Secondary? ==> |p.dexPath| > 0 && p.dexPath[0] == '/')
  {
    hide BuildArtifactsPath, BuildWritableProfilePath;
    forall a | a in artifacts
      ensures BuildArtifactsPath(a, cache).Ok? <==> |a.dexPath| > 0 && a.dexPath[0] == '/' && a.isa in ["arm", "arm64", "riscv64", "x86", "x86_64"] {
      BuiltExactly(a, cache);
    }
    forall p | p in profiles && !p.isPreReboot
      ensures BuildWritableProfilePath(p, data).Ok? <==>
        && (p.Primary? ==>
              && p.package != "" && p.package != "." && p.package != ".." && '/' !in p.package && '\0' !in p.package
              && p.profile != "" && '/' !in p.profile && '\0' !in p.profile)
        && (p.Secondary? ==> |p.dexPath| > 0 && p.dexPath[0] == '/') {
      if p.Primary? {
        PrimaryProfileName(p.package, p.profile, data);
      } else {
        SecondaryBuilt(p, data);
      }
    }
  }

  function RawsOf(artifacts: seq<ArtifactsPath>, cache: string): (r: seq<RawArtifactsPath>)
    requires Buildable(artifacts, cache)
    ensures |r| == |artifacts| && forall i :: 0 <= i < |r| ==> r[i] == BuildArtifactsPath(artifacts[i], cache).value
  {
    seq(|artifacts|, i requires 0 <= i < |artifacts| => BuildArtifactsPath(artifacts[i], cache).value)
  }

  function ProfilePathsOf(profiles: seq<WritableProfile>, data: string): (r: seq<Path>)
    requires ProfilesBuildable(profiles, data)
    ensures |r| == |profiles| && forall i :: 0 <= i < |r| ==> r[i] == BuildWritableProfilePath(profiles[i], data).value
  {
    seq(|profiles|, i requires 0 <= i < |profiles| => BuildWritableProfilePath(profiles[i], data).value)
  }

  /** What a commit of these artifact sets and profiles moves and removes. */
  function PlanOf(artifacts: seq<ArtifactsPath>, profiles: seq<WritableProfile>, cache: string, data: string, files: Files): Plan
    requires Buildable(artifacts, cache) && ProfilesBuildable(profiles, data)
  {
    PlanFor(RawsOf(artifacts, cache), ProfilePathsOf(profiles, data), files)
  }

  /** The moves in the order they are made. */
  function MovesOf(artifacts: seq<ArtifactsPath>, profiles: seq<WritableProfile>, cache: string, data: string, files: Files): Pairs
    requires Buildable(artifacts, cache) && ProfilesBuildable(profiles, data)
  {
    Listed(RawsOf(artifacts, cache), ProfilePathsOf(profiles, data), files)
  }

  /** Every built name is a final one. */
  lemma BuiltNamesAreFinal(artifacts: seq<ArtifactsPath>, profiles: seq<WritableProfile>, cache: string, data: string)
    requires Buildable(artifacts, cache) && ProfilesBuildable(profiles, data)
    ensures FinalNames(RawsOf(artifacts, cache), ProfilePathsOf(profiles, data))
  {
    hide BuildArtifactsPath, BuildWritableProfilePath, IsFinal;
    var rs, ps := RawsOf(artifacts, cache), ProfilePathsOf(profiles, data);
    forall i | 0 <= i < |rs| ensures forall p <- TriplePaths(rs[i]) :: IsFinal(p) {
      assert artifacts[i] in artifacts;
      ArtifactNamesAreFinal(artifacts[i], cache);
    }
    forall i | 0 <= i < |ps| ensures IsFinal(ps[i]) {
      assert profiles[i] in profiles;
      ProfileNameIsFinal(profiles[i], data);
    }
  }

  /** A dex file in the dalvik-cache whose name ends in ".art": its oat and art files have the same
      name. */
  predicate SharesName(a: ArtifactsPath) { a.isInDalvikCache && EndsWith(a.dexPath, ".art") }

  /** A staged artifact set of that kind lists a move twice. */
  lemma ArtPathRepeats(artifacts: seq<ArtifactsPath>, profiles: seq<WritableProfile>, cache: string, data: string, files: Files, i: nat)
    requires Buildable(artifacts, cache) && ProfilesBuildable(profiles, data)
    requires i < |artifacts| && SharesName(artifacts[i]) && FileExists(files, StagedPath(RawsOf(artifacts, cache)[i].oat))
    ensures !NoRepeats(MovesOf(artifacts, profiles, cache, data, files))
  {
    hide BuildArtifactsPath, BuildWritableProfilePath, EndsWith, NoRepeats, FileExists, StagedPath, AllTripleMoves, AllProfileMoves;
    assert artifacts[i] in artifacts;
    NamesDistinctExactly(artifacts[i], cache);
    var rs := RawsOf(artifacts, cache);
    SharedNameRepeats(rs, files, i);
    RepeatsConcat(AllTripleMoves(rs, files), AllProfileMoves(ProfilePathsOf(profiles, data), files));
  }

  /** The staged names are the final names with a suffix. */
  lemma PreRebootNames(a: ArtifactsPath, cache: string)
    requires !a.isPreReboot
    ensures BuildArtifactsPath(a.(isPreReboot := true), cache).Ok? <==> BuildArtifactsPath(a, cache).Ok?
    ensures BuildArtifactsPath(a, cache).Ok? ==>
      BuildArtifactsPath(a.(isPreReboot := true), cache).value == StagedArtifacts(BuildArtifactsPath(a, cache).value)
  {
    hide DalvikCacheFilename, DexLocationToOdexFilename, ReplaceFileExtension, ValidIsa;
  }

  lemma PreRebootProfileNames(p: WritableProfile, data: string)
    requires !p.isPreReboot
    ensures BuildWritableProfilePath(p.(isPreReboot := true), data).Ok? <==> BuildWritableProfilePath(p, data).Ok?
    ensures BuildWritableProfilePath(p, data).Ok? ==>
      BuildWritableProfilePath(p.(isPreReboot := true), data).value == StagedPath(BuildWritableProfilePath(p, data).value)
  {
    hide ValidPathElementSubstring, LastOf;
  }

  lemma NothingPlanned(files: Files)
    ensures AllTripleMoves([], files) == [] && AllTripleRemoves([], files) == []
  {
  }

  lemma OneMoreTriple(rs: seq<RawArtifactsPath>, r: RawArtifactsPath, files: Files)
    ensures AllTripleMoves(rs + [r], files) == AllTripleMoves(rs, files) + TripleMoves(r, files)
    ensures AllTripleRemoves(rs + [r], files) == AllTripleRemoves(rs, files) + TripleRemoves(r, files)
  {
    hide TripleMoves, TripleRemoves;
    assert (rs + [r])[..|rs|] == rs;
  }

  method PlanArtifacts(files: Files, artifacts: seq<ArtifactsPath>, cache: string) returns (ok: bool, moves: Pairs, removes: seq<Path>)
    ensures ok <==> Buildable(artifacts, cache)
    ensures ok ==> moves == AllTripleMoves(RawsOf(artifacts, cache), files) && removes == AllTripleRemoves(RawsOf(artifacts, cache), files)
  {
    hide BuildArtifactsPath, FileExists, AllTripleMoves, AllTripleRemoves;
    ok, moves, removes := true, [], [];
    NothingPlanned(files);
    for i := 0 to |artifacts|
      invariant ok && Buildable(artifacts[..i], cache)
      invariant moves == AllTripleMoves(RawsOf(artifacts[..i], cache), files)
      invariant removes == AllTripleRemoves(RawsOf(artifacts[..i], cache), files)
    {
      var a := artifacts[i];
      assert a in artifacts;
      if a.isPreReboot { ok := false; return; }
      PreRebootNames(a, cache);
      var src, dst := BuildArtifactsPath(a.(isPreReboot := true), cache), BuildArtifactsPath(a, cache);
      if src.Err? || dst.Err? { ok := false; return; }
      var s, d := src.value, dst.value;
      assert artifacts[..i + 1] == artifacts[..i] + [a];
      assert RawsOf(artifacts[..i + 1], cache) == RawsOf(artifacts[..i], cache) + [d];
      OneMoreTriple(RawsOf(artifacts[..i], cache), d, files);
      ghost var ms, us := moves, removes;
      if FileExists(files, s.oat) {
        moves := moves + [(s.oat, d.oat), (s.vdex, d.vdex)];
        if FileExists(files, s.art) {
          moves := moves + [(s.art, d.art)];
        } else {
          removes := removes + [d.art];
        }
      }
      assert moves == ms + TripleMoves(d, files) && removes == us + TripleRemoves(d, files);
    }
    assert artifacts[..|artifacts|] == artifacts;
  }

  method PlanProfiles(files: Files, profiles: seq<WritableProfile>, data: string) returns (ok: bool, moves: Pairs)
    ensures ok <==> ProfilesBuildable(profiles, data)
    ensures ok ==> moves == AllProfileMoves(ProfilePathsOf(profiles, data), files)
  {
    hide BuildWritableProfilePath, FileExists;
    ok, moves := true, [];
    for i := 0 to |profiles|
      invariant ok && ProfilesBuildable(profiles[..i], data)
      invariant moves == AllProfileMoves(ProfilePathsOf(profiles[..i], data), files)
    {
      assert profiles[i] in profiles;
      if profiles[i].isPreReboot { ok := false; return; }
      PreRebootProfileNames(profiles[i], data);
      var src, dst := BuildWritableProfilePath(profiles[i].(isPreReboot := true), data), BuildWritableProfilePath(profiles[i], data);
      if src.Err? || dst.Err? { ok := false; return; }
      assert profiles[..i + 1] == profiles[..i] + [profiles[i]];
      assert ProfilePathsOf(profiles[..i + 1], data) == ProfilePathsOf(profiles[..i], data) + [dst.value];
      assert (ProfilePathsOf(profiles[..i], data) + [dst.value])[..i] == ProfilePathsOf(profiles[..i], data);
      if FileExists(files, src.value) {
        moves := moves + [(src.value, dst.value)];
      }
    }
    assert profiles[..|profiles|] == profiles;
  }

  /** Commits every staged artifact set and profile, or none. Bad arguments change nothing.
      Afterwards, when every undo call succeeded, no staged file is left, and when the names are
      distinct each artifact set is entirely staged or entirely old: staged exactly when the commit
      succeeded and its oat file was staged. When no call fails by itself, the commit succeeds
      exactly when no move is listed twice, every source on the plan is there (a staged oat file
      needs its vdex) and no file to be replaced is a directory. A staged set whose oat and art
      files share their name always makes it fail, and then every set is old. Whatever fails, in
      every state before the point of no return each old file is at its own or its temporary path. */
  method CommitPreRebootStagedFiles(fs: FileSystem, artifacts: seq<ArtifactsPath>, profiles: seq<WritableProfile>, cache: string, data: string)
    returns (out: Outcome, ghost clean: bool, ghost aside: Pairs, ghost point: nat)
    modifies fs
    ensures out.Fatal? <==> !Buildable(artifacts, cache) || !ProfilesBuildable(profiles, data)
    ensures out.Fatal? ==> fs.files == old(fs.files) && fs.trace == old(fs.trace)
    ensures old(fs.trace) <= fs.trace
    ensures !out.Fatal? ==>
      GroupTrace(PlanOf(artifacts, profiles, cache, data, old(fs.files)), old(fs.files), aside, fs.trace, |old(fs.trace)|, point)
    ensures out.NonFatal? ==> point == |fs.trace|
    ensures out.NonFatal? ==>
      NothingLost(PlanOf(artifacts, profiles, cache, data, old(fs.files)), old(fs.files), aside, fs.files)
    ensures out.Committed? ==>
      Done(PlanOf(artifacts, profiles, cache, data, old(fs.files)), old(fs.files), fs.files)
    ensures out.Committed? && clean && DistinctInputs(RawsOf(artifacts, cache), ProfilePathsOf(profiles, data)) ==>
      forall i :: 0 <= i < |artifacts| ==>
        if FileExists(old(fs.files), StagedPath(RawsOf(artifacts, cache)[i].oat))
        then EntirelyStaged(RawsOf(artifacts, cache)[i], old(fs.files), fs.files)
        else EntirelyOld(RawsOf(artifacts, cache)[i], old(fs.files), fs.files)
    ensures out.NonFatal? && clean ==> forall i :: 0 <= i < |artifacts| ==>
      EntirelyOld(RawsOf(artifacts, cache)[i], old(fs.files), fs.files)
    ensures !out.Fatal? && clean ==> forall i :: 0 <= i < |artifacts| ==>
      StagedGone(RawsOf(artifacts, cache)[i], old(fs.files), fs.files)
    ensures out.Committed? && clean ==> IsReplaced(PlanOf(artifacts, profiles, cache, data, old(fs.files)), old(fs.files), fs.files)
    ensures out.NonFatal? && clean ==> IsAbandoned(PlanOf(artifacts, profiles, cache, data, old(fs.files)), old(fs.files), fs.files)
    ensures !fs.faults && !out.Fatal? ==> clean
    ensures !fs.faults && !out.Fatal? ==>
      (out.Committed? <==> && NoRepeats(MovesOf(artifacts, profiles, cache, data, old(fs.files)))
                           && Possible(PlanOf(artifacts, profiles, cache, data, old(fs.files)), old(fs.files)))
    ensures !fs.faults && !out.Fatal? && DistinctInputs(RawsOf(artifacts, cache), ProfilePathsOf(profiles, data)) ==>
      (out.Committed? <==> Possible(PlanOf(artifacts, profiles, cache, data, old(fs.files)), old(fs.files)))
    ensures out.Committed? ==> forall i :: 0 <= i < |artifacts| && SharesName(artifacts[i]) ==>
      !FileExists(old(fs.files), StagedPath(RawsOf(artifacts, cache)[i].oat))
    ensures out.Committed? ==> (out.anyMoved <==> PlanOf(artifacts, profiles, cache, data, old(fs.files)).moves != [])
  {
    hide Buildable, ProfilesBuildable, AllTripleMoves, AllTripleRemoves, AllProfileMoves, FileExists, StagedPath, EntirelyOld, EntirelyStaged,
      StagedGone, IsReplaced, IsAbandoned, Possible, Acceptable, DistinctInputs, FinalNames, Done, NothingLost, SetAside, GroupTrace, RawsOf,
      ProfilePathsOf, Dedup, SharesName, Listed;
    clean, aside, point := true, [], |fs.trace|;
    var ok1, moves, removes := PlanArtifacts(fs.files, artifacts, cache);
    if !ok1 { out := Fatal; return; }
    var ok2, profileMoves := PlanProfiles(fs.files, profiles, data);
    if !ok2 { out := Fatal; return; }
    ghost var rs, ps, files := RawsOf(artifacts, cache), ProfilePathsOf(profiles, data), fs.files;
    moves := moves + profileMoves;
    assert moves == Listed(rs, ps, files) by { Joined(rs, ps, files); }
    BuiltNamesAreFinal(artifacts, profiles, cache, data);
    PlanIsAcceptable(rs, ps, files);
    var ok;
    ok, clean, aside, point := MoveAllOrAbandon(fs, moves, removes);
    out := if ok then Committed(moves != []) else NonFatal;
    if ok {
      DedupOfDistinct(moves);
      forall i | 0 <= i < |artifacts| && SharesName(artifacts[i]) ensures !FileExists(files, StagedPath(rs[i].oat)) {
        if FileExists(files, StagedPath(rs[i].oat)) {
          ArtPathRepeats(artifacts, profiles, cache, data, files, i);
        }
      }
    }
    if clean {
      AfterCommit(rs, ps, files, fs.files, ok);
    }
    if DistinctInputs(rs, ps) {
      PlanFacts(rs, ps, files);
    }
  }

  /** A built artifact set has three different final names, but for the ".art" case. */
  lemma BuiltTriplesAreFinal(a: ArtifactsPath, cache: string)
    requires !a.isPreReboot && BuildArtifactsPath(a, cache).Ok?
    ensures FinalTriple(BuildArtifactsPath(a, cache).value) <==> !SharesName(a)
  {
    hide BuildArtifactsPath, IsFinal, EndsWith;
    ArtifactNamesAreFinal(a, cache);
    NamesDistinctExactly(a, cache);
  }
}
