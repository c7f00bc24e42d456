/** Deleting obsolete managed files and accounting for the space that this frees. */
module Cleanup {
  import opened Sets
  import opened FileCommit
  import opened ArtifactPaths
  import opened StagedCommit

  /** Sizes of the files on disk. */
  type Sizes = map<Path, nat>

  /** Total size, summed in any order. */
  ghost function Total(m: Sizes): nat
    decreases |m|
  {
    if m == map[] then 0
    else
      assert m.Keys != {};
      var p :| p in m;
      m[p] + Total(m - {p})
  }

  lemma {:induction false} TotalWithout(m: Sizes, p: Path)
    requires p in m
    ensures Total(m) == m[p] + Total(m - {p})
    decreases |m|
  {
    assert m.Keys != {};
    var q :| q in m && Total(m) == m[q] + Total(m - {q});
    if q != p {
      TotalWithout(m - {q}, p);
      TotalWithout(m - {p}, q);
      assert m - {q} - {p} == m - {p} - {q};
    }
  }

  class Disk {
    var sizes: Sizes
    /** Paths on which a deletion was attempted, oldest first. */
    ghost var attempted: seq<Path>
    /** Paths on which reading the size or deleting failed although the file was there. */
    ghost var failed: set<Path>

    /** Counts a file only when it is really gone. */
    method GetSizeAndDeleteFile(p: Path) returns (freed: nat)
      modifies this
      ensures attempted == old(attempted) + [p]
      ensures sizes == old(sizes) || sizes == old(sizes) - {p}
      ensures p in sizes ==> p in failed
      ensures old(failed) <= failed <= old(failed) + {p}
      ensures freed == if p in old(sizes) && p !in sizes then old(sizes)[p] else 0
      ensures failed != old(failed) ==> p in sizes
    {
      attempted := attempted + [p];
      freed := 0;
      var sizeKnown: bool := *;
      if p !in sizes { return; }
      if !sizeKnown { failed := failed + {p}; return; }
      var size := sizes[p];
      var deleted: bool := *;
      if !deleted { failed := failed + {p}; return; }
      sizes := sizes - {p};
      freed := size;
    }
  }

  predicate Obsolete(p: Path, keep: set<Path>, keepStaged: bool) {
    p !in keep && (!keepStaged || !IsPreRebootStagedFile(p))
  }

  function Doomed(listing: seq<Path>, keep: set<Path>, keepStaged: bool): seq<Path> {
    if listing == [] then []
    else
      var rest := Doomed(listing[..|listing| - 1], keep, keepStaged);
      if Obsolete(listing[|listing| - 1], keep, keepStaged) then rest + [listing[|listing| - 1]] else rest
  }

  lemma ObsoleteExactly(p: Path, keep: set<Path>, keepStaged: bool)
    ensures Obsolete(p, keep, keepStaged) <==> p !in keep && !(keepStaged && |p| >= 7 && p[|p| - 7..] == ".staged")
  {
  }

  /** Deletion is attempted for exactly what is listed, is not to be kept and, when staged files are
      to be kept, does not end in ".staged", and as often as it is listed. */
  lemma {:induction false} DoomedExactly(listing: seq<Path>, keep: set<Path>, keepStaged: bool, p: Path)
    ensures var doomed := Doomed(listing, keep, keepStaged);
      && (p in doomed <==> p in listing && p !in keep && !(keepStaged && |p| >= 7 && p[|p| - 7..] == ".staged"))
      && (p in doomed ==> multiset(doomed)[p] == multiset(listing)[p])
  {
    hide Obsolete;
    ObsoleteExactly(p, keep, keepStaged);
    if listing != [] {
      var init, last := listing[..|listing| - 1], listing[|listing| - 1];
      DoomedExactly(init, keep, keepStaged, p);
      assert listing == init + [last];
    }
  }

  /** What comes first among the attempts comes first in the listing. */
  lemma {:induction false} DoomedInOrder(listing: seq<Path>, keep: set<Path>, keepStaged: bool, i: nat, j: nat) returns (a: nat, b: nat)
    requires i < j < |Doomed(listing, keep, keepStaged)|
    ensures a < b < |listing| && listing[a] == Doomed(listing, keep, keepStaged)[i] && listing[b] == Doomed(listing, keep, keepStaged)[j]
  {
    hide Obsolete;
    var init := listing[..|listing| - 1];
    var rest := Doomed(init, keep, keepStaged);
    if j < |rest| {
      a, b := DoomedInOrder(init, keep, keepStaged, i, j);
    } else {
      b := |init|;
      DoomedExactly(init, keep, keepStaged, rest[i]);
      assert rest[i] in rest;
      a :| 0 <= a < |init| && init[a] == rest[i];
    }
  }

  /** What may be kept: the names of artifact sets and any further paths. */
  function ArtifactNames(artifacts: seq<ArtifactsPath>, cache: string): set<Path>
    requires Buildable(artifacts, cache)
  {
    set i, p | 0 <= i < |artifacts| && p in TriplePaths(RawsOf(artifacts, cache)[i]) :: p
  }

  lemma ArtifactNamesSnoc(artifacts: seq<ArtifactsPath>, cache: string, i: nat)
    requires i < |artifacts| && Buildable(artifacts[..i], cache) && !artifacts[i].isPreReboot && BuildArtifactsPath(artifacts[i], cache).Ok?
    ensures Buildable(artifacts[..i + 1], cache)
    ensures ArtifactNames(artifacts[..i + 1], cache) == ArtifactNames(artifacts[..i], cache) + TriplePaths(BuildArtifactsPath(artifacts[i], cache).value)
  {
    hide BuildArtifactsPath, TriplePaths;
    assert artifacts[..i + 1] == artifacts[..i] + [artifacts[i]];
    var a, b := RawsOf(artifacts[..i + 1], cache), RawsOf(artifacts[..i], cache);
    forall j | 0 <= j < i ensures a[j] == b[j] { assert artifacts[..i + 1][j] == artifacts[..i][j]; }
    assert a[i] == BuildArtifactsPath(artifacts[i], cache).value;
    forall p | p in TriplePaths(a[i]) ensures p in ArtifactNames(artifacts[..i + 1], cache) { }
    forall p | p in ArtifactNames(artifacts[..i], cache) ensures p in ArtifactNames(artifacts[..i + 1], cache) {
      var j :| 0 <= j < i && p in TriplePaths(b[j]);
      assert p in TriplePaths(a[j]);
    }
    forall p | p in ArtifactNames(artifacts[..i + 1], cache)
      ensures p in ArtifactNames(artifacts[..i], cache) + TriplePaths(a[i]) {
      var j :| 0 <= j < i + 1 && p in TriplePaths(a[j]);
      if j < i { assert p in TriplePaths(b[j]); }
    }
  }

  lemma NoNames(artifacts: seq<ArtifactsPath>, cache: string)
    requires artifacts == []
    ensures Buildable(artifacts, cache) && ArtifactNames(artifacts, cache) == {}
  {
  }

  method FilesToKeep(others: seq<Path>, artifacts: seq<ArtifactsPath>, cache: string) returns (ok: bool, keep: set<Path>)
    ensures ok <==> Buildable(artifacts, cache)
    ensures ok ==> keep == SetOf(others) + ArtifactNames(artifacts, cache)
  {
    hide BuildArtifactsPath, ArtifactNames;
    keep, ok := {}, true;
    assert ArtifactNames(artifacts[..0], cache) == {} by { NoNames(artifacts[..0], cache); }
    for i := 0 to |others|
      invariant keep == SetOf(others[..i])
    {
      assert others[..i + 1] == others[..i] + [others[i]];
      keep := keep + {others[i]};
    }
    assert others[..|others|] == others;
    for i := 0 to |artifacts|
      invariant ok && Buildable(artifacts[..i], cache)
      invariant keep == SetOf(others) + ArtifactNames(artifacts[..i], cache)
    {
      assert artifacts[i] in artifacts;
      if artifacts[i].isPreReboot { ok := false; return; }
      var built := BuildArtifactsPath(artifacts[i], cache);
      if built.Err? { ok := false; return; }
      ArtifactNamesSnoc(artifacts, cache, i);
      keep := keep + {built.value.oat} + {built.value.vdex} + {built.value.art};
    }
    assert artifacts[..|artifacts|] == artifacts;
  }

  /** Attempts to delete what is listed and obsolete, once per listing. */
  method DeleteObsolete(disk: Disk, listing: seq<Path>, keep: set<Path>, keepStaged: bool) returns (freed: nat)
    modifies disk
    ensures disk.attempted == old(disk.attempted) + Doomed(listing, keep, keepStaged)
    ensures freed == Total(old(disk.sizes)) - Total(disk.sizes)
    ensures disk.sizes.Keys <= old(disk.sizes).Keys
    ensures forall p <- disk.sizes :: disk.sizes[p] == old(disk.sizes)[p]
    ensures forall p :: p in disk.sizes && p in listing && Obsolete(p, keep, keepStaged) ==> p in disk.failed
    ensures forall p :: p in old(disk.sizes) && p !in disk.sizes ==> p in listing && Obsolete(p, keep, keepStaged)
  {
    hide Total, IsPreRebootStagedFile;
    freed := 0;
    for i := 0 to |listing|
      invariant disk.attempted == old(disk.attempted) + Doomed(listing[..i], keep, keepStaged)
      invariant freed + Total(disk.sizes) == Total(old(disk.sizes))
      invariant disk.sizes.Keys <= old(disk.sizes).Keys
      invariant forall p <- disk.sizes :: disk.sizes[p] == old(disk.sizes)[p]
      invariant forall p :: p in disk.sizes && p in listing[..i] && Obsolete(p, keep, keepStaged) ==> p in disk.failed
      invariant forall p :: p in old(disk.sizes) && p !in disk.sizes ==> p in listing[..i] && Obsolete(p, keep, keepStaged)
    {
      var file := listing[i];
      assert listing[..i + 1] == listing[..i] + [file] && listing[..i + 1][..i] == listing[..i];
      if Obsolete(file, keep, keepStaged) {
        ghost var before := disk.sizes;
        var n := disk.GetSizeAndDeleteFile(file);
        if file in before && file !in disk.sizes {
          TotalWithout(before, file);
          assert disk.sizes == before - {file};
        } else {
          assert disk.sizes == before;
        }
        freed := freed + n;
      }
    }
    assert listing[..|listing|] == listing;
  }

  /** A name of one of the artifact sets. */
  ghost predicate NamedByArtifacts(artifacts: seq<ArtifactsPath>, cache: string, p: Path)
    requires Buildable(artifacts, cache)
  {
    exists i :: 0 <= i < |artifacts| && var r := RawsOf(artifacts, cache)[i]; p == r.oat || p == r.vdex || p == r.art
  }

  lemma NamesAreListed(artifacts: seq<ArtifactsPath>, cache: string)
    requires Buildable(artifacts, cache)
    ensures forall p :: p in ArtifactNames(artifacts, cache) <==> NamedByArtifacts(artifacts, cache, p)
  {
    hide BuildArtifactsPath, RawsOf;
    forall p ensures p in ArtifactNames(artifacts, cache) <==> NamedByArtifacts(artifacts, cache, p) {
      if p in ArtifactNames(artifacts, cache) {
        var i :| 0 <= i < |artifacts| && p in TriplePaths(RawsOf(artifacts, cache)[i]);
        var r := RawsOf(artifacts, cache)[i];
        assert p == r.oat || p == r.vdex || p == r.art;
      }
      if i, r :| 0 <= i < |artifacts| && r == RawsOf(artifacts, cache)[i] && (p == r.oat || p == r.vdex || p == r.art) {
        assert p in TriplePaths(RawsOf(artifacts, cache)[i]);
      }
    }
  }

  /** Attempts to delete exactly the listed files that are none of `others`, no name of an artifact
      set and, when staged files are kept, do not end in ".staged". All files on disk that are one of
      these, or are not listed, are still there with their sizes. Of the others, those that could be
      deleted are gone, and the byte count returned is the drop in total size, even if the listing
      repeats a path or some deletions fail. */
  method CleanUp(disk: Disk, listing: seq<Path>, others: seq<Path>, artifacts: seq<ArtifactsPath>, cache: string, keepStaged: bool)
    returns (ok: bool, freed: nat)
    modifies disk
    ensures ok <==> Buildable(artifacts, cache)
    ensures !ok ==> disk.sizes == old(disk.sizes) && disk.attempted == old(disk.attempted) && freed == 0
    ensures ok ==> disk.attempted == old(disk.attempted) + Doomed(listing, SetOf(others) + ArtifactNames(artifacts, cache), keepStaged)
    ensures ok ==> freed == Total(old(disk.sizes)) - Total(disk.sizes) && disk.sizes.Keys <= old(disk.sizes).Keys
    ensures ok ==> forall p <- old(disk.sizes) ::
      p in others || NamedByArtifacts(artifacts, cache, p) || (keepStaged && |p| >= 7 && p[|p| - 7..] == ".staged") || p !in listing ==>
        p in disk.sizes && disk.sizes[p] == old(disk.sizes)[p]
    ensures ok ==> forall p <- old(disk.sizes) ::
      p in listing && p !in others && !NamedByArtifacts(artifacts, cache, p) && !(keepStaged && |p| >= 7 && p[|p| - 7..] == ".staged") ==>
        p in disk.attempted[|old(disk.attempted)|..] && (p in disk.sizes ==> p in disk.failed && disk.sizes[p] == old(disk.sizes)[p])
  {
    hide Total, IsPreRebootStagedFile, ArtifactNames, Doomed, NamedByArtifacts;
    freed := 0;
    var keep;
    ok, keep := FilesToKeep(others, artifacts, cache);
    if !ok { return; }
    NamesAreListed(artifacts, cache);
    freed := DeleteObsolete(disk, listing, keep, keepStaged);
    ghost var attempts := disk.attempted[|old(disk.attempted)|..];
    assert attempts == Doomed(listing, keep, keepStaged);
    forall p | p in old(disk.sizes)
      ensures p in keep <==> p in others || NamedByArtifacts(artifacts, cache, p)
      ensures Obsolete(p, keep, keepStaged) <==> p !in keep && !(keepStaged && |p| >= 7 && p[|p| - 7..] == ".staged")
      ensures p in attempts <==> p in listing && Obsolete(p, keep, keepStaged)
    {
      ObsoleteExactly(p, keep, keepStaged);
      DoomedExactly(listing, keep, keepStaged, p);
    }
  }
}
