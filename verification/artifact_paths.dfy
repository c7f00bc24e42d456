/** Names of compilation artifacts: the oat, vdex and art file of a dex file, their staged
    variants, and the families these names fall into. */
module ArtifactPaths {
  import opened Wrappers
  import opened FileCommit

  const STAGED_SUFFIX: string := ".staged"

  predicate EndsWith(s: string, t: string) {
    |t| <= |s| && s[|s| - |t|..] == t
  }

  /** Index of the last character that is one of `cs`, or -1. */
  function LastOf(s: string, cs: string): (i: int)
    ensures -1 <= i < |s|
    ensures i >= 0 ==> s[i] in cs
    ensures forall j :: i < j < |s| ==> s[j] !in cs
  {
    if s == [] then -1
    else if s[|s| - 1] in cs then |s| - 1
    else LastOf(s[..|s| - 1], cs)
  }

  function ReplaceFileExtension(filename: string, ext: string): string {
    var i := LastOf(filename, "./");
    if i == -1 || filename[i] != '.' then filename + "." + ext else filename[..i + 1] + ext
  }

  datatype ArtifactsPath = ArtifactsPath(dexPath: string, isa: string, isInDalvikCache: bool, isPreReboot: bool)

  datatype RawArtifactsPath = RawArtifactsPath(oat: Path, vdex: Path, art: Path)

  predicate ValidIsa(isa: string) {
    isa in ["arm", "arm64", "riscv64", "x86", "x86_64"]
  }

  /** "/foo/bar/baz.jar" to "/foo/bar/oat/<isa>/baz.odex". */
  function DexLocationToOdexFilename(location: string, isa: string): Result<Path> {
    var pos := LastOf(location, "/");
    if pos == -1 then Err
    else
      var file := location[pos + 1..];
      var dot := LastOf(file, ".");
      var base := if dot == -1 then file else file[..dot];
      Ok(location[..pos + 1] + "oat" + "/" + isa + "/" + base + ".odex")
  }

  function ReplaceSlashes(s: string): (r: string)
    ensures |r| == |s| && forall i :: 0 <= i < |s| ==> r[i] == if s[i] == '/' then '@' else s[i]
  {
    seq(|s|, i requires 0 <= i < |s| => if s[i] == '/' then '@' else s[i])
  }

  /** "/foo/bar/baz.jar" to "<cache>/foo@bar@baz.jar@classes.dex". */
  function DalvikCacheFilename(location: string, cache: string): Result<Path> {
    if location == [] || location[0] != '/' then Err
    else
      var name := cache + location[..1] + ReplaceSlashes(location[1..]);
      Ok(if EndsWith(location, ".dex") || EndsWith(location, ".art") || EndsWith(location, ".oat") then name
         else name + "@" + "classes.dex")
  }

  function StagedArtifacts(r: RawArtifactsPath): RawArtifactsPath {
    RawArtifactsPath(r.oat + STAGED_SUFFIX, r.vdex + STAGED_SUFFIX, r.art + STAGED_SUFFIX)
  }

  /** `cache` is the dalvik-cache directory for the instruction set. */
  function BuildArtifactsPath(a: ArtifactsPath, cache: string): Result<RawArtifactsPath> {
    if a.dexPath == [] || a.dexPath[0] != '/' || !ValidIsa(a.isa) then Err
    else
      var oat := if a.isInDalvikCache then DalvikCacheFilename(a.dexPath, cache) else DexLocationToOdexFilename(a.dexPath, a.isa);
      if oat.Err? then Err
      else
        var raw := RawArtifactsPath(oat.value, ReplaceFileExtension(oat.value, "vdex"), ReplaceFileExtension(oat.value, "art"));
        Ok(if a.isPreReboot then StagedArtifacts(raw) else raw)
  }

  // ---- Families of names ----

  predicate IsPreRebootStagedFile(p: Path) { EndsWith(p, STAGED_SUFFIX) }

  predicate IsTempFile(p: Path) { EndsWith(p, TMP_SUFFIX) }

  predicate IsFinal(p: Path) { !IsPreRebootStagedFile(p) && !IsTempFile(p) }

  lemma ConcatEndsWith(a: string, b: string, t: string)
    ensures EndsWith(b, t) ==> EndsWith(a + b, t)
    ensures |t| <= |b| ==> (EndsWith(a + b, t) <==> EndsWith(b, t))
  {
    if |t| <= |b| {
      assert (a + b)[|a + b| - |t|..] == b[|b| - |t|..];
    }
  }

  lemma EndsWithLast(p: string, t: string)
    requires t != []
    ensures EndsWith(p, t) ==> p != [] && p[|p| - 1] == t[|t| - 1]
  {
    if EndsWith(p, t) {
      assert p[|p| - |t|..][|t| - 1] == p[|p| - 1];
    }
  }

  lemma LastCharDecides(p: Path)
    requires p != [] && p[|p| - 1] in "xtf"
    ensures IsFinal(p)
  {
    EndsWithLast(p, STAGED_SUFFIX);
    EndsWithLast(p, TMP_SUFFIX);
  }

  lemma ExtensionIsFinal(p: Path, ext: string)
    requires EndsWith(p, ext) && ext != [] && ext[|ext| - 1] in "xtf"
    ensures IsFinal(p)
  {
    EndsWithLast(p, ext);
    LastCharDecides(p);
  }

  lemma StagedIsStaged(p: Path)
    ensures IsPreRebootStagedFile(p + STAGED_SUFFIX) && !IsTempFile(p + STAGED_SUFFIX)
  {
    var q := p + STAGED_SUFFIX;
    assert q[|q| - 7..] == STAGED_SUFFIX;
    EndsWithLast(q, STAGED_SUFFIX);
    EndsWithLast(q, TMP_SUFFIX);
  }

  lemma TempIsTemp(t: Path, p: Path)
    requires IsTempOf(t, p)
    ensures IsTempFile(t)
  {
    assert t[|t| - 4..] == TMP_SUFFIX;
  }

  lemma ReplacedExtension(f: string, ext: string)
    ensures EndsWith(ReplaceFileExtension(f, ext), "." + ext)
  {
    var i := LastOf(f, "./");
    var r := ReplaceFileExtension(f, ext);
    if i == -1 || f[i] != '.' {
      assert r == f + ("." + ext);
      ConcatEndsWith(f, "." + ext, "." + ext);
    } else {
      assert r == f[..i] + ("." + ext);
      ConcatEndsWith(f[..i], "." + ext, "." + ext);
    }
  }

  lemma KeepsExtension(cache: string, d: string, ext: string)
    requires d != [] && d[0] == '/' && EndsWith(d, ext) && 0 < |ext| && '/' !in ext
    ensures EndsWith(cache + d[..1] + ReplaceSlashes(d[1..]), ext)
  {
    var r := ReplaceSlashes(d[1..]);
    assert d[|d| - |ext|..][0] in ext;
    assert |ext| < |d|;
    forall k | 0 <= k < |ext| ensures r[|r| - |ext| + k] == ext[k] {
      assert d[|d| - |ext|..][k] == ext[k];
      assert d[1..][|r| - |ext| + k] == ext[k];
      assert ext[k] in ext;
    }
    assert r[|r| - |ext|..] == ext;
    ConcatEndsWith(cache + d[..1], r, ext);
  }

  /** The oat name always carries one of four extensions. */
  lemma OatNameEnds(a: ArtifactsPath, cache: string)
    requires BuildArtifactsPath(a, cache).Ok? && !a.isPreReboot
    ensures var oat := BuildArtifactsPath(a, cache).value.oat;
      if a.isInDalvikCache
      then EndsWith(oat, ".dex") || (EndsWith(oat, ".oat") && EndsWith(a.dexPath, ".oat")) || (EndsWith(oat, ".art") && EndsWith(a.dexPath, ".art"))
      else EndsWith(oat, ".odex")
  {
    if a.isInDalvikCache {
      var d := a.dexPath;
      var name := cache + d[..1] + ReplaceSlashes(d[1..]);
      if EndsWith(d, ".dex") {
        KeepsExtension(cache, d, ".dex");
      } else if EndsWith(d, ".art") {
        KeepsExtension(cache, d, ".art");
      } else if EndsWith(d, ".oat") {
        KeepsExtension(cache, d, ".oat");
      } else {
        assert name + "@" + "classes.dex" == (name + "@classes") + ".dex";
        ConcatEndsWith(name + "@classes", ".dex", ".dex");
      }
    } else {
      var d := a.dexPath;
      var pos := LastOf(d, "/");
      var file := d[pos + 1..];
      var dot := LastOf(file, ".");
      var base := if dot == -1 then file else file[..dot];
      ConcatEndsWith(d[..pos + 1] + "oat" + "/" + a.isa + "/" + base, ".odex", ".odex");
    }
  }

  lemma ExtensionNames(a: ArtifactsPath, cache: string)
    requires BuildArtifactsPath(a, cache).Ok? && !a.isPreReboot
    ensures var r := BuildArtifactsPath(a, cache).value;
      && r.vdex == ReplaceFileExtension(r.oat, "vdex") && r.art == ReplaceFileExtension(r.oat, "art")
      && EndsWith(r.vdex, ".vdex") && EndsWith(r.art, ".art")
  {
    hide ReplaceFileExtension, DalvikCacheFilename, DexLocationToOdexFilename;
    var r := BuildArtifactsPath(a, cache).value;
    ReplacedExtension(r.oat, "vdex");
    ReplacedExtension(r.oat, "art");
  }

  /** Final artifact names are never taken for staged or temporary files. */
  lemma ArtifactNamesAreFinal(a: ArtifactsPath, cache: string)
    requires BuildArtifactsPath(a, cache).Ok? && !a.isPreReboot
    ensures var r := BuildArtifactsPath(a, cache).value; IsFinal(r.oat) && IsFinal(r.vdex) && IsFinal(r.art)
  {
    hide BuildArtifactsPath, ReplaceFileExtension, EndsWith, IsFinal;
    var r := BuildArtifactsPath(a, cache).value;
    OatNameEnds(a, cache);
    ExtensionNames(a, cache);
    ExtensionIsFinal(r.vdex, ".vdex");
    ExtensionIsFinal(r.art, ".art");
    if EndsWith(r.oat, ".odex") {
      ExtensionIsFinal(r.oat, ".odex");
    } else if EndsWith(r.oat, ".dex") {
      ExtensionIsFinal(r.oat, ".dex");
    } else if EndsWith(r.oat, ".oat") {
      ExtensionIsFinal(r.oat, ".oat");
    } else {
      ExtensionIsFinal(r.oat, ".art");
    }
  }

  lemma DifferentEnds(p: string, q: string, s: string, t: string, k: nat)
    requires EndsWith(p, s) && EndsWith(q, t) && k < |s| && k < |t| && s[|s| - 1 - k] != t[|t| - 1 - k]
    ensures p != q
  {
    assert p[|p| - |s|..][|s| - 1 - k] == p[|p| - 1 - k];
    assert q[|q| - |t|..][|t| - 1 - k] == q[|q| - 1 - k];
  }

  lemma SameExtension(f: string)
    requires EndsWith(f, ".art")
    ensures ReplaceFileExtension(f, "art") == f
  {
    var n := |f| - 4;
    assert f[n..] == ".art";
    assert f[n] == '.' && f[n + 1] == 'a' && f[n + 2] == 'r' && f[n + 3] == 't';
    var i := LastOf(f, "./");
    assert f[n] in "./";
    assert i == n;
    assert f[n + 1..] == "art";
    assert f[..n + 1] + f[n + 1..] == f;
  }

  lemma DalvikArtName(a: ArtifactsPath, cache: string)
    requires BuildArtifactsPath(a, cache).Ok? && !a.isPreReboot && a.isInDalvikCache && EndsWith(a.dexPath, ".art")
    ensures EndsWith(BuildArtifactsPath(a, cache).value.oat, ".art")
  {
    KeepsExtension(cache, a.dexPath, ".art");
  }

  /** The three names of an artifact set are distinct, except for a dex file in the dalvik-cache
      whose own name ends in ".art": then the oat file and the art file have the same name. */
  lemma NamesDistinctExactly(a: ArtifactsPath, cache: string)
    requires BuildArtifactsPath(a, cache).Ok? && !a.isPreReboot
    ensures var r := BuildArtifactsPath(a, cache).value;
      r.vdex != r.oat && r.vdex != r.art && (r.oat == r.art <==> a.isInDalvikCache && EndsWith(a.dexPath, ".art"))
  {
    hide BuildArtifactsPath, ReplaceFileExtension, EndsWith;
    var r := BuildArtifactsPath(a, cache).value;
    OatNameEnds(a, cache);
    ExtensionNames(a, cache);
    DifferentEnds(r.vdex, r.art, ".vdex", ".art", 0);
    if EndsWith(r.oat, ".odex") {
      DifferentEnds(r.vdex, r.oat, ".vdex", ".odex", 3);
      DifferentEnds(r.oat, r.art, ".odex", ".art", 0);
    } else if EndsWith(r.oat, ".dex") {
      DifferentEnds(r.vdex, r.oat, ".vdex", ".dex", 3);
      DifferentEnds(r.oat, r.art, ".dex", ".art", 0);
    } else if EndsWith(r.oat, ".oat") {
      DifferentEnds(r.vdex, r.oat, ".vdex", ".oat", 0);
      DifferentEnds(r.oat, r.art, ".oat", ".art", 1);
    } else {
      DifferentEnds(r.vdex, r.oat, ".vdex", ".art", 0);
      SameExtension(r.oat);
    }
    if a.isInDalvikCache && EndsWith(a.dexPath, ".art") {
      DalvikArtName(a, cache);
      SameExtension(r.oat);
    }
  }

  /** A dex file "/a.art" in the dalvik-cache. */
  lemma OatAndArtCoincide(cache: string)
    ensures var a := ArtifactsPath("/a.art", "arm64", true, false);
      BuildArtifactsPath(a, cache).Ok? && BuildArtifactsPath(a, cache).value.oat == BuildArtifactsPath(a, cache).value.art
  {
    hide ReplaceFileExtension, ReplaceSlashes;
    var a := ArtifactsPath("/a.art", "arm64", true, false);
    assert "arm64" == ["arm", "arm64", "riscv64", "x86", "x86_64"][1];
    assert BuildArtifactsPath(a, cache).Ok?;
    NamesDistinctExactly(a, cache);
  }

  // ---- The names in full ----

  /** A last path element with its extension, which is empty or starts at the last dot. */
  predicate IsFileName(stem: string, ext: string) {
    && '/' !in stem && '/' !in ext
    && if ext == "" then '.' !in stem else ext[0] == '.' && '.' !in ext[1..]
  }

  lemma LastOfConcat(a: string, c: char, b: string, cs: string)
    requires c in cs && forall x <- b :: x !in cs
    ensures LastOf(a + [c] + b, cs) == |a|
  {
    hide LastOf;
    var s := a + [c] + b;
    assert s[|a|] == c;
    forall j | |a| < j < |s| ensures s[j] !in cs { assert s[j] == b[j - |a| - 1]; }
  }

  lemma LastOfNone(a: string, cs: string)
    requires forall x <- a :: x !in cs
    ensures LastOf(a, cs) == -1
  {
    hide LastOf;
    assert forall i :: 0 <= i < |a| ==> a[i] in a;
  }

  /** Replacing the extension of a name that ends in a dot and something without dot or slash. */
  lemma ExtensionReplaced(stem: string, old_: string, ext: string)
    requires '.' !in old_ && '/' !in old_
    ensures ReplaceFileExtension(stem + "." + old_, ext) == stem + "." + ext
  {
    hide LastOf;
    LastOfConcat(stem, '.', old_, "./");
    var f := stem + "." + old_;
    assert f == stem + ['.'] + old_;
    assert f[..|stem| + 1] == stem + ".";
  }

  lemma OdexName(dir: string, stem: string, ext: string, isa: string)
    requires IsFileName(stem, ext)
    ensures DexLocationToOdexFilename(dir + "/" + stem + ext, isa) == Ok(dir + "/oat/" + isa + "/" + stem + ".odex")
  {
    hide LastOf;
    var location, file := dir + "/" + stem + ext, stem + ext;
    assert location == dir + ['/'] + file;
    LastOfConcat(dir, '/', file, "/");
    assert location[|dir| + 1..] == file && location[..|dir| + 1] == dir + "/";
    if ext == "" {
      assert file == stem;
      LastOfNone(file, ".");
    } else {
      assert file == stem + [ext[0]] + ext[1..];
      LastOfConcat(stem, '.', ext[1..], ".");
      assert file[..|stem|] == stem;
    }
    assert dir + "/" + "oat" + "/" + isa + "/" + stem + ".odex" == dir + "/oat/" + isa + "/" + stem + ".odex";
  }

  /** Beside the dex file: "dir/stem.ext" has its artifacts in "dir/oat/isa/", all with the stem of
      the dex file. */
  lemma NamesBesideDexFile(dir: string, stem: string, ext: string, isa: string, cache: string)
    requires IsFileName(stem, ext) && (dir == "" || dir[0] == '/') && isa in ["arm", "arm64", "riscv64", "x86", "x86_64"]
    ensures var base := dir + "/oat/" + isa + "/" + stem;
      BuildArtifactsPath(ArtifactsPath(dir + "/" + stem + ext, isa, false, false), cache) ==
        Ok(RawArtifactsPath(base + ".odex", base + ".vdex", base + ".art"))
  {
    hide LastOf, ReplaceFileExtension, DexLocationToOdexFilename, IsFileName, DalvikCacheFilename;
    var base := dir + "/oat/" + isa + "/" + stem;
    OdexName(dir, stem, ext, isa);
    assert (dir + "/" + stem + ext)[0] == '/';
    assert base + ".odex" == base + "." + "odex" && base + ".vdex" == base + "." + "vdex" && base + ".art" == base + "." + "art";
    ExtensionReplaced(base, "odex", "vdex");
    ExtensionReplaced(base, "odex", "art");
  }

  /** In the dalvik-cache: slashes of the location become '@', and "@classes.dex" is added unless the
      location ends in ".dex", ".art" or ".oat". */
  lemma NameInDalvikCache(rest: string, isa: string, cache: string)
    requires isa in ["arm", "arm64", "riscv64", "x86", "x86_64"]
    ensures var a, l := ArtifactsPath("/" + rest, isa, true, false), "/" + rest;
      && BuildArtifactsPath(a, cache).Ok?
      && BuildArtifactsPath(a, cache).value.oat ==
           cache + "/" + ReplaceSlashes(rest) +
           if |l| >= 4 && (l[|l| - 4..] == ".dex" || l[|l| - 4..] == ".art" || l[|l| - 4..] == ".oat") then "" else "@classes.dex"
  {
    hide ReplaceFileExtension;
    var l := "/" + rest;
    assert l[1..] == rest && l[..1] == "/";
    var name := cache + "/" + ReplaceSlashes(rest);
    assert name + "" == name && name + "@" + "classes.dex" == name + "@classes.dex";
  }

  lemma DalvikCacheExample(cache: string)
    ensures BuildArtifactsPath(ArtifactsPath("/a/b.apk", "arm64", true, false), cache).Ok?
    ensures BuildArtifactsPath(ArtifactsPath("/a/b.apk", "arm64", true, false), cache).value.oat == cache + "/a@b.apk@classes.dex"
  {
    hide ReplaceFileExtension, BuildArtifactsPath;
    var rest := "a/b.apk";
    assert "/" + rest == "/a/b.apk" && ReplaceSlashes(rest) == "a@b.apk";
    assert "arm64" == ["arm", "arm64", "riscv64", "x86", "x86_64"][1];
    NameInDalvikCache(rest, "arm64", cache);
    assert cache + "/" + "a@b.apk" + "@classes.dex" == cache + "/a@b.apk@classes.dex";
  }

  /** Names can be built exactly for an absolute dex path and one of the five instruction sets. */
  lemma BuiltExactly(a: ArtifactsPath, cache: string)
    ensures BuildArtifactsPath(a, cache).Ok? <==>
      |a.dexPath| > 0 && a.dexPath[0] == '/' && a.isa in ["arm", "arm64", "riscv64", "x86", "x86_64"]
  {
    hide ReplaceFileExtension, ReplaceSlashes;
    if |a.dexPath| > 0 && a.dexPath[0] == '/' {
      assert LastOf(a.dexPath, "/") >= 0;
    }
  }

  /** Two texts that agree up to a slash and have no slash before, or after, it. */
  lemma SplitAtSlash(a: string, b: string, a': string, b': string)
    requires a + "/" + b == a' + "/" + b' && (('/' !in b && '/' !in b') || ('/' !in a && '/' !in a'))
    ensures a == a' && b == b'
  {
    var s := a + "/" + b;
    assert s[|a|] == '/' && s[|a'|] == '/';
    assert forall k :: 0 <= k < |a| ==> s[k] == a[k];
    assert forall k :: 0 <= k < |a'| ==> s[k] == a'[k];
    assert forall k :: |a| < k < |s| ==> s[k] == b[k - |a| - 1];
    assert forall k :: |a'| < k < |s| ==> s[k] == b'[k - |a'| - 1];
    assert |a| == |a'|;
    assert s[..|a|] == a && s[..|a'|] == a';
    assert s[|a| + 1..] == b && s[|a'| + 1..] == b';
  }

  lemma SameTail(a: string, b: string, t: string)
    requires a + t == b + t
    ensures a == b
  {
    assert (a + t)[..|a + t| - |t|] == a && (b + t)[..|b + t| - |t|] == b;
  }

  /** Artifacts beside the dex file have the same oat name only if they are for the same instruction
      set, directory and stem. */
  lemma OdexNamesDiffer(dir: string, isa: string, stem: string, dir': string, isa': string, stem': string)
    requires '/' !in isa && '/' !in isa' && '/' !in stem && '/' !in stem'
    requires dir + "/oat/" + isa + "/" + stem + ".odex" == dir' + "/oat/" + isa' + "/" + stem' + ".odex"
    ensures dir == dir' && isa == isa' && stem == stem'
  {
    SameTail(dir + "/oat/" + isa + "/" + stem, dir' + "/oat/" + isa' + "/" + stem', ".odex");
    SplitAtSlash(dir + "/oat/" + isa, stem, dir' + "/oat/" + isa', stem');
    assert dir + "/oat/" + isa == dir + "/oat" + "/" + isa && dir' + "/oat/" + isa' == dir' + "/oat" + "/" + isa';
    SplitAtSlash(dir + "/oat", isa, dir' + "/oat", isa');
    SameTail(dir, dir', "/oat");
  }
}
