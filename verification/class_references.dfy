/** Which classes a boot image extension or an app image may refer to. The rule looks only at the
    element class, its superclasses and its interface table; it is shown to decide a property of
    everything the class refers to, directly or not. */
module ClassReferences {
  import opened Wrappers

  type ClassId = nat

  /** `dexInBoot` says whether the dex cache is in the boot image, `dexFile` is its dex file;
      `interfaces` is the interface table, with direct and indirect interfaces. */
  datatype Class = Class(
    inBoot: bool,
    primitive: bool,
    erroneous: bool,
    component: Option<ClassId>,
    superclass: Option<ClassId>,
    interfaces: seq<ClassId>,
    dexInBoot: bool,
    dexFile: nat)

  /** `appDexFiles` is None unless an app image is compiled. */
  datatype World = World(classes: map<ClassId, Class>, appDexFiles: Option<set<nat>>)

  predicate IsArray(w: World, c: ClassId)
    requires c in w.classes
  {
    w.classes[c].component.Some?
  }

  predicate InBoot(w: World, c: ClassId)
    requires c in w.classes
  {
    w.classes[c].inBoot
  }

  /** `c` names `d` as its superclass, in its interface table or as its component type. */
  predicate Names(w: World, c: ClassId, d: ClassId)
    requires c in w.classes
  {
    w.classes[c].superclass == Some(d) || d in w.classes[c].interfaces || w.classes[c].component == Some(d)
  }

  /** Superclasses and components exist before the classes that name them. */
  predicate Ordered(w: World, c: ClassId)
    requires c in w.classes
  {
    var k := w.classes[c];
    && (k.superclass.Some? ==> k.superclass.value in w.classes && k.superclass.value < c)
    && (k.component.Some? ==> k.component.value in w.classes && k.component.value < c)
    && forall i <- k.interfaces :: i in w.classes
  }

  /** The boot image is closed, and has what arrays name besides their component. */
  predicate BootClosed(w: World, c: ClassId)
    requires c in w.classes && Ordered(w, c)
  {
    var k := w.classes[c];
    && (k.inBoot || IsArray(w, c) ==> (k.superclass.Some? ==> InBoot(w, k.superclass.value)) && forall i <- k.interfaces :: InBoot(w, i))
    && (k.inBoot && IsArray(w, c) ==> InBoot(w, k.component.value))
    && (k.inBoot && !IsArray(w, c) && !k.primitive ==> k.dexInBoot)
    && (k.primitive ==> k.inBoot && !IsArray(w, c))
  }

  predicate IsInterface(w: World, i: ClassId)
    requires i in w.classes
  {
    var k := w.classes[i];
    !IsArray(w, i) && (k.superclass.Some? ==> k.superclass.value in w.classes && InBoot(w, k.superclass.value))
  }

  ghost predicate IfTableIncludes(w: World, c: ClassId, d: ClassId)
    requires c in w.classes && d in w.classes
  {
    forall i <- w.classes[d].interfaces :: i in w.classes[c].interfaces
  }

  /** A class outside the boot image has a superclass that is no array, and its interface table
      includes those of its superclass and of its interfaces; interfaces extend a boot class. */
  ghost predicate TableComplete(w: World, c: ClassId)
    requires c in w.classes && Ordered(w, c)
  {
    var k := w.classes[c];
    !k.inBoot && !IsArray(w, c) ==>
      && k.superclass.Some? && !IsArray(w, k.superclass.value) && IfTableIncludes(w, c, k.superclass.value)
      && forall i <- k.interfaces :: IsInterface(w, i) && IfTableIncludes(w, c, i)
  }

  ghost predicate WellFormed(w: World) {
    forall c <- w.classes :: Ordered(w, c) && BootClosed(w, c) && TableComplete(w, c)
  }

  predicate AllowedDex(w: World, c: ClassId)
    requires c in w.classes
  {
    !w.classes[c].dexInBoot && (w.appDexFiles.Some? ==> w.classes[c].dexFile in w.appDexFiles.value)
  }

  // ---- The rule ----

  /** The class under all array dimensions. */
  ghost function Element(w: World, c: ClassId): (e: ClassId)
    requires WellFormed(w) && c in w.classes
    ensures e in w.classes && !IsArray(w, e) && e <= c && (e == c <==> !IsArray(w, c))
    decreases c
  {
    if !IsArray(w, c) then c else assert Ordered(w, c); Element(w, w.classes[c].component.value)
  }

  /** Superclasses from `c` up to the boot image. */
  ghost predicate SupersAllowed(w: World, c: ClassId)
    requires WellFormed(w) && c in w.classes && !IsArray(w, c)
    decreases c
  {
    InBoot(w, c) || (AllowedDex(w, c) && (assert TableComplete(w, c); SupersAllowed(w, w.classes[c].superclass.value)))
  }

  ghost predicate InterfacesAllowed(w: World, c: ClassId)
    requires WellFormed(w) && c in w.classes
  {
    forall i <- w.classes[c].interfaces :: i in w.classes && (InBoot(w, i) || AllowedDex(w, i))
  }

  ghost predicate Accepted(w: World, c: ClassId)
    requires WellFormed(w) && c in w.classes
  {
    InBoot(w, c) ||
    var e := Element(w, c);
    && !InBoot(w, e) && (IsArray(w, c) ==> !w.classes[e].erroneous)
    && SupersAllowed(w, e) && InterfacesAllowed(w, e)
  }

  lemma ClassFacts(w: World, c: ClassId)
    requires WellFormed(w) && c in w.classes
    ensures Ordered(w, c) && BootClosed(w, c)
    ensures w.classes[c].primitive ==> InBoot(w, c)
    ensures !InBoot(w, c) && !IsArray(w, c) ==>
      w.classes[c].superclass.Some? && w.classes[c].superclass.value in w.classes && !IsArray(w, w.classes[c].superclass.value)
  {
    assert TableComplete(w, c);
  }

  method CheckSuperclasses(w: World, c: ClassId) returns (ok: bool)
    requires WellFormed(w) && c in w.classes && !IsArray(w, c)
    ensures ok <==> SupersAllowed(w, c)
  {
    hide WellFormed, BootClosed, AllowedDex;
    var superclass := c;
    while !InBoot(w, superclass)
      invariant superclass in w.classes && !IsArray(w, superclass)
      invariant SupersAllowed(w, c) <==> SupersAllowed(w, superclass)
      decreases superclass
    {
      ClassFacts(w, superclass);
      if !AllowedDex(w, superclass) {
        return false;
      }
      superclass := w.classes[superclass].superclass.value;
    }
    return true;
  }

  /** Checking the dex cache first and the superclasses next: a boot class has a boot dex cache. */
  lemma FirstIsChecked(w: World, c: ClassId)
    requires WellFormed(w) && c in w.classes && !IsArray(w, c) && !w.classes[c].primitive
    ensures AllowedDex(w, c) ==> !InBoot(w, c) && w.classes[c].superclass.Some? && w.classes[c].superclass.value in w.classes
    ensures AllowedDex(w, c) ==> !IsArray(w, w.classes[c].superclass.value) && (SupersAllowed(w, c) <==> SupersAllowed(w, w.classes[c].superclass.value))
    ensures !AllowedDex(w, c) ==> InBoot(w, c) || !SupersAllowed(w, c)
  {
    ClassFacts(w, c);
  }

  method CanReferenceInBootImageExtensionOrAppImage(w: World, klass: ClassId) returns (ok: bool)
    requires WellFormed(w) && klass in w.classes
    ensures ok <==> Accepted(w, klass)
  {
    hide WellFormed, SupersAllowed;
    if InBoot(w, klass) {
      return true;
    }
    var c := klass;
    ClassFacts(w, klass);
    if IsArray(w, klass) {
      while IsArray(w, c)
        invariant c in w.classes && Element(w, c) == Element(w, klass)
        decreases c
      {
        ClassFacts(w, c);
        c := w.classes[c].component.value;
      }
      ClassFacts(w, c);
      if w.classes[c].primitive {
        return false;
      }
      if w.classes[c].erroneous {
        return false;
      }
    }
    if !AllowedDex(w, c) {
      FirstIsChecked(w, c);
      return false;
    }
    FirstIsChecked(w, c);
    var supersOk := CheckSuperclasses(w, w.classes[c].superclass.value);
    if !supersOk {
      return false;
    }
    for i := 0 to |w.classes[c].interfaces|
      invariant forall j :: 0 <= j < i ==> InBoot(w, w.classes[c].interfaces[j]) || AllowedDex(w, w.classes[c].interfaces[j])
    {
      if !InBoot(w, w.classes[c].interfaces[i]) && !AllowedDex(w, w.classes[c].interfaces[i]) {
        return false;
      }
    }
    return true;
  }

  // ---- Everything a class refers to ----

  /** Each class of `path` names the next one. */
  ghost predicate IsPath(w: World, path: seq<ClassId>) {
    && |path| > 0 && (forall k :: 0 <= k < |path| ==> path[k] in w.classes)
    && forall k :: 0 < k < |path| ==> Names(w, path[k - 1], path[k])
  }

  ghost predicate Refers(w: World, c: ClassId, d: ClassId) {
    exists path :: IsPath(w, path) && path[0] == c && path[|path| - 1] == d
  }

  ghost predicate Harmless(w: World, d: ClassId)
    requires d in w.classes
  {
    InBoot(w, d) || IsArray(w, d) || AllowedDex(w, d)
  }

  lemma RefersSelf(w: World, c: ClassId)
    requires c in w.classes
    ensures Refers(w, c, c)
  {
    assert IsPath(w, [c]);
  }

  lemma NamedExists(w: World, c: ClassId, d: ClassId)
    requires WellFormed(w) && c in w.classes && Names(w, c, d)
    ensures d in w.classes
  {
    assert Ordered(w, c);
  }

  lemma RefersNext(w: World, c: ClassId, d: ClassId, e: ClassId)
    requires WellFormed(w) && c in w.classes && Refers(w, c, d) && d in w.classes && Names(w, d, e)
    ensures Refers(w, c, e)
  {
    hide WellFormed, Names;
    NamedExists(w, d, e);
    var path :| IsPath(w, path) && path[0] == c && path[|path| - 1] == d;
    assert IsPath(w, path + [e]);
  }

  lemma BootNamesBoot(w: World, c: ClassId, d: ClassId)
    requires WellFormed(w) && c in w.classes && Names(w, c, d)
    ensures d in w.classes && (InBoot(w, c) || (IsArray(w, c) && w.classes[c].component != Some(d)) ==> InBoot(w, d))
  {
    assert Ordered(w, c) && BootClosed(w, c);
  }

  lemma PlainClosed(w: World, c: ClassId, d: ClassId)
    requires WellFormed(w) && c in w.classes && d in w.classes && !InBoot(w, c) && !IsArray(w, c) && Accepted(w, c)
    requires Names(w, c, d) && !InBoot(w, d)
    ensures Accepted(w, d)
  {
    assert TableComplete(w, c) && IfTableIncludes(w, c, d) && !IsArray(w, d);
    assert InterfacesAllowed(w, d);
    assert w.classes[c].superclass == Some(d) ==> SupersAllowed(w, d);
    assert TableComplete(w, d);
  }

  /** What an accepted class names is accepted. */
  lemma AcceptedClosed(w: World, c: ClassId, d: ClassId)
    requires WellFormed(w) && c in w.classes && Accepted(w, c) && Names(w, c, d)
    ensures d in w.classes && Accepted(w, d)
  {
    hide WellFormed, SupersAllowed, InterfacesAllowed;
    BootNamesBoot(w, c, d);
    if !InBoot(w, d) && !IsArray(w, c) {
      PlainClosed(w, c, d);
    }
  }

  lemma {:induction false} AcceptedClosure(w: World, path: seq<ClassId>)
    requires WellFormed(w) && IsPath(w, path) && Accepted(w, path[0])
    ensures Accepted(w, path[|path| - 1])
    decreases |path|
  {
    hide Accepted, WellFormed;
    if |path| > 1 {
      AcceptedClosed(w, path[0], path[1]);
      AcceptedClosure(w, path[1..]);
    }
  }

  lemma ElementIsReferred(w: World, c: ClassId, d: ClassId)
    requires WellFormed(w) && c in w.classes && d in w.classes && Refers(w, c, d)
    ensures Refers(w, c, Element(w, d))
    decreases d
  {
    hide Refers;
    assert Ordered(w, d);
    if IsArray(w, d) {
      var e := w.classes[d].component.value;
      RefersNext(w, c, d, e);
      ElementIsReferred(w, c, e);
    }
  }

  ghost predicate AllHarmless(w: World, c: ClassId) {
    forall d :: d in w.classes && Refers(w, c, d) ==> Harmless(w, d)
  }

  lemma HarmlessSupers(w: World, c: ClassId, d: ClassId)
    requires WellFormed(w) && c in w.classes && d in w.classes && !IsArray(w, d) && Refers(w, c, d)
    requires AllHarmless(w, c)
    ensures SupersAllowed(w, d)
    decreases d
  {
    hide Refers;
    assert Harmless(w, d) && TableComplete(w, d);
    if !InBoot(w, d) {
      var s := w.classes[d].superclass.value;
      RefersNext(w, c, d, s);
      HarmlessSupers(w, c, s);
    }
  }

  lemma HarmlessInterfaces(w: World, c: ClassId, e: ClassId)
    requires WellFormed(w) && c in w.classes && e in w.classes && Refers(w, c, e) && AllHarmless(w, c)
    requires !InBoot(w, e) && !IsArray(w, e)
    ensures InterfacesAllowed(w, e)
  {
    hide Refers;
    assert Ordered(w, e) && TableComplete(w, e);
    forall i <- w.classes[e].interfaces ensures i in w.classes && (InBoot(w, i) || AllowedDex(w, i)) {
      RefersNext(w, c, e, i);
      assert IsInterface(w, i);
      assert Harmless(w, i);
    }
  }

  ghost predicate ElementFits(w: World, c: ClassId)
    requires WellFormed(w) && c in w.classes
  {
    !InBoot(w, Element(w, c)) && (IsArray(w, c) ==> !w.classes[Element(w, c)].erroneous)
  }

  /** Whatever an accepted class refers to is accepted, and has a dex file outside the boot image
      that is one of the app image's, if one is compiled, unless it is in the boot image or an array. */
  lemma AcceptedIsHarmless(w: World, c: ClassId, d: ClassId)
    requires WellFormed(w) && c in w.classes && d in w.classes && Accepted(w, c) && Refers(w, c, d)
    ensures Accepted(w, d) && Harmless(w, d)
    ensures var k := w.classes[d];
      k.inBoot || k.component.Some? || (!k.dexInBoot && (w.appDexFiles.Some? ==> k.dexFile in w.appDexFiles.value))
  {
    var path :| IsPath(w, path) && path[0] == c && path[|path| - 1] == d;
    AcceptedClosure(w, path);
  }

  /** The rule accepts a class outside the boot image exactly when everything the class refers
      to is in the boot image, an array, or of a dex file that the image covers, and its element
      class can be part of the image. */
  lemma AcceptedExactly(w: World, c: ClassId)
    requires WellFormed(w) && c in w.classes
    ensures Accepted(w, c) <==> InBoot(w, c) || (AllHarmless(w, c) && ElementFits(w, c))
    ensures Accepted(w, c) <==>
      w.classes[c].inBoot ||
      (ElementFits(w, c) && forall d :: d in w.classes && Refers(w, c, d) ==>
         w.classes[d].inBoot || w.classes[d].component.Some? ||
         (!w.classes[d].dexInBoot && (w.appDexFiles.Some? ==> w.classes[d].dexFile in w.appDexFiles.value)))
  {
    hide WellFormed, Refers, SupersAllowed, InterfacesAllowed;
    if Accepted(w, c) {
      forall d | d in w.classes && Refers(w, c, d) ensures Harmless(w, d) {
        AcceptedIsHarmless(w, c, d);
      }
    }
    if AllHarmless(w, c) && ElementFits(w, c) {
      RefersSelf(w, c);
      ElementIsReferred(w, c, c);
      HarmlessSupers(w, c, Element(w, c));
      HarmlessInterfaces(w, c, Element(w, c));
    }
  }

  // ---- The rule class by class ----

  lemma PlainByFields(w: World, c: ClassId)
    requires WellFormed(w) && c in w.classes && !w.classes[c].inBoot && w.classes[c].component.None?
    ensures var k := w.classes[c];
      && k.superclass.Some? && k.superclass.value in w.classes
      && (Accepted(w, c) <==>
            && !k.dexInBoot && (w.appDexFiles.Some? ==> k.dexFile in w.appDexFiles.value)
            && Accepted(w, k.superclass.value)
            && forall i <- k.interfaces :: i in w.classes &&
                 (w.classes[i].inBoot || (!w.classes[i].dexInBoot && (w.appDexFiles.Some? ==> w.classes[i].dexFile in w.appDexFiles.value))))
  {
    var s := w.classes[c].superclass;
    assert Ordered(w, c) && TableComplete(w, c);
    assert Names(w, c, s.value) && Element(w, c) == c && Element(w, s.value) == s.value;
    if Accepted(w, c) {
      AcceptedClosed(w, c, s.value);
    }
    assert Accepted(w, s.value) ==> SupersAllowed(w, s.value);
    assert SupersAllowed(w, c) <==> AllowedDex(w, c) && SupersAllowed(w, s.value);
    assert Accepted(w, c) <==> SupersAllowed(w, c) && InterfacesAllowed(w, c);
  }

  lemma {:induction false} BootElement(w: World, c: ClassId)
    requires WellFormed(w) && c in w.classes && InBoot(w, c)
    ensures InBoot(w, Element(w, c))
    decreases c
  {
    assert Ordered(w, c) && BootClosed(w, c);
    if IsArray(w, c) {
      BootElement(w, w.classes[c].component.value);
    }
  }

  /** The rule over the fields of the classes only: a boot class is accepted; an array is accepted if
      its component is outside the boot image, accepted, and not erroneous if it is no array itself;
      any other class is accepted if its own dex file is covered, its superclass is accepted and its
      interfaces are in the boot image or of covered dex files. */
  lemma AcceptedByFields(w: World, c: ClassId)
    requires WellFormed(w) && c in w.classes
    ensures w.classes[c].inBoot ==> Accepted(w, c)
    ensures !w.classes[c].inBoot && w.classes[c].component.Some? ==> w.classes[c].component.value in w.classes
    ensures !w.classes[c].inBoot && w.classes[c].component.Some? ==>
      var d := w.classes[c].component.value;
      (Accepted(w, c) <==> !w.classes[d].inBoot && Accepted(w, d) && (w.classes[d].component.None? ==> !w.classes[d].erroneous))
    ensures !w.classes[c].inBoot && w.classes[c].component.None? ==>
      var k := w.classes[c];
      && k.superclass.Some? && k.superclass.value in w.classes
      && (Accepted(w, c) <==>
            && !k.dexInBoot && (w.appDexFiles.Some? ==> k.dexFile in w.appDexFiles.value)
            && Accepted(w, k.superclass.value)
            && forall i <- k.interfaces :: i in w.classes &&
                 (w.classes[i].inBoot || (!w.classes[i].dexInBoot && (w.appDexFiles.Some? ==> w.classes[i].dexFile in w.appDexFiles.value))))
  {
    if !w.classes[c].inBoot {
      if w.classes[c].component.None? {
        PlainByFields(w, c);
      } else {
        assert Ordered(w, c);
        if InBoot(w, w.classes[c].component.value) {
          BootElement(w, w.classes[c].component.value);
        }
      }
    }
  }

  /** An app image of dex file 1: the class 2 of dex file `dexFile`, whose superclass 1 is in the boot
      image. */
  function OneClass(dexFile: nat): World {
    World(map[1 := Class(true, false, false, None, None, [], true, 0), 2 := Class(false, false, false, None, Some(1), [], false, dexFile)], Some({1}))
  }

  /** A class from the dex file of a library is refused, one from the app's own is accepted. */
  lemma LibraryClassIsRefused(dexFile: nat)
    ensures WellFormed(OneClass(dexFile)) && 2 in OneClass(dexFile).classes
    ensures Accepted(OneClass(dexFile), 2) <==> dexFile == 1
  {
    var w := OneClass(dexFile);
    assert forall c <- w.classes :: c == 1 || c == 2;
    AcceptedByFields(w, 2);
    AcceptedByFields(w, 1);
  }
}
