/**
 * `LibraryProfiler.getChaStats`: one pass over the classes of a class
 * hierarchy that tallies the application classes (all, inner, public, and per
 * `AndroidClassType`), skips bridge and synthetic methods, collects the
 * signatures of public methods into a sorted set without duplicates and counts
 * the remaining methods.
 *
 * The class-hierarchy objects are plain records whose fields hold the answers
 * of the predicates the source asks of them (`isAppClass`, `classifyClazz`,
 * `isInnerClass`, `isPublic`, `isBridge`, `isMethodSynthetic`,
 * `getSignature`). `AndroidClassType` is the type parameter `K`; the sequence
 * `kinds` stands for `AndroidClassType.values()`.
 */
module ChaStats {
  import opened SortedStrings

  datatype MethodInfo = MethodInfo(sig: string, isBridge: bool, isSynthetic: bool, isPublic: bool)

  datatype ClassInfo<K> = ClassInfo(isApp: bool, kind: K, isInner: bool, isPublic: bool, methods: seq<MethodInfo>)

  /** A method that is neither a bridge nor synthetic; only these are tallied. */
  predicate Tallied(m: MethodInfo)
  {
    !m.isBridge && !m.isSynthetic
  }

  // ---------------------------------------------------------------------
  // Reference definitions. Each walks its sequence from the end, so that the
  // value for a prefix `s[..i+1]` unfolds to the value for `s[..i]`.
  // ---------------------------------------------------------------------

  /** The application classes, in hierarchy order. */
  function AppClasses<K>(cs: seq<ClassInfo<K>>): seq<ClassInfo<K>>
  {
    if cs == [] then []
    else
      var last := cs[|cs| - 1];
      AppClasses(cs[..|cs| - 1]) + if last.isApp then [last] else []
  }

  function CountInner<K>(cs: seq<ClassInfo<K>>): nat
  {
    if cs == [] then 0
    else CountInner(cs[..|cs| - 1]) + if cs[|cs| - 1].isInner then 1 else 0
  }

  function CountPublicClasses<K>(cs: seq<ClassInfo<K>>): nat
  {
    if cs == [] then 0
    else CountPublicClasses(cs[..|cs| - 1]) + if cs[|cs| - 1].isPublic then 1 else 0
  }

  function CountKind<K(==)>(cs: seq<ClassInfo<K>>, k: K): nat
  {
    if cs == [] then 0
    else CountKind(cs[..|cs| - 1], k) + if cs[|cs| - 1].kind == k then 1 else 0
  }

  /** The tallied methods of a method list, in declaration order. */
  function TalliedMethods(ms: seq<MethodInfo>): seq<MethodInfo>
  {
    if ms == [] then []
    else
      var last := ms[|ms| - 1];
      TalliedMethods(ms[..|ms| - 1]) + if Tallied(last) then [last] else []
  }

  /** The tallied methods of every class of `cs`, class after class. */
  function DeclaredTallied<K>(cs: seq<ClassInfo<K>>): seq<MethodInfo>
  {
    if cs == [] then []
    else DeclaredTallied(cs[..|cs| - 1]) + TalliedMethods(cs[|cs| - 1].methods)
  }

  function PublicSigs(ms: seq<MethodInfo>): set<string>
  {
    if ms == [] then {}
    else
      var last := ms[|ms| - 1];
      PublicSigs(ms[..|ms| - 1]) + if last.isPublic then {last.sig} else {}
  }

  function CountNonPublic(ms: seq<MethodInfo>): nat
  {
    if ms == [] then 0
    else CountNonPublic(ms[..|ms| - 1]) + if ms[|ms| - 1].isPublic then 0 else 1
  }

  // What getChaStats reports about a sequence of classes.

  function ClassCount<K>(cs: seq<ClassInfo<K>>): nat { |AppClasses(cs)| }

  function InnerClassCount<K>(cs: seq<ClassInfo<K>>): nat { CountInner(AppClasses(cs)) }

  function PublicClassCount<K>(cs: seq<ClassInfo<K>>): nat { CountPublicClasses(AppClasses(cs)) }

  function KindCount<K(==)>(cs: seq<ClassInfo<K>>, k: K): nat { CountKind(AppClasses(cs), k) }

  /** The `clazzTypes` histogram: one entry per value of the enumeration. */
  function Histogram<K(==)>(cs: seq<ClassInfo<K>>, kinds: seq<K>): map<K, nat>
  {
    map k | k in kinds :: KindCount(cs, k)
  }

  /** The non-bridge, non-synthetic methods of application classes. */
  function AppMethods<K>(cs: seq<ClassInfo<K>>): seq<MethodInfo> { DeclaredTallied(AppClasses(cs)) }

  function PublicSignatures<K>(cs: seq<ClassInfo<K>>): set<string> { PublicSigs(AppMethods(cs)) }

  function MiscMethodCount<K>(cs: seq<ClassInfo<K>>): nat { CountNonPublic(AppMethods(cs)) }

  /** Everything the pass reports; `publicMethods` as the set it is. */
  datatype Tally<K> = Tally(clCount: nat, innerClCount: nat, publicClCount: nat,
                            clazzTypes: map<K, nat>, publicMethods: set<string>, miscMethodCount: nat)

  function TallyOf<K>(cs: seq<ClassInfo<K>>, kinds: seq<K>): Tally<K>
  {
    Tally(ClassCount(cs), InnerClassCount(cs), PublicClassCount(cs),
          Histogram(cs, kinds), PublicSignatures(cs), MiscMethodCount(cs))
  }

  // ---------------------------------------------------------------------
  // The tally itself.
  // ---------------------------------------------------------------------

  /**
   * Returns the public-method set (as the sorted sequence a TreeSet iterates
   * in) together with the figures the source logs.
   */
  method GetChaStats<K(==,!new)>(classes: seq<ClassInfo<K>>, kinds: seq<K>)
    returns (publicMethods: seq<string>, clCount: nat, innerClCount: nat, publicClCount: nat,
             clazzTypes: map<K, nat>, miscMethodCount: nat)
    requires forall c :: c in classes && c.isApp ==> c.kind in kinds
    ensures StrictlySorted(publicMethods)
    ensures Elements(publicMethods) == PublicSignatures(classes)
    ensures clCount == ClassCount(classes)
    ensures innerClCount == InnerClassCount(classes)
    ensures publicClCount == PublicClassCount(classes)
    ensures clazzTypes == Histogram(classes, kinds)
    ensures miscMethodCount == MiscMethodCount(classes)
  {
    publicMethods := [];
    clCount, innerClCount, publicClCount, miscMethodCount := 0, 0, 0, 0;
    clazzTypes := ZeroHistogram(kinds);

    var i := 0;
    while i < |classes|
      invariant 0 <= i <= |classes|
      invariant StrictlySorted(publicMethods)
      invariant TallyUpTo(classes, i, kinds)
             == Tally(clCount, innerClCount, publicClCount, clazzTypes, Elements(publicMethods), miscMethodCount)
    {
      var clazz := classes[i];
      ghost var t := TallyUpTo(classes, i, kinds);
      assert TallyUpTo(classes, i + 1, kinds) == AddClass(t, clazz);
      if clazz.isApp {
        var kind := clazz.kind;
        clazzTypes := clazzTypes[kind := clazzTypes[kind] + 1];
        clCount := clCount + 1;
        if clazz.isInner { innerClCount := innerClCount + 1; }
        if clazz.isPublic { publicClCount := publicClCount + 1; }
        publicMethods, miscMethodCount := TallyMethods(clazz.methods, publicMethods, miscMethodCount);
        assert AddClass(t, clazz).clazzTypes == clazzTypes;
        assert AddClass(t, clazz).publicMethods == Elements(publicMethods);
      }
      i := i + 1;
    }
    TallyUpToMeaning(classes, i, kinds);
    assert classes[..i] == classes;
  }

  /** Every value of the enumeration starts with a count of zero. */
  method ZeroHistogram<K(==)>(kinds: seq<K>) returns (clazzTypes: map<K, nat>)
    ensures forall k :: k in clazzTypes <==> k in kinds
    ensures forall k :: k in clazzTypes ==> clazzTypes[k] == 0
    ensures clazzTypes == Histogram([], kinds)
  {
    clazzTypes := map[];
    var t := 0;
    while t < |kinds|
      invariant 0 <= t <= |kinds|
      invariant forall k :: k in clazzTypes <==> k in kinds[..t]
      invariant forall k :: k in clazzTypes ==> clazzTypes[k] == 0
    {
      assert kinds[..t + 1] == kinds[..t] + [kinds[t]];
      clazzTypes := clazzTypes[kinds[t] := 0];
      t := t + 1;
    }
    assert kinds[..t] == kinds;
  }

  /**
   * The inner loop of the pass, over the declared methods of one application
   * class: bridge and synthetic methods are skipped, public signatures go
   * into the set, every other method is counted.
   */
  method TallyMethods(ms: seq<MethodInfo>, publicMethods0: seq<string>, miscMethodCount0: nat)
    returns (publicMethods: seq<string>, miscMethodCount: nat)
    requires StrictlySorted(publicMethods0)
    ensures StrictlySorted(publicMethods)
    ensures Elements(publicMethods) == Elements(publicMethods0) + PublicSigs(TalliedMethods(ms))
    ensures miscMethodCount == miscMethodCount0 + CountNonPublic(TalliedMethods(ms))
  {
    publicMethods, miscMethodCount := publicMethods0, miscMethodCount0;
    var j := 0;
    assert ms[..j] == [];
    while j < |ms|
      invariant 0 <= j <= |ms|
      invariant StrictlySorted(publicMethods)
      invariant Elements(publicMethods) == Elements(publicMethods0) + PublicSigs(TalliedMethods(ms[..j]))
      invariant miscMethodCount == miscMethodCount0 + CountNonPublic(TalliedMethods(ms[..j]))
    {
      var im := ms[j];
      MethodStep(ms, j);
      if im.isBridge || im.isSynthetic {
        // skipped: neither collected nor counted
      } else if im.isPublic {
        publicMethods := Insert(publicMethods, im.sig);
      } else {
        miscMethodCount := miscMethodCount + 1;
      }
      j := j + 1;
    }
    assert ms[..j] == ms;
  }

  // ---------------------------------------------------------------------
  // Structural lemmas about the reference definitions: what one more element
  // at the end does, and what concatenation does.
  // ---------------------------------------------------------------------

  lemma AppClassesSnoc<K>(cs: seq<ClassInfo<K>>, c: ClassInfo<K>)
    ensures AppClasses(cs + [c]) == AppClasses(cs) + if c.isApp then [c] else []
  {
    assert (cs + [c])[..|cs|] == cs;
  }

  lemma CountInnerSnoc<K>(cs: seq<ClassInfo<K>>, c: ClassInfo<K>)
    ensures CountInner(cs + [c]) == CountInner(cs) + if c.isInner then 1 else 0
  {
    assert (cs + [c])[..|cs|] == cs;
  }

  lemma CountPublicClassesSnoc<K>(cs: seq<ClassInfo<K>>, c: ClassInfo<K>)
    ensures CountPublicClasses(cs + [c]) == CountPublicClasses(cs) + if c.isPublic then 1 else 0
  {
    assert (cs + [c])[..|cs|] == cs;
  }

  lemma CountKindSnoc<K>(cs: seq<ClassInfo<K>>, c: ClassInfo<K>, k: K)
    ensures CountKind(cs + [c], k) == CountKind(cs, k) + if c.kind == k then 1 else 0
  {
    assert (cs + [c])[..|cs|] == cs;
  }

  lemma DeclaredTalliedSnoc<K>(cs: seq<ClassInfo<K>>, c: ClassInfo<K>)
    ensures DeclaredTallied(cs + [c]) == DeclaredTallied(cs) + TalliedMethods(c.methods)
  {
    assert (cs + [c])[..|cs|] == cs;
  }

  lemma TalliedMethodsSnoc(ms: seq<MethodInfo>, m: MethodInfo)
    ensures TalliedMethods(ms + [m]) == TalliedMethods(ms) + if Tallied(m) then [m] else []
  {
    assert (ms + [m])[..|ms|] == ms;
  }

  lemma PublicSigsSnoc(ms: seq<MethodInfo>, m: MethodInfo)
    ensures PublicSigs(ms + [m]) == PublicSigs(ms) + if m.isPublic then {m.sig} else {}
  {
    assert (ms + [m])[..|ms|] == ms;
  }

  lemma CountNonPublicSnoc(ms: seq<MethodInfo>, m: MethodInfo)
    ensures CountNonPublic(ms + [m]) == CountNonPublic(ms) + if m.isPublic then 0 else 1
  {
    assert (ms + [m])[..|ms|] == ms;
  }

  lemma {:induction false} PublicSigsAppend(xs: seq<MethodInfo>, ys: seq<MethodInfo>)
    ensures PublicSigs(xs + ys) == PublicSigs(xs) + PublicSigs(ys)
    decreases |ys|
  {
    if ys == [] {
      assert xs + ys == xs;
    } else {
      var init, last := ys[..|ys| - 1], ys[|ys| - 1];
      assert ys == init + [last];
      assert xs + ys == (xs + init) + [last];
      PublicSigsAppend(xs, init);
      PublicSigsSnoc(xs + init, last);
      PublicSigsSnoc(init, last);
    }
  }

  lemma {:induction false} CountNonPublicAppend(xs: seq<MethodInfo>, ys: seq<MethodInfo>)
    ensures CountNonPublic(xs + ys) == CountNonPublic(xs) + CountNonPublic(ys)
    decreases |ys|
  {
    if ys == [] {
      assert xs + ys == xs;
    } else {
      var init, last := ys[..|ys| - 1], ys[|ys| - 1];
      assert ys == init + [last];
      assert xs + ys == (xs + init) + [last];
      CountNonPublicAppend(xs, init);
      CountNonPublicSnoc(xs + init, last);
      CountNonPublicSnoc(init, last);
    }
  }

  /** The histogram after one more application class of kind `c.kind`. */
  lemma HistogramSnoc<K>(cs: seq<ClassInfo<K>>, c: ClassInfo<K>, kinds: seq<K>)
    requires c.isApp && c.kind in kinds
    ensures var h := Histogram(cs, kinds);
      c.kind in h && Histogram(cs + [c], kinds) == h[c.kind := h[c.kind] + 1]
  {
    var h, h' := Histogram(cs, kinds), Histogram(cs + [c], kinds);
    AppClassesSnoc(cs, c);
    forall k | k in kinds
      ensures h'[k] == h[k] + if c.kind == k then 1 else 0
    {
      CountKindSnoc(AppClasses(cs), c, k);
    }
  }

  lemma HistogramNonApp<K>(cs: seq<ClassInfo<K>>, c: ClassInfo<K>, kinds: seq<K>)
    requires !c.isApp
    ensures Histogram(cs + [c], kinds) == Histogram(cs, kinds)
  {
    AppClassesSnoc(cs, c);
    assert AppClasses(cs + [c]) == AppClasses(cs);
  }

  /** The per-class update of the pass, on the reported figures. */
  function AddClass<K>(t: Tally<K>, c: ClassInfo<K>): Tally<K>
    requires c.isApp ==> c.kind in t.clazzTypes
  {
    if !c.isApp then t
    else
      var ms := TalliedMethods(c.methods);
      Tally(t.clCount + 1,
            t.innerClCount + (if c.isInner then 1 else 0),
            t.publicClCount + (if c.isPublic then 1 else 0),
            t.clazzTypes[c.kind := t.clazzTypes[c.kind] + 1],
            t.publicMethods + PublicSigs(ms),
            t.miscMethodCount + CountNonPublic(ms))
  }

  /** The figures after the first `n` classes, class by class as the pass computes them. */
  function TallyUpTo<K(!new)>(cs: seq<ClassInfo<K>>, n: nat, kinds: seq<K>): (t: Tally<K>)
    requires n <= |cs|
    requires forall j :: 0 <= j < n ==> cs[j].isApp ==> cs[j].kind in kinds
    ensures forall k :: k in t.clazzTypes <==> k in kinds
  {
    if n == 0 then Tally(0, 0, 0, Histogram([], kinds), {}, 0)
    else AddClass(TallyUpTo(cs, n - 1, kinds), cs[n - 1])
  }

  /** The class-by-class figures are the reference figures of the prefix. */
  lemma {:induction false} TallyUpToMeaning<K(!new)>(cs: seq<ClassInfo<K>>, n: nat, kinds: seq<K>)
    requires n <= |cs|
    requires forall j :: 0 <= j < n ==> cs[j].isApp ==> cs[j].kind in kinds
    ensures TallyUpTo(cs, n, kinds) == TallyOf(cs[..n], kinds)
  {
    if n == 0 {
      assert cs[..0] == [];
    } else {
      TallyUpToMeaning(cs, n - 1, kinds);
      TallyStep(cs, n - 1, kinds);
    }
  }

  /** Taking in class `cs[i]` changes the figures of `cs[..i]` as `AddClass` says. */
  lemma TallyStep<K>(cs: seq<ClassInfo<K>>, i: nat, kinds: seq<K>)
    requires i < |cs|
    requires cs[i].isApp ==> cs[i].kind in kinds
    ensures cs[i].isApp ==> cs[i].kind in TallyOf(cs[..i], kinds).clazzTypes
    ensures TallyOf(cs[..i + 1], kinds) == AddClass(TallyOf(cs[..i], kinds), cs[i])
  {
    var c, pre := cs[i], cs[..i];
    assert cs[..i + 1] == pre + [c];
    AppClassesSnoc(pre, c);
    var apps := AppClasses(pre);
    if c.isApp {
      CountInnerSnoc(apps, c);
      CountPublicClassesSnoc(apps, c);
      HistogramSnoc(pre, c, kinds);
      DeclaredTalliedSnoc(apps, c);
      PublicSigsAppend(DeclaredTallied(apps), TalliedMethods(c.methods));
      CountNonPublicAppend(DeclaredTallied(apps), TalliedMethods(c.methods));
    } else {
      assert AppClasses(pre + [c]) == apps;
      HistogramNonApp(pre, c, kinds);
    }
  }

  /** How the collected signatures and the misc count change with method `ms[j]`. */
  lemma MethodStep(ms: seq<MethodInfo>, j: nat)
    requires j < |ms|
    ensures var m, done, next := ms[j], TalliedMethods(ms[..j]), TalliedMethods(ms[..j + 1]);
      && PublicSigs(next) == PublicSigs(done) + (if Tallied(m) && m.isPublic then {m.sig} else {})
      && CountNonPublic(next) == CountNonPublic(done) + (if Tallied(m) && !m.isPublic then 1 else 0)
  {
    var m, done := ms[j], TalliedMethods(ms[..j]);
    assert ms[..j + 1] == ms[..j] + [m];
    TalliedMethodsSnoc(ms[..j], m);
    if Tallied(m) {
      PublicSigsSnoc(done, m);
      CountNonPublicSnoc(done, m);
    } else {
      assert TalliedMethods(ms[..j + 1]) == done;
    }
  }
}
