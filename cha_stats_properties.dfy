/**
 * What `getChaStats` promises about its figures, proved about the reference
 * definitions that `ChaStats.GetChaStats` is verified against.
 */
module ChaStatsProperties {
  import opened SortedStrings
  import opened ChaStats

  // ---------------------------------------------------------------------
  // Membership: which classes and methods the reference definitions keep.
  // ---------------------------------------------------------------------

  lemma {:induction false} AppClassesMembers<K>(cs: seq<ClassInfo<K>>)
    ensures forall c :: c in AppClasses(cs) <==> c in cs && c.isApp
  {
    if cs != [] {
      var init, last := cs[..|cs| - 1], cs[|cs| - 1];
      assert cs == init + [last];
      AppClassesMembers(init);
      AppClassesSnoc(init, last);
    }
  }

  lemma {:induction false} TalliedMethodsMembers(ms: seq<MethodInfo>)
    ensures forall m :: m in TalliedMethods(ms) <==> m in ms && Tallied(m)
  {
    if ms != [] {
      var init, last := ms[..|ms| - 1], ms[|ms| - 1];
      assert ms == init + [last];
      TalliedMethodsMembers(init);
      TalliedMethodsSnoc(init, last);
    }
  }

  lemma {:induction false} DeclaredTalliedMembers<K>(cs: seq<ClassInfo<K>>, m: MethodInfo)
    ensures m in DeclaredTallied(cs) <==> exists c :: c in cs && m in c.methods && Tallied(m)
  {
    if cs != [] {
      var init, last := cs[..|cs| - 1], cs[|cs| - 1];
      assert cs == init + [last];
      DeclaredTalliedMembers(init, m);
      DeclaredTalliedSnoc(init, last);
      TalliedMethodsMembers(last.methods);
      if m in DeclaredTallied(cs) && m !in DeclaredTallied(init) {
        assert last in cs && m in last.methods && Tallied(m);
      }
      if c :| c in cs && m in c.methods && Tallied(m) {
        if c != last {
          assert c in init;
        }
      }
    }
  }

  lemma {:induction false} PublicSigsMembers(ms: seq<MethodInfo>, sig: string)
    ensures sig in PublicSigs(ms) <==> exists m :: m in ms && m.isPublic && m.sig == sig
  {
    if ms != [] {
      var init, last := ms[..|ms| - 1], ms[|ms| - 1];
      assert ms == init + [last];
      PublicSigsMembers(init, sig);
      PublicSigsSnoc(init, last);
      if m :| m in ms && m.isPublic && m.sig == sig {
        if m != last {
          assert m in init;
        }
      }
    }
  }

  /**
   * The returned set holds exactly the signatures of the public methods,
   * neither bridge nor synthetic, that application classes declare.
   */
  lemma PublicSignaturesExact<K>(cs: seq<ClassInfo<K>>, sig: string)
    ensures sig in PublicSignatures(cs) <==>
      exists c, m :: c in cs && c.isApp && m in c.methods
                     && !m.isBridge && !m.isSynthetic && m.isPublic && m.sig == sig
  {
    AppClassesMembers(cs);
    PublicSigsMembers(AppMethods(cs), sig);
    if sig in PublicSignatures(cs) {
      var m :| m in AppMethods(cs) && m.isPublic && m.sig == sig;
      DeclaredTalliedMembers(AppClasses(cs), m);
      var c :| c in AppClasses(cs) && m in c.methods && Tallied(m);
      assert c in cs && c.isApp;
    }
    if c, m :| c in cs && c.isApp && m in c.methods && !m.isBridge && !m.isSynthetic && m.isPublic && m.sig == sig {
      assert c in AppClasses(cs);
      DeclaredTalliedMembers(AppClasses(cs), m);
      assert m in AppMethods(cs);
    }
  }

  // ---------------------------------------------------------------------
  // Classes outside the application and skipped methods change nothing.
  // ---------------------------------------------------------------------

  lemma {:induction false} AppClassesAppend<K>(xs: seq<ClassInfo<K>>, ys: seq<ClassInfo<K>>)
    ensures AppClasses(xs + ys) == AppClasses(xs) + AppClasses(ys)
    decreases |ys|
  {
    if ys == [] {
      assert xs + ys == xs;
    } else {
      var init, last := ys[..|ys| - 1], ys[|ys| - 1];
      assert ys == init + [last];
      assert xs + ys == (xs + init) + [last];
      AppClassesAppend(xs, init);
      AppClassesSnoc(xs + init, last);
      AppClassesSnoc(init, last);
    }
  }

  /** A class for which `isAppClass` is false leaves every figure as it was. */
  lemma NonAppClassIgnored<K>(pre: seq<ClassInfo<K>>, c: ClassInfo<K>, post: seq<ClassInfo<K>>, kinds: seq<K>)
    requires !c.isApp
    ensures TallyOf(pre + [c] + post, kinds) == TallyOf(pre + post, kinds)
  {
    AppClassesAppend(pre + [c], post);
    AppClassesAppend(pre, post);
    AppClassesSnoc(pre, c);
    assert AppClasses(pre + [c] + post) == AppClasses(pre + post);
  }

  lemma {:induction false} TalliedMethodsAppend(xs: seq<MethodInfo>, ys: seq<MethodInfo>)
    ensures TalliedMethods(xs + ys) == TalliedMethods(xs) + TalliedMethods(ys)
    decreases |ys|
  {
    if ys == [] {
      assert xs + ys == xs;
    } else {
      var init, last := ys[..|ys| - 1], ys[|ys| - 1];
      assert ys == init + [last];
      assert xs + ys == (xs + init) + [last];
      TalliedMethodsAppend(xs, init);
      TalliedMethodsSnoc(xs + init, last);
      TalliedMethodsSnoc(init, last);
    }
  }

  /** Two classes that the pass cannot tell apart. */
  ghost predicate SameForTally<K>(c: ClassInfo<K>, d: ClassInfo<K>)
  {
    && c.isApp == d.isApp && c.kind == d.kind && c.isInner == d.isInner && c.isPublic == d.isPublic
    && TalliedMethods(c.methods) == TalliedMethods(d.methods)
  }

  /** The figures depend on each class only through what `SameForTally` compares. */
  lemma {:induction false} TallyUpToSame<K(!new)>(xs: seq<ClassInfo<K>>, ys: seq<ClassInfo<K>>, n: nat, kinds: seq<K>)
    requires n <= |xs| == |ys|
    requires forall j :: 0 <= j < n ==> SameForTally(xs[j], ys[j])
    requires forall j :: 0 <= j < n ==> xs[j].isApp ==> xs[j].kind in kinds
    requires forall j :: 0 <= j < n ==> ys[j].isApp ==> ys[j].kind in kinds
    ensures TallyUpTo(xs, n, kinds) == TallyUpTo(ys, n, kinds)
  {
    if n > 0 {
      TallyUpToSame(xs, ys, n - 1, kinds);
      assert SameForTally(xs[n - 1], ys[n - 1]);
    }
  }

  /**
   * Adding a bridge or synthetic method to a class changes no figure: it is
   * neither collected nor counted.
   */
  lemma SkippedMethodIgnored<K(!new)>(pre: seq<ClassInfo<K>>, c: ClassInfo<K>, post: seq<ClassInfo<K>>,
                                      ms: seq<MethodInfo>, m: MethodInfo, ns: seq<MethodInfo>, kinds: seq<K>)
    requires m.isBridge || m.isSynthetic
    requires c.methods == ms + ns
    requires forall d :: d in pre + [c] + post ==> d.isApp ==> d.kind in kinds
    ensures TallyOf(pre + [c.(methods := ms + [m] + ns)] + post, kinds) == TallyOf(pre + [c] + post, kinds)
  {
    var c' := c.(methods := ms + [m] + ns);
    var xs, ys := pre + [c'] + post, pre + [c] + post;
    TalliedMethodsAppend(ms + [m], ns);
    TalliedMethodsAppend(ms, ns);
    TalliedMethodsSnoc(ms, m);
    assert SameForTally(c', c);
    forall j | 0 <= j < |xs|
      ensures SameForTally(xs[j], ys[j]) && (xs[j].isApp ==> xs[j].kind in kinds) && (ys[j].isApp ==> ys[j].kind in kinds)
    {
      if j != |pre| {
        assert xs[j] == ys[j];
      }
      assert ys[j] in ys;
    }
    TallyUpToSame(xs, ys, |xs|, kinds);
    TallyUpToMeaning(xs, |xs|, kinds);
    TallyUpToMeaning(ys, |ys|, kinds);
    assert xs[..|xs|] == xs && ys[..|ys|] == ys;
  }

  // ---------------------------------------------------------------------
  // Bounds between the figures.
  // ---------------------------------------------------------------------

  lemma {:induction false} CountInnerBound<K>(cs: seq<ClassInfo<K>>)
    ensures CountInner(cs) <= |cs|
  {
    if cs != [] {
      CountInnerBound(cs[..|cs| - 1]);
    }
  }

  lemma {:induction false} CountPublicClassesBound<K>(cs: seq<ClassInfo<K>>)
    ensures CountPublicClasses(cs) <= |cs|
  {
    if cs != [] {
      CountPublicClassesBound(cs[..|cs| - 1]);
    }
  }

  /** Inner and public classes are counted only among the classes counted. */
  lemma ClassCountBounds<K>(cs: seq<ClassInfo<K>>)
    ensures InnerClassCount(cs) <= ClassCount(cs)
    ensures PublicClassCount(cs) <= ClassCount(cs)
  {
    CountInnerBound(AppClasses(cs));
    CountPublicClassesBound(AppClasses(cs));
  }

  lemma {:induction false} MethodCountBound(ms: seq<MethodInfo>)
    ensures |PublicSigs(ms)| + CountNonPublic(ms) <= |ms|
  {
    if ms != [] {
      var init, last := ms[..|ms| - 1], ms[|ms| - 1];
      assert ms == init + [last];
      MethodCountBound(init);
      PublicSigsSnoc(init, last);
      CountNonPublicSnoc(init, last);
      if last.isPublic {
        assert |PublicSigs(init) + {last.sig}| <= |PublicSigs(init)| + 1;
      }
    }
  }

  /**
   * The logged method total, the size of the public-signature set plus the
   * misc count, is at most the number of non-bridge, non-synthetic methods of
   * application classes; signatures repeated among public methods are
   * counted once.
   */
  lemma ReportedMethodsBound<K>(cs: seq<ClassInfo<K>>, publicMethods: seq<string>)
    requires StrictlySorted(publicMethods)
    requires Elements(publicMethods) == PublicSignatures(cs)
    ensures |publicMethods| + MiscMethodCount(cs) <= |AppMethods(cs)|
  {
    SortedCardinality(publicMethods);
    MethodCountBound(AppMethods(cs));
  }

  // ---------------------------------------------------------------------
  // The histogram: one entry per value, summing to the class count.
  // ---------------------------------------------------------------------

  ghost predicate Distinct<T>(s: seq<T>)
  {
    forall i, j :: 0 <= i < j < |s| ==> s[i] != s[j]
  }

  /** The sum of the entries of `h` for the values `ks`, as the log lists them. */
  function HistogramTotal<K>(h: map<K, nat>, ks: seq<K>): nat
  {
    if ks == [] then 0
    else
      var last := ks[|ks| - 1];
      HistogramTotal(h, ks[..|ks| - 1]) + if last in h then h[last] else 0
  }

  ghost function Occurrences<K>(ks: seq<K>, x: K): nat
  {
    if ks == [] then 0
    else Occurrences(ks[..|ks| - 1], x) + if ks[|ks| - 1] == x then 1 else 0
  }

  lemma {:induction false} OccurrencesOfDistinct<K>(ks: seq<K>, x: K)
    requires Distinct(ks)
    ensures Occurrences(ks, x) == if x in ks then 1 else 0
  {
    if ks != [] {
      var init, last := ks[..|ks| - 1], ks[|ks| - 1];
      assert ks == init + [last];
      assert Distinct(init);
      OccurrencesOfDistinct(init, x);
      if last == x {
        assert x !in init;
      }
    }
  }

  /** One more application class raises the total over `ks` by the occurrences of its kind. */
  lemma {:induction false} HistogramTotalSnoc<K>(cs: seq<ClassInfo<K>>, c: ClassInfo<K>, kinds: seq<K>, ks: seq<K>)
    requires c.isApp
    requires forall k :: k in ks ==> k in kinds
    ensures HistogramTotal(Histogram(cs + [c], kinds), ks) == HistogramTotal(Histogram(cs, kinds), ks) + Occurrences(ks, c.kind)
  {
    if ks != [] {
      var init, last := ks[..|ks| - 1], ks[|ks| - 1];
      assert last in ks;
      HistogramTotalSnoc(cs, c, kinds, init);
      AppClassesSnoc(cs, c);
      CountKindSnoc(AppClasses(cs), c, last);
    }
  }

  /**
   * Each application class raises exactly one entry of the histogram, so the
   * entries sum to the class count.
   */
  lemma {:induction false} HistogramSumsToClassCount<K>(cs: seq<ClassInfo<K>>, kinds: seq<K>)
    requires Distinct(kinds)
    requires forall c :: c in cs && c.isApp ==> c.kind in kinds
    ensures HistogramTotal(Histogram(cs, kinds), kinds) == ClassCount(cs)
  {
    if cs == [] {
      HistogramOfNone(kinds, kinds);
    } else {
      var init, last := cs[..|cs| - 1], cs[|cs| - 1];
      assert cs == init + [last];
      HistogramSumsToClassCount(init, kinds);
      AppClassesSnoc(init, last);
      if last.isApp {
        HistogramTotalSnoc(init, last, kinds, kinds);
        OccurrencesOfDistinct(kinds, last.kind);
      } else {
        HistogramNonApp(init, last, kinds);
      }
    }
  }

  lemma {:induction false} HistogramOfNone<K>(kinds: seq<K>, ks: seq<K>)
    ensures HistogramTotal(Histogram([], kinds), ks) == 0
  {
    if ks != [] {
      HistogramOfNone(kinds, ks[..|ks| - 1]);
    }
  }
}
