/**
 * The audit for classes that should take part in cycle collection but do
 * not. Declarations are fed in one at a time; the audit records every
 * subclass of nsISupports, the subclass edges between them, the classes
 * owning a collector helper and the first nsIContent seen. At the end it
 * builds the "may hold a reference to" graph over classes, finds its
 * strongly connected components, and gives each recorded class a verdict.
 */
module BadPointerHolder {
  import opened TypeModel
  import opened CCBase
  import PathScc

  /** Fields ignored by the type-based cycle analysis, by qualified name. */
  const FieldWhitelist: set<string> := {"nsCSSStyleSheet::mNext", "nsIDocument::mSecurityInfo"}

  /** Classes that can be exposed as JavaScript objects, which can hold any other such object. */
  const JsExposedNames: set<string> := {"nsINode", "nsIRange", "nsIDocument", "nsINodeList", "nsIContent"}

  const CacheEmptyMessage: string := "Internal error: nsiContentCache is undefined."

  predicate IsJsExposed(arena: Arena, t: Ty) {
    InWhitelist(JsExposedNames, Name(arena, t))
  }

  /** Some entry of `s` has the name `n`. */
  predicate HasName(arena: Arena, s: seq<Ty>, n: Option<string>) {
    exists k :: 0 <= k < |s| && Name(arena, s[k]) == n
  }

  /** No two entries of `s` share a name. */
  predicate DistinctNames(arena: Arena, s: seq<Ty>) {
    forall i, j :: 0 <= i < j < |s| ==> Name(arena, s[i]) != Name(arena, s[j])
  }

  /** `s` with `x` appended unless it is already there. */
  function AddAbsent<T(==)>(s: seq<T>, x: T): (r: seq<T>)
    ensures IsPrefix(s, r) && x in r
    ensures forall y :: y in r ==> y in s || y == x
    ensures NoDup(s) ==> NoDup(r)
  {
    if x in s then s else s + [x]
  }

  /** The recorded immediate subtypes of `t`; none when nothing was recorded. */
  function Subs(subs: map<Ty, seq<Ty>>, t: Ty): seq<Ty> {
    if t in subs then subs[t] else []
  }

  /** Every recorded subtype list is free of repeats. */
  ghost predicate SubtypesOk(subs: map<Ty, seq<Ty>>) {
    forall u :: u in subs ==> NoDup(subs[u])
  }

  /**
   * `m'` is `m` with `t` recorded once as a subtype of every class in
   * `bases`, every other list unchanged and existing entries kept in order.
   */
  ghost predicate EdgesAdded(m: map<Ty, seq<Ty>>, m': map<Ty, seq<Ty>>, t: Ty, bases: seq<Ty>) {
    forall b :: Subs(m', b) == if b in bases then AddAbsent(Subs(m, b), t) else Subs(m, b)
  }

  lemma EdgesAddedStep(m: map<Ty, seq<Ty>>, mid: map<Ty, seq<Ty>>, t: Ty, bases: seq<Ty>)
    requires bases != [] && EdgesAdded(m, mid, t, bases[..|bases| - 1])
    ensures var b0 := bases[|bases| - 1];
      EdgesAdded(m, mid[b0 := AddAbsent(Subs(mid, b0), t)], t, bases)
  {
    var b0 := bases[|bases| - 1];
    var m2 := mid[b0 := AddAbsent(Subs(mid, b0), t)];
    forall b
      ensures Subs(m2, b) == if b in bases then AddAbsent(Subs(m, b), t) else Subs(m, b)
    {
      EdgeAt(m, mid, t, bases, b);
    }
  }

  lemma EdgeAt(m: map<Ty, seq<Ty>>, mid: map<Ty, seq<Ty>>, t: Ty, bases: seq<Ty>, b: Ty)
    requires bases != []
    requires var q := bases[..|bases| - 1];
      Subs(mid, b) == if b in q then AddAbsent(Subs(m, b), t) else Subs(m, b)
    ensures var b0 := bases[|bases| - 1];
      Subs(mid[b0 := AddAbsent(Subs(mid, b0), t)], b) ==
      if b in bases then AddAbsent(Subs(m, b), t) else Subs(m, b)
  {
    var q := bases[..|bases| - 1];
    var b0 := bases[|bases| - 1];
    assert bases == q + [b0];
    assert b in bases <==> b in q || b == b0;
    if b == b0 && b in q {
      assert t in Subs(mid, b);
    }
  }

  /**
   * What handling declaration `t` leaves behind: a named class deriving from
   * nsISupports is in `typelist`, and a collector helper's enclosing class
   * is in `cctypes`.
   */
  predicate Processed(arena: Arena, typelist: seq<Ty>, cctypes: seq<Ty>, t: Ty)
    requires WF(arena)
  {
    (!t.Typedef? && Name(arena, t).Some? && !IsCCInnerClass(arena, t) && IsNsISupports(arena, t) == Ok(true)
     ==> t in typelist) &&
    (!t.Typedef? && Name(arena, t).Some? && IsCCInnerClass(arena, t)
     ==> MemberOf(arena, t).Some? && MemberOf(arena, t).value in cctypes)
  }

  lemma ProcessedStable(arena: Arena, tl: seq<Ty>, cc: seq<Ty>, tl': seq<Ty>, cc': seq<Ty>, t: Ty)
    requires WF(arena) && Processed(arena, tl, cc, t) && IsPrefix(tl, tl') && IsPrefix(cc, cc')
    ensures Processed(arena, tl', cc', t)
  {
    PrefixKeeps(tl, tl');
    PrefixKeeps(cc, cc');
  }

  // ---------------------------------------------------------------------
  // What the declaration pass records
  // ---------------------------------------------------------------------

  /**
   * The classes the nsISupports search records when `t` derives from
   * nsISupports, in the order it records them: nsISupports itself first,
   * then, back up the search, each class whose first such base led there.
   */
  function SupportsPath(arena: Arena, t: Ty): seq<Ty>
    requires WF(arena) && IsNsISupports(arena, t) == Ok(true)
    decreases ClassRank(t), Size(t), 1
  {
    if t.Typedef? then SupportsPath(arena, t.target)
    else if NameIs(arena, t, "nsISupports") then [t]
    else BasesPath(arena, t, 0) + [t]
  }

  /** The path through the first base from position `i` on that derives from nsISupports. */
  function BasesPath(arena: Arena, t: Ty, i: nat): seq<Ty>
    requires WF(arena) && BasesNsISupports(arena, t, i) == Ok(true)
    decreases ClassRank(t), 0, |Bases(arena, t)| - i
  {
    var b := Bases(arena, t)[i];
    if IsNsISupports(arena, b) == Ok(true) then SupportsPath(arena, b) else BasesPath(arena, t, i + 1)
  }

  /**
   * Every class on the path is a named, non-typedef nsISupports subclass; the
   * path starts at nsISupports and ends at `t` itself unless `t` is a typedef.
   */
  lemma {:induction false} SupportsPathShape(arena: Arena, t: Ty)
    requires WF(arena) && IsNsISupports(arena, t) == Ok(true)
    ensures var p := SupportsPath(arena, t);
      && |p| > 0 && NameIs(arena, p[0], "nsISupports")
      && (!t.Typedef? ==> p[|p| - 1] == t)
      && forall x :: x in p ==> !x.Typedef? && IsNsISupports(arena, x) == Ok(true)
    decreases ClassRank(t), Size(t), 1
  {
    if t.Typedef? {
      SupportsPathShape(arena, t.target);
    } else if !NameIs(arena, t, "nsISupports") {
      BasesPathShape(arena, t, 0);
    }
  }

  lemma {:induction false} BasesPathShape(arena: Arena, t: Ty, i: nat)
    requires WF(arena) && BasesNsISupports(arena, t, i) == Ok(true)
    ensures var p := BasesPath(arena, t, i);
      && |p| > 0 && NameIs(arena, p[0], "nsISupports")
      && forall x :: x in p ==> !x.Typedef? && IsNsISupports(arena, x) == Ok(true)
    decreases ClassRank(t), 0, |Bases(arena, t)| - i
  {
    var b := Bases(arena, t)[i];
    if IsNsISupports(arena, b) == Ok(true) {
      SupportsPathShape(arena, b);
    } else {
      BasesPathShape(arena, t, i + 1);
    }
  }

  /** The type list after recording the classes of `p` in order, each once. */
  function RecordTypes(tl: seq<Ty>, p: seq<Ty>): seq<Ty> {
    if p == [] then tl else AddAbsent(RecordTypes(tl, p[..|p| - 1]), p[|p| - 1])
  }

  /** Recording keeps the old list in front, adds exactly the path's classes and repeats nothing. */
  lemma {:induction false} RecordTypesExact(tl: seq<Ty>, p: seq<Ty>)
    ensures IsPrefix(tl, RecordTypes(tl, p))
    ensures forall y :: y in RecordTypes(tl, p) <==> y in tl || y in p
    ensures NoDup(tl) ==> NoDup(RecordTypes(tl, p))
  {
    if p != [] {
      var q := p[..|p| - 1];
      RecordTypesExact(tl, q);
      PrefixTrans(tl, RecordTypes(tl, q), RecordTypes(tl, p));
      assert p == q + [p[|p| - 1]];
    }
  }

  /** The JavaScript-exposed list after recording the classes of `p`: an exposed class whose name is new. */
  function RecordExposed(arena: Arena, js: seq<Ty>, p: seq<Ty>): seq<Ty> {
    if p == [] then js
    else
      var j := RecordExposed(arena, js, p[..|p| - 1]);
      var x := p[|p| - 1];
      if IsJsExposed(arena, x) && !HasName(arena, j, Name(arena, x)) then j + [x] else j
  }

  /**
   * Recording keeps the old exposed list in front, adds only exposed classes
   * of the path, leaves every exposed class of the path represented by name,
   * and never repeats a name.
   */
  lemma {:induction false} RecordExposedExact(arena: Arena, js: seq<Ty>, p: seq<Ty>)
    ensures var r := RecordExposed(arena, js, p);
      && IsPrefix(js, r)
      && (forall y :: y in r ==> y in js || (y in p && IsJsExposed(arena, y)))
      && (forall x :: x in p && IsJsExposed(arena, x) ==> HasName(arena, r, Name(arena, x)))
      && (DistinctNames(arena, js) ==> DistinctNames(arena, r))
  {
    if p != [] {
      var q := p[..|p| - 1];
      var x := p[|p| - 1];
      var j := RecordExposed(arena, js, q);
      var r := RecordExposed(arena, js, p);
      RecordExposedExact(arena, js, q);
      assert p == q + [x];
      if IsJsExposed(arena, x) && !HasName(arena, j, Name(arena, x)) {
        assert r == j + [x];
        PrefixTrans(js, j, r);
        assert r[|j|] == x;
        forall y | y in p && IsJsExposed(arena, y)
          ensures HasName(arena, r, Name(arena, y))
        {
          if y != x {
            assert y in q;
            var k :| 0 <= k < |j| && Name(arena, j[k]) == Name(arena, y);
            assert r[k] == j[k];
          }
        }
      }
    }
  }

  /** `m` with `t` recorded once as a subtype of each class of `bs`, in order. */
  function AddEdges(m: map<Ty, seq<Ty>>, t: Ty, bs: seq<Ty>): map<Ty, seq<Ty>> {
    if bs == [] then m
    else
      var mid := AddEdges(m, t, bs[..|bs| - 1]);
      var b := bs[|bs| - 1];
      mid[b := AddAbsent(Subs(mid, b), t)]
  }

  /** Recording edges for one more base updates that base's list alone. */
  lemma AddEdgesPrefix(m: map<Ty, seq<Ty>>, t: Ty, bs: seq<Ty>, i: nat)
    requires i < |bs|
    ensures var mid := AddEdges(m, t, bs[..i]);
      AddEdges(m, t, bs[..i + 1]) == mid[bs[i] := AddAbsent(Subs(mid, bs[i]), t)]
  {
    assert bs[..i + 1][..i] == bs[..i];
  }

  /** Recording edges adds `t` to the list of exactly the classes in `bs`. */
  lemma {:induction false} AddEdgesExact(m: map<Ty, seq<Ty>>, t: Ty, bs: seq<Ty>)
    ensures EdgesAdded(m, AddEdges(m, t, bs), t, bs)
  {
    if bs != [] {
      var q := bs[..|bs| - 1];
      var b := bs[|bs| - 1];
      var mid := AddEdges(m, t, q);
      AddEdgesExact(m, t, q);
      EdgesAddedStep(m, mid, t, bs);
    }
  }

  /** Recording edges keeps every list free of repeats. */
  lemma {:induction false} AddEdgesOk(m: map<Ty, seq<Ty>>, t: Ty, bs: seq<Ty>)
    requires SubtypesOk(m)
    ensures SubtypesOk(AddEdges(m, t, bs))
  {
    if bs != [] {
      var q := bs[..|bs| - 1];
      var b := bs[|bs| - 1];
      var mid := AddEdges(m, t, q);
      AddEdgesOk(m, t, q);
      assert AddEdges(m, t, bs) == mid[b := AddAbsent(Subs(mid, b), t)];
    }
  }

  /** The audit's state between two declarations. */
  datatype Snapshot = Snapshot(typelist: seq<Ty>, jsExposedTypes: seq<Ty>, subtypes: map<Ty, seq<Ty>>,
                               cctypes: seq<Ty>, contentCache: Option<Ty>)

  /** A named class declaration that is a collector helper. */
  predicate IsHelperDecl(arena: Arena, t: Ty)
    requires WF(arena)
  {
    !t.Typedef? && Name(arena, t).Some? && IsCCInnerClass(arena, t)
  }

  /** A named class declaration that is not a collector helper. */
  predicate IsOtherDecl(arena: Arena, t: Ty)
    requires WF(arena)
  {
    !t.Typedef? && Name(arena, t).Some? && !IsCCInnerClass(arena, t)
  }

  /** A declaration that aborts the run: a helper not nested in a class, or a failing nsISupports search. */
  predicate DeclFails(arena: Arena, t: Ty)
    requires WF(arena)
  {
    (IsHelperDecl(arena, t) && MemberOf(arena, t).None?)
    || (IsOtherDecl(arena, t) && IsNsISupports(arena, t).Fatal?)
  }

  /** The first nsIContent declaration is the one cached. */
  predicate CachesContent(arena: Arena, t: Ty)
    requires WF(arena)
  {
    IsOtherDecl(arena, t) && NameIs(arena, t, "nsIContent")
  }

  /**
   * The state after one declaration: a helper adds its enclosing class to
   * `cctypes`; any other named class fills an empty nsIContent cache and,
   * when it derives from nsISupports, records its search path and its edges
   * to its bases.
   */
  function DeclStep(arena: Arena, s: Snapshot, t: Ty): Snapshot
    requires WF(arena)
  {
    if IsHelperDecl(arena, t) then
      if MemberOf(arena, t).Some? then s.(cctypes := s.cctypes + [MemberOf(arena, t).value]) else s
    else if IsOtherDecl(arena, t) then
      var s1 := s.(contentCache := if s.contentCache.None? && CachesContent(arena, t) then Some(t) else s.contentCache);
      if IsNsISupports(arena, t) == Ok(true) then
        var p := SupportsPath(arena, t);
        s1.(typelist := RecordTypes(s.typelist, p), jsExposedTypes := RecordExposed(arena, s.jsExposedTypes, p),
            subtypes := AddEdges(s.subtypes, t, Bases(arena, t)))
      else s1
    else s
  }

  lemma DeclStepHelper(arena: Arena, s: Snapshot, t: Ty)
    requires WF(arena) && IsHelperDecl(arena, t)
    ensures DeclStep(arena, s, t) ==
      if MemberOf(arena, t).Some? then s.(cctypes := s.cctypes + [MemberOf(arena, t).value]) else s
    ensures DeclFails(arena, t) <==> MemberOf(arena, t).None?
  {
  }

  lemma DeclStepOther(arena: Arena, s: Snapshot, t: Ty)
    requires WF(arena) && IsOtherDecl(arena, t)
    ensures var s' := DeclStep(arena, s, t);
      && s'.cctypes == s.cctypes
      && s'.contentCache == (if s.contentCache.None? && NameIs(arena, t, "nsIContent") then Some(t) else s.contentCache)
      && (IsNsISupports(arena, t) == Ok(true) ==>
           s'.typelist == RecordTypes(s.typelist, SupportsPath(arena, t)) &&
           s'.jsExposedTypes == RecordExposed(arena, s.jsExposedTypes, SupportsPath(arena, t)) &&
           s'.subtypes == AddEdges(s.subtypes, t, Bases(arena, t)))
      && (IsNsISupports(arena, t) != Ok(true) ==>
           s'.typelist == s.typelist && s'.jsExposedTypes == s.jsExposedTypes && s'.subtypes == s.subtypes)
    ensures DeclFails(arena, t) <==> IsNsISupports(arena, t).Fatal?
  {
  }

  /** The state after the declarations of `ds`, in order. */
  function DeclsStep(arena: Arena, s: Snapshot, ds: seq<Ty>): Snapshot
    requires WF(arena)
  {
    if ds == [] then s else DeclStep(arena, DeclsStep(arena, s, ds[..|ds| - 1]), ds[|ds| - 1])
  }

  /**
   * One declaration keeps the recorded lists in front, and a declaration
   * that does not abort leaves itself processed.
   */
  lemma DeclStepProcessed(arena: Arena, s: Snapshot, t: Ty)
    requires WF(arena)
    ensures IsPrefix(s.typelist, DeclStep(arena, s, t).typelist)
    ensures IsPrefix(s.cctypes, DeclStep(arena, s, t).cctypes)
    ensures !DeclFails(arena, t) ==> Processed(arena, DeclStep(arena, s, t).typelist, DeclStep(arena, s, t).cctypes, t)
  {
    if IsOtherDecl(arena, t) && IsNsISupports(arena, t) == Ok(true) {
      SupportsPathShape(arena, t);
      RecordTypesExact(s.typelist, SupportsPath(arena, t));
    }
  }

  /** No declaration of `ds` aborts the run. */
  predicate NoneFails(arena: Arena, ds: seq<Ty>)
    requires WF(arena)
  {
    forall d :: d in ds ==> !DeclFails(arena, d)
  }

  lemma NoneFailsSnoc(arena: Arena, ds: seq<Ty>, d: Ty)
    requires WF(arena) && NoneFails(arena, ds) && !DeclFails(arena, d)
    ensures NoneFails(arena, ds + [d])
  {
  }

  lemma NoneFailsAll(arena: Arena, ds: seq<Ty>)
    requires WF(arena)
    ensures NoneFails(arena, ds) <==> !exists k :: 0 <= k < |ds| && DeclFails(arena, ds[k])
  {
    if !NoneFails(arena, ds) {
      var d :| d in ds && DeclFails(arena, d);
      var k :| 0 <= k < |ds| && ds[k] == d;
    }
  }

  /** After a run of declarations none of which aborts, each of them is processed. */
  lemma {:induction false} DeclsStepProcessed(arena: Arena, s: Snapshot, ds: seq<Ty>)
    requires WF(arena)
    requires NoneFails(arena, ds)
    ensures IsPrefix(s.typelist, DeclsStep(arena, s, ds).typelist)
    ensures IsPrefix(s.cctypes, DeclsStep(arena, s, ds).cctypes)
    ensures forall k :: 0 <= k < |ds| ==>
      Processed(arena, DeclsStep(arena, s, ds).typelist, DeclsStep(arena, s, ds).cctypes, ds[k])
  {
    if ds != [] {
      var q := ds[..|ds| - 1];
      var d := ds[|ds| - 1];
      assert d in ds && forall x :: x in q ==> x in ds;
      var mid := DeclsStep(arena, s, q);
      var fin := DeclsStep(arena, s, ds);
      DeclsStepProcessed(arena, s, q);
      DeclStepProcessed(arena, mid, d);
      PrefixTrans(s.typelist, mid.typelist, fin.typelist);
      PrefixTrans(s.cctypes, mid.cctypes, fin.cctypes);
      forall k | 0 <= k < |ds|
        ensures Processed(arena, fin.typelist, fin.cctypes, ds[k])
      {
        if k < |q| {
          assert ds[k] == q[k];
          ProcessedStable(arena, mid.typelist, mid.cctypes, fin.typelist, fin.cctypes, ds[k]);
        }
      }
    }
  }

  /** The enclosing class a declaration adds to `cctypes`: one for a nested helper, none otherwise. */
  function OwnerOf(arena: Arena, d: Ty): (r: seq<Ty>)
    requires WF(arena)
    ensures |r| <= 1
    ensures r != [] <==> IsHelperDecl(arena, d) && MemberOf(arena, d).Some?
  {
    if IsHelperDecl(arena, d) && MemberOf(arena, d).Some? then [MemberOf(arena, d).value] else []
  }

  /** The helper owners among `ds`, in order. */
  function HelperOwners(arena: Arena, ds: seq<Ty>): seq<Ty>
    requires WF(arena)
  {
    if ds == [] then [] else HelperOwners(arena, ds[..|ds| - 1]) + OwnerOf(arena, ds[|ds| - 1])
  }

  /** One declaration appends its owner, if any, to `cctypes`. */
  lemma DeclStepCctypes(arena: Arena, s: Snapshot, t: Ty)
    requires WF(arena)
    ensures DeclStep(arena, s, t).cctypes == s.cctypes + OwnerOf(arena, t)
  {
  }

  /** One declaration fills an empty cache exactly when it is an nsIContent class, and keeps a full one. */
  lemma DeclStepCache(arena: Arena, s: Snapshot, t: Ty)
    requires WF(arena)
    ensures DeclStep(arena, s, t).contentCache
            == if s.contentCache.None? && CachesContent(arena, t) then Some(t) else s.contentCache
  {
  }

  /** Over a run of declarations, `cctypes` gains exactly the enclosing classes of the helpers, in order. */
  lemma {:induction false} DeclsStepOwners(arena: Arena, s: Snapshot, ds: seq<Ty>)
    requires WF(arena)
    ensures DeclsStep(arena, s, ds).cctypes == s.cctypes + HelperOwners(arena, ds)
  {
    if ds != [] {
      var q := ds[..|ds| - 1];
      var d := ds[|ds| - 1];
      DeclsStepOwners(arena, s, q);
      DeclStepCctypes(arena, DeclsStep(arena, s, q), d);
    }
  }

  /** The first nsIContent class declaration among `ds`. */
  ghost predicate FirstContentAt(arena: Arena, ds: seq<Ty>, k: int)
    requires WF(arena)
  {
    0 <= k < |ds| && CachesContent(arena, ds[k]) && forall j :: 0 <= j < k ==> !CachesContent(arena, ds[j])
  }

  ghost predicate AnyContent(arena: Arena, ds: seq<Ty>)
    requires WF(arena)
  {
    exists k :: 0 <= k < |ds| && CachesContent(arena, ds[k])
  }

  /** An empty cache ends holding the first nsIContent declaration of the run, if there is one. */
  lemma {:induction false} DeclsStepCache(arena: Arena, s: Snapshot, ds: seq<Ty>)
    requires WF(arena) && s.contentCache.None?
    ensures var c := DeclsStep(arena, s, ds).contentCache;
      && (c.Some? <==> AnyContent(arena, ds))
      && (c.Some? ==> exists k :: FirstContentAt(arena, ds, k) && c.value == ds[k])
  {
    if ds != [] {
      var q := ds[..|ds| - 1];
      var d := ds[|ds| - 1];
      DeclsStepCache(arena, s, q);
      var mid := DeclsStep(arena, s, q);
      DeclStepCache(arena, mid, d);
      if mid.contentCache.Some? {
        var k :| FirstContentAt(arena, q, k) && mid.contentCache.value == q[k];
        assert ds[k] == q[k];
        assert forall j :: 0 <= j < k ==> ds[j] == q[j];
        assert FirstContentAt(arena, ds, k);
      } else if CachesContent(arena, d) {
        assert forall j :: 0 <= j < |q| ==> ds[j] == q[j];
        assert FirstContentAt(arena, ds, |ds| - 1);
      } else {
        forall k | 0 <= k < |ds|
          ensures !CachesContent(arena, ds[k])
        {
          if k < |q| { assert ds[k] == q[k]; }
        }
      }
    }
  }

  /** What a whole run of declarations none of which aborts leaves behind. */
  lemma DeclsStepSummary(arena: Arena, s: Snapshot, ds: seq<Ty>)
    requires WF(arena) && NoneFails(arena, ds)
    ensures !exists k :: 0 <= k < |ds| && DeclFails(arena, ds[k])
    ensures var f := DeclsStep(arena, s, ds);
      && (forall k :: 0 <= k < |ds| ==> Processed(arena, f.typelist, f.cctypes, ds[k]))
      && f.cctypes == s.cctypes + HelperOwners(arena, ds)
      && (s.contentCache.None? ==>
           (f.contentCache.Some? <==> AnyContent(arena, ds)) &&
           (f.contentCache.Some? ==> exists k :: FirstContentAt(arena, ds, k) && f.contentCache.value == ds[k]))
  {
    DeclsStepProcessed(arena, s, ds);
    NoneFailsAll(arena, ds);
    DeclsStepOwners(arena, s, ds);
    if s.contentCache.None? {
      DeclsStepCache(arena, s, ds);
    }
  }

  // ---------------------------------------------------------------------
  // Pointees: the classes a class may hold a counted reference to
  // ---------------------------------------------------------------------

  /**
   * What one member contributes to the pointee list: nothing for methods,
   * whitelisted fields and fields without a pointee, the pointee otherwise.
   * An empty nsIContent cache or a broken container aborts the run.
   */
  function EdgeTarget(arena: Arena, cache: Option<Ty>, m: Member): Res<Option<Ty>> {
    if m.isFunction || m.name in FieldWhitelist then Ok(None)
    else match PtrTypeContains(arena, cache, m.ty)
      case Found(x) => Ok(Some(x))
      case Absent => Ok(None)
      case CacheEmpty => Fatal(CacheEmptyMessage)
      case Broken(e) => Fatal(e)
  }

  /** Scanning members `ms[i..]`, appending each new pointee to `ans`. */
  function OwnScan(arena: Arena, cache: Option<Ty>, ms: seq<Member>, i: nat, ans: seq<Ty>): Res<seq<Ty>>
    decreases |ms| - i
  {
    if i >= |ms| then Ok(ans)
    else match EdgeTarget(arena, cache, ms[i])
      case Fatal(e) => Fatal(e)
      case Ok(None) => OwnScan(arena, cache, ms, i + 1, ans)
      case Ok(Some(x)) => OwnScan(arena, cache, ms, i + 1, AddAbsent(ans, x))
  }

  /** The scan of a class's own members (a class without a member list has none). */
  function OwnMembersScan(arena: Arena, cache: Option<Ty>, t: Ty, ans: seq<Ty>): Res<seq<Ty>> {
    if Members(arena, t).Some? then OwnScan(arena, cache, Members(arena, t).value, 0, ans) else Ok(ans)
  }

  /** `s` extended by every element of `xs` it lacks, in the order of `xs`. */
  function AddAllAbsent(s: seq<Ty>, xs: seq<Ty>): seq<Ty>
    decreases |xs|
  {
    if xs == [] then s else AddAllAbsent(AddAbsent(s, xs[0]), xs[1..])
  }

  lemma AddAllAbsentStep(s: seq<Ty>, xs: seq<Ty>, k: nat)
    requires k < |xs|
    ensures AddAllAbsent(AddAbsent(s, xs[k]), xs[k + 1..]) == AddAllAbsent(s, xs[k..])
  {
    assert xs[k..][0] == xs[k] && xs[k..][1..] == xs[k + 1..];
  }

  /** A JavaScript-exposed class may hold every JavaScript-exposed class seen so far. */
  function AddJsExposed(arena: Arena, js: seq<Ty>, t: Ty, ans: seq<Ty>): seq<Ty> {
    if IsJsExposed(arena, t) then AddAllAbsent(ans, js) else ans
  }

  /**
   * The pointee list of `t` accumulated onto `ans`: own members, then the
   * JavaScript-exposed classes, then each base class in order.
   */
  function Pointees(arena: Arena, cache: Option<Ty>, js: seq<Ty>, t: Ty, ans: seq<Ty>): Res<seq<Ty>>
    requires WF(arena)
    decreases ClassRank(t), 1, 0
  {
    match OwnMembersScan(arena, cache, t, ans)
    case Fatal(e) => Fatal(e)
    case Ok(a) => BasesScan(arena, cache, js, t, 0, AddJsExposed(arena, js, t, a))
  }

  function BasesScan(arena: Arena, cache: Option<Ty>, js: seq<Ty>, t: Ty, i: nat, ans: seq<Ty>): Res<seq<Ty>>
    requires WF(arena)
    decreases ClassRank(t), 0, |Bases(arena, t)| - i
  {
    var bs := Bases(arena, t);
    if i >= |bs| then Ok(ans)
    else match Pointees(arena, cache, js, bs[i], ans)
      case Fatal(e) => Fatal(e)
      case Ok(a) => BasesScan(arena, cache, js, t, i + 1, a)
  }

  /** Class `c` itself makes `x` a pointee: through one of its fields, or by being JavaScript-exposed. */
  ghost predicate Contributes(arena: Arena, cache: Option<Ty>, js: seq<Ty>, c: Ty, x: Ty) {
    (Members(arena, c).Some? &&
     exists k :: 0 <= k < |Members(arena, c).value| && EdgeTarget(arena, cache, Members(arena, c).value[k]) == Ok(Some(x)))
    || (IsJsExposed(arena, c) && x in js)
  }

  // ---------------------------------------------------------------------
  // Subclass closure and the class graph
  // ---------------------------------------------------------------------

  /**
   * `r` is `tt` extended, without repeats, to be closed under the recorded
   * subtype edges, and every added class is a subtype of an earlier entry.
   */
  ghost predicate SubclassClosure(subs: map<Ty, seq<Ty>>, tt: seq<Ty>, r: seq<Ty>) {
    Derived(subs, tt, r) && ClosedBelow(subs, r, |r|)
  }

  /** `r` extends `tt` without repeats, each added class a subtype of an earlier entry. */
  ghost predicate Derived(subs: map<Ty, seq<Ty>>, tt: seq<Ty>, r: seq<Ty>) {
    IsPrefix(tt, r) &&
    (forall k :: |tt| <= k < |r| ==> r[k] !in r[..k]) &&
    (forall k :: |tt| <= k < |r| ==> exists j :: 0 <= j < k && r[k] in Subs(subs, r[j]))
  }

  /** The subtypes of the first `i` entries of `r` are all in `r`. */
  ghost predicate ClosedBelow(subs: map<Ty, seq<Ty>>, r: seq<Ty>, i: nat) {
    forall k, u :: 0 <= k < i && k < |r| && u in Subs(subs, r[k]) ==> u in r
  }

  lemma AppendDerived(subs: map<Ty, seq<Ty>>, tt: seq<Ty>, r: seq<Ty>, i: nat, u: Ty)
    requires Derived(subs, tt, r) && ClosedBelow(subs, r, i) && i < |r| && u in Subs(subs, r[i]) && u !in r
    ensures Derived(subs, tt, r + [u]) && ClosedBelow(subs, r + [u], i)
  {
    var r' := r + [u];
    assert r'[..|r|] == r;
    assert r'[..|tt|] == r[..|tt|];
    forall k | |tt| <= k < |r'|
      ensures r'[k] !in r'[..k]
      ensures exists j :: 0 <= j < k && r'[k] in Subs(subs, r'[j])
    {
      if k < |r| {
        assert r'[..k] == r[..k];
        var j :| 0 <= j < k && r[k] in Subs(subs, r[j]);
        assert r'[j] == r[j];
      } else {
        assert r'[i] == r[i];
      }
    }
  }

  lemma InSubVals(subs: map<Ty, seq<Ty>>, t: Ty, u: Ty)
    requires u in Subs(subs, t)
    ensures u in SubVals(subs)
  {
    assert t in subs && u in subs[t];
  }

  lemma AppendKeeps<T>(r: seq<T>, u: T)
    ensures forall x :: x in r ==> x in r + [u]
  {
  }

  lemma CoveredStep<T>(subs: seq<T>, k: nat, r: seq<T>, u: T)
    requires k < |subs| && subs[k] == u
    requires forall q :: 0 <= q < k ==> subs[q] in r
    ensures forall q :: 0 <= q < k + 1 ==> subs[q] in r + [u]
  {
  }

  lemma CoveredKeep<T>(subs: seq<T>, k: nat, r: seq<T>)
    requires k < |subs| && subs[k] in r
    requires forall q :: 0 <= q < k ==> subs[q] in r
    ensures forall q :: 0 <= q < k + 1 ==> subs[q] in r
  {
  }

  lemma ClosedBelowNext(subs: map<Ty, seq<Ty>>, r: seq<Ty>, i: nat)
    requires ClosedBelow(subs, r, i) && i < |r|
    requires forall q :: 0 <= q < |Subs(subs, r[i])| ==> Subs(subs, r[i])[q] in r
    ensures ClosedBelow(subs, r, i + 1)
  {
  }

  lemma AddFresh<T>(s: set<T>, x: T)
    requires x !in s
    ensures |s + {x}| == |s| + 1
  {
  }

  /** Every class recorded as somebody's subtype. */
  ghost function SubVals(subs: map<Ty, seq<Ty>>): set<Ty> {
    set t, u | t in subs && u in subs[t] :: u
  }

  /** `e` is a possible `next_classes` answer for `t`: its pointees closed under subclasses. */
  ghost predicate IsNextClasses(arena: Arena, cache: Option<Ty>, js: seq<Ty>, subs: map<Ty, seq<Ty>>, t: Ty, e: seq<Ty>)
    requires WF(arena)
  {
    Pointees(arena, cache, js, t, []).Ok? && SubclassClosure(subs, Pointees(arena, cache, js, t, []).value, e)
  }

  /** Every node's successor list in `g` is its `next_classes` answer. */
  ghost predicate NextGraph(arena: Arena, cache: Option<Ty>, js: seq<Ty>, subs: map<Ty, seq<Ty>>, g: map<Ty, seq<Ty>>)
    requires WF(arena)
  {
    forall v :: v in g ==> IsNextClasses(arena, cache, js, subs, v, g[v])
  }

  /** Everything the graph can ever mention: written types, the cache, JavaScript-exposed and subtype entries, roots. */
  ghost function Universe(arena: Arena, cache: Option<Ty>, js: seq<Ty>, subs: map<Ty, seq<Ty>>, roots: seq<Ty>): set<Ty> {
    ArenaSubterms(arena) + (if cache.Some? then {cache.value} else {}) + (set x | x in js) + SubVals(subs) + (set x | x in roots)
  }

  /** The class graph and its component numbering. */
  datatype Cycles = Cycles(graph: map<Ty, seq<Ty>>, scc: map<Ty, nat>)

  // ---------------------------------------------------------------------
  // Verdicts
  // ---------------------------------------------------------------------

  /** The component number of a class, absent when the search never reached it. */
  function SccOf(scc: map<Ty, nat>, t: Ty): Option<nat> {
    if t in scc then Some(scc[t]) else None
  }

  /** The entries of `xs` whose component number is `s` (absent numbers compare equal). */
  function SameScc(scc: map<Ty, nat>, s: Option<nat>, xs: seq<Ty>): (r: seq<Ty>)
    ensures forall x :: x in r <==> x in xs && SccOf(scc, x) == s
    ensures NoDup(xs) ==> NoDup(r)
  {
    if xs == [] then []
    else (if SccOf(scc, xs[0]) == s then [xs[0]] else []) + SameScc(scc, s, xs[1..])
  }

  /**
   * The pointees of a class's own fields that lie in the class's own
   * component, each once, in field order. Filtering the duplicate-free
   * pointee list gives the same list as filtering before deduplicating.
   */
  function ClassSccEdges(arena: Arena, cache: Option<Ty>, scc: map<Ty, nat>, t: Ty): (r: Res<seq<Ty>>)
    ensures r.Fatal? <==> OwnMembersScan(arena, cache, t, []).Fatal?
    ensures r.Ok? ==> NoDup(r.value)
    ensures r.Ok? ==> forall x :: x in r.value <==>
              SccOf(scc, x) == SccOf(scc, t) && Members(arena, t).Some? &&
              exists k :: 0 <= k < |Members(arena, t).value| && EdgeTarget(arena, cache, Members(arena, t).value[k]) == Ok(Some(x))
  {
    match OwnMembersScan(arena, cache, t, [])
    case Fatal(e) => Fatal(e)
    case Ok(p) =>
      if Members(arena, t).Some? then
        OwnScanExact(arena, cache, Members(arena, t).value, 0, []);
        Ok(SameScc(scc, SccOf(scc, t), p))
      else Ok(SameScc(scc, SccOf(scc, t), p))
  }

  function AnySccEdges(arena: Arena, cache: Option<Ty>, scc: map<Ty, nat>, t: Ty): Res<bool> {
    match ClassSccEdges(arena, cache, scc, t)
    case Fatal(e) => Fatal(e)
    case Ok(es) => Ok(|es| != 0)
  }

  /**
   * An abstract class leaves cycle-collection edges for its concrete
   * subclasses to capture: edges within its component, or escaping ones of
   * a base. Concrete classes and nsISupports have none.
   */
  function EscapingCCEdges(arena: Arena, cache: Option<Ty>, scc: map<Ty, nat>, t: Ty): (r: Res<bool>)
    requires WF(arena)
    ensures IsAbstract(arena, t) == Ok(false) ==> r == Ok(false)
    ensures NameIs(arena, t, "nsISupports") ==> r == Ok(false)
    ensures r == Ok(true) ==> IsAbstract(arena, t) == Ok(true)
    decreases ClassRank(t), 1, 0
  {
    if NameIs(arena, t, "nsISupports") then Ok(false)
    else match IsAbstract(arena, t)
      case Fatal(e) => Fatal(e)
      case Ok(false) => Ok(false)
      case Ok(true) =>
        match AnySccEdges(arena, cache, scc, t)
        case Fatal(e) => Fatal(e)
        case Ok(true) => Ok(true)
        case Ok(false) => EscapingBases(arena, cache, scc, t, 0)
  }

  function EscapingBases(arena: Arena, cache: Option<Ty>, scc: map<Ty, nat>, t: Ty, i: nat): Res<bool>
    requires WF(arena)
    decreases ClassRank(t), 0, |Bases(arena, t)| - i
  {
    var bs := Bases(arena, t);
    if i >= |bs| then Ok(false)
    else match EscapingCCEdges(arena, cache, scc, bs[i])
      case Fatal(e) => Fatal(e)
      case Ok(true) => Ok(true)
      case Ok(false) => EscapingBases(arena, cache, scc, t, i + 1)
  }

  /** A concrete class other than nsISupports needs cycle collection when it or a base leaves edges in a cycle. */
  function ShouldBeCCed(arena: Arena, cache: Option<Ty>, scc: map<Ty, nat>, t: Ty): (r: Res<bool>)
    requires WF(arena)
    ensures NameIs(arena, t, "nsISupports") ==> r == Ok(false)
    ensures IsAbstract(arena, t) == Ok(true) ==> r == Ok(false)
    ensures r == Ok(true) ==> IsAbstract(arena, t) == Ok(false)
  {
    if NameIs(arena, t, "nsISupports") then Ok(false)
    else match IsAbstract(arena, t)
      case Fatal(e) => Fatal(e)
      case Ok(true) => Ok(false)
      case Ok(false) =>
        match AnySccEdges(arena, cache, scc, t)
        case Fatal(e) => Fatal(e)
        case Ok(true) => Ok(true)
        case Ok(false) => EscapingBases(arena, cache, scc, t, 0)
  }

  /** The outcome reported for one class; `Quiet` prints nothing. */
  datatype Verdict = OkYes | BadNeed | BadUnneeded | OkNo | Quiet

  /** The verdict table: whether the class should be collected, whether it is, and its printed pointee list. */
  function ChooseVerdict(should: bool, isCC: bool, nc: string): (v: Verdict)
    ensures v == OkYes <==> should && isCC
    ensures v == BadNeed <==> should && !isCC
    ensures v == BadUnneeded <==> !should && isCC
    ensures v == OkNo <==> !should && !isCC && nc != ""
    ensures v == Quiet <==> !should && !isCC && nc == ""
  {
    if should then (if isCC then OkYes else BadNeed)
    else if isCC then BadUnneeded
    else if nc != "" then OkNo
    else Quiet
  }

  /** A class's name as JavaScript prints it. */
  function NameText(arena: Arena, t: Ty): string {
    if Name(arena, t).Some? then Name(arena, t).value else "undefined"
  }

  /** The names of `a` joined by ", ". */
  function JoinNames(arena: Arena, a: seq<Ty>): string {
    if |a| == 0 then ""
    else if |a| == 1 then NameText(arena, a[0])
    else JoinNames(arena, a[..|a| - 1]) + ", " + NameText(arena, a[|a| - 1])
  }

  /** The report for one class. `sccEdges` is filled in only for the two BAD verdicts. */
  datatype Report = Report(cls: Ty, verdict: Verdict, pointees: seq<Ty>, sccEdges: seq<Ty>)

  predicate IsBad(v: Verdict) {
    v == BadNeed || v == BadUnneeded
  }

  /** `rep` is what the audit reports for its class. */
  ghost predicate ReportOk(arena: Arena, cache: Option<Ty>, js: seq<Ty>, cctypes: seq<Ty>, scc: map<Ty, nat>, rep: Report)
    requires WF(arena)
  {
    Pointees(arena, cache, js, rep.cls, []) == Ok(rep.pointees) &&
    ShouldBeCCed(arena, cache, scc, rep.cls).Ok? &&
    rep.verdict == ChooseVerdict(ShouldBeCCed(arena, cache, scc, rep.cls).value, IsCC(cctypes, rep.cls),
                                 JoinNames(arena, rep.pointees)) &&
    (if IsBad(rep.verdict) then ClassSccEdges(arena, cache, scc, rep.cls) == Ok(rep.sccEdges) else rep.sccEdges == [])
  }

  /**
   * `c` is the outcome of the component search: its graph holds the
   * `next_classes` answers, is closed, and contains every root; every root
   * is numbered, and two numbered classes share a number exactly when each
   * reaches the other.
   */
  ghost predicate CyclesOk(arena: Arena, cache: Option<Ty>, js: seq<Ty>, subs: map<Ty, seq<Ty>>, roots: seq<Ty>, c: Cycles)
    requires WF(arena)
  {
    NextGraph(arena, cache, js, subs, c.graph) && PathScc.Closed(c.graph) &&
    (forall k :: 0 <= k < |roots| ==> roots[k] in c.graph && roots[k] in c.scc) &&
    c.scc.Keys <= c.graph.Keys &&
    (forall v, w :: v in c.scc && w in c.graph[v] ==> w in c.scc) &&
    (forall x, y :: x in c.scc && y in c.scc ==>
       (c.scc[x] == c.scc[y] <==> PathScc.Reach(c.graph, x, y) && PathScc.Reach(c.graph, y, x)))
  }

  /** The names of `a` joined by ", ", built left to right. */
  method TypeArrayString(arena: Arena, a: seq<Ty>) returns (s: string)
    ensures s == JoinNames(arena, a)
  {
    s := "";
    var i := 0;
    while i < |a|
      invariant i <= |a| && s == JoinNames(arena, a[..i])
    {
      assert a[..i + 1][..i] == a[..i];
      if i == 0 {
        s := NameText(arena, a[i]);
      } else {
        s := s + ", " + NameText(arena, a[i]);
      }
      i := i + 1;
    }
    assert a[..i] == a;
  }

  /** The whole audit: the class graph with its components, and one report per recorded class. */
  datatype Audit = Audit(cycles: Cycles, reports: seq<Report>)

  // ---------------------------------------------------------------------
  // Properties of the pointee search
  // ---------------------------------------------------------------------

  lemma PrefixKeeps<T>(a: seq<T>, b: seq<T>)
    requires IsPrefix(a, b)
    ensures forall x :: x in a ==> x in b
  {
    forall x | x in a
      ensures x in b
    {
      var k :| 0 <= k < |a| && a[k] == x;
      assert b[k] == x;
    }
  }

  lemma PrefixTrans<T>(a: seq<T>, b: seq<T>, c: seq<T>)
    requires IsPrefix(a, b) && IsPrefix(b, c)
    ensures IsPrefix(a, c)
  {
    assert c[..|a|] == c[..|b|][..|a|];
  }

  /**
   * Scanning members keeps what was accumulated as a prefix, adds no repeat,
   * and adds exactly the pointees of the scanned members.
   */
  lemma {:induction false} OwnScanExact(arena: Arena, cache: Option<Ty>, ms: seq<Member>, i: nat, ans: seq<Ty>)
    requires OwnScan(arena, cache, ms, i, ans).Ok?
    ensures IsPrefix(ans, OwnScan(arena, cache, ms, i, ans).value)
    ensures NoDup(ans) ==> NoDup(OwnScan(arena, cache, ms, i, ans).value)
    ensures forall x :: x in OwnScan(arena, cache, ms, i, ans).value <==>
                        x in ans || exists k :: i <= k < |ms| && EdgeTarget(arena, cache, ms[k]) == Ok(Some(x))
    decreases |ms| - i
  {
    if i < |ms| {
      var next := match EdgeTarget(arena, cache, ms[i]) case Ok(Some(x)) => AddAbsent(ans, x) case _ => ans;
      OwnScanExact(arena, cache, ms, i + 1, next);
      PrefixTrans(ans, next, OwnScan(arena, cache, ms, i, ans).value);
      OwnScanStep(arena, cache, ms, i, ans, next);
    }
  }

  lemma OwnScanStep(arena: Arena, cache: Option<Ty>, ms: seq<Member>, i: nat, ans: seq<Ty>, next: seq<Ty>)
    requires i < |ms| && OwnScan(arena, cache, ms, i, ans).Ok?
    requires next == match EdgeTarget(arena, cache, ms[i]) case Ok(Some(x)) => AddAbsent(ans, x) case _ => ans
    requires forall x :: x in OwnScan(arena, cache, ms, i + 1, next).value <==>
                         x in next || exists k :: i + 1 <= k < |ms| && EdgeTarget(arena, cache, ms[k]) == Ok(Some(x))
    ensures forall x :: x in OwnScan(arena, cache, ms, i, ans).value <==>
                        x in ans || exists k :: i <= k < |ms| && EdgeTarget(arena, cache, ms[k]) == Ok(Some(x))
  {
    assert OwnScan(arena, cache, ms, i, ans) == OwnScan(arena, cache, ms, i + 1, next);
    forall x
      ensures x in OwnScan(arena, cache, ms, i, ans).value <==>
              x in ans || exists k :: i <= k < |ms| && EdgeTarget(arena, cache, ms[k]) == Ok(Some(x))
    {
      if exists k :: i <= k < |ms| && EdgeTarget(arena, cache, ms[k]) == Ok(Some(x)) {
        var k :| i <= k < |ms| && EdgeTarget(arena, cache, ms[k]) == Ok(Some(x));
        if k > i {
          assert i + 1 <= k < |ms| && EdgeTarget(arena, cache, ms[k]) == Ok(Some(x));
        }
      }
    }
  }

  lemma {:induction false} AddAllAbsentExact(s: seq<Ty>, xs: seq<Ty>)
    ensures IsPrefix(s, AddAllAbsent(s, xs))
    ensures NoDup(s) ==> NoDup(AddAllAbsent(s, xs))
    ensures forall x :: x in AddAllAbsent(s, xs) <==> x in s || x in xs
    decreases |xs|
  {
    if xs != [] {
      AddAllAbsentExact(AddAbsent(s, xs[0]), xs[1..]);
      PrefixTrans(s, AddAbsent(s, xs[0]), AddAllAbsent(s, xs));
      assert forall x :: x in xs <==> x == xs[0] || x in xs[1..];
    }
  }

  /**
   * The pointee search keeps what was accumulated as a prefix, adds no
   * repeat, and adds exactly what the class or one of its ancestors
   * contributes.
   */
  lemma {:induction false} PointeesExact(arena: Arena, cache: Option<Ty>, js: seq<Ty>, t: Ty, ans: seq<Ty>)
    requires WF(arena)
    requires Pointees(arena, cache, js, t, ans).Ok?
    ensures IsPrefix(ans, Pointees(arena, cache, js, t, ans).value)
    ensures NoDup(ans) ==> NoDup(Pointees(arena, cache, js, t, ans).value)
    ensures forall x :: x in Pointees(arena, cache, js, t, ans).value <==>
                        x in ans || exists c :: c in BaseClosure(arena, t) && Contributes(arena, cache, js, c, x)
    decreases ClassRank(t), 1, 0
  {
    var a1 := OwnMembersScan(arena, cache, t, ans).value;
    if Members(arena, t).Some? {
      OwnScanExact(arena, cache, Members(arena, t).value, 0, ans);
    }
    var a2 := AddJsExposed(arena, js, t, a1);
    if IsJsExposed(arena, t) {
      AddAllAbsentExact(a1, js);
    }
    BasesScanExact(arena, cache, js, t, 0, a2);
    var r := Pointees(arena, cache, js, t, ans).value;
    PrefixTrans(ans, a1, a2);
    PrefixTrans(ans, a2, r);
    forall x
      ensures x in r <==> x in ans || exists c :: c in BaseClosure(arena, t) && Contributes(arena, cache, js, c, x)
    {
      assert x in a1 <==>
        (x in ans || (Members(arena, t).Some? &&
         exists k :: 0 <= k < |Members(arena, t).value| && EdgeTarget(arena, cache, Members(arena, t).value[k]) == Ok(Some(x))));
      assert x in a2 <==> x in ans || Contributes(arena, cache, js, t, x);
      if exists c :: c in BaseClosure(arena, t) && Contributes(arena, cache, js, c, x) {
        var c :| c in BaseClosure(arena, t) && Contributes(arena, cache, js, c, x);
        if c != t {
          BasesClosureIff(arena, t, 0, c);
        }
      }
      if x in r && x !in a2 {
        var j, c :| 0 <= j < |Bases(arena, t)| && c in BaseClosure(arena, Bases(arena, t)[j])
                    && Contributes(arena, cache, js, c, x);
        BasesClosureIff(arena, t, 0, c);
      }
    }
  }

  lemma {:induction false} BasesScanExact(arena: Arena, cache: Option<Ty>, js: seq<Ty>, t: Ty, i: nat, ans: seq<Ty>)
    requires WF(arena)
    requires BasesScan(arena, cache, js, t, i, ans).Ok?
    ensures IsPrefix(ans, BasesScan(arena, cache, js, t, i, ans).value)
    ensures NoDup(ans) ==> NoDup(BasesScan(arena, cache, js, t, i, ans).value)
    ensures forall x :: x in BasesScan(arena, cache, js, t, i, ans).value <==>
                        x in ans || exists j, c :: i <= j < |Bases(arena, t)| && c in BaseClosure(arena, Bases(arena, t)[j])
                                                   && Contributes(arena, cache, js, c, x)
    decreases ClassRank(t), 0, |Bases(arena, t)| - i
  {
    var bs := Bases(arena, t);
    if i < |bs| {
      var a := Pointees(arena, cache, js, bs[i], ans).value;
      PointeesExact(arena, cache, js, bs[i], ans);
      BasesScanExact(arena, cache, js, t, i + 1, a);
      var r := BasesScan(arena, cache, js, t, i, ans).value;
      assert r == BasesScan(arena, cache, js, t, i + 1, a).value;
      PrefixTrans(ans, a, r);
      forall x
        ensures x in r <==>
                x in ans || exists j, c :: i <= j < |bs| && c in BaseClosure(arena, bs[j]) && Contributes(arena, cache, js, c, x)
      {
        BasesScanMember(arena, cache, js, t, i, ans, a, r, x);
      }
    }
  }

  /** One base step of the membership argument, for a single candidate `x`. */
  lemma BasesScanMember(arena: Arena, cache: Option<Ty>, js: seq<Ty>, t: Ty, i: nat, ans: seq<Ty>, a: seq<Ty>, r: seq<Ty>, x: Ty)
    requires WF(arena) && i < |Bases(arena, t)|
    requires x in a <==> x in ans || exists c :: c in BaseClosure(arena, Bases(arena, t)[i]) && Contributes(arena, cache, js, c, x)
    requires x in r <==>
             x in a || exists j, c :: i + 1 <= j < |Bases(arena, t)| && c in BaseClosure(arena, Bases(arena, t)[j])
                                     && Contributes(arena, cache, js, c, x)
    ensures x in r <==>
            x in ans || exists j, c :: i <= j < |Bases(arena, t)| && c in BaseClosure(arena, Bases(arena, t)[j])
                                      && Contributes(arena, cache, js, c, x)
  {
    var bs := Bases(arena, t);
    if exists j, c :: i <= j < |bs| && c in BaseClosure(arena, bs[j]) && Contributes(arena, cache, js, c, x) {
      var j, c :| i <= j < |bs| && c in BaseClosure(arena, bs[j]) && Contributes(arena, cache, js, c, x);
      if j > i {
        assert i + 1 <= j < |bs| && c in BaseClosure(arena, bs[j]) && Contributes(arena, cache, js, c, x);
      }
    }
  }

  /** A pointee is a type written in some member of some class, the cached nsIContent, or a JavaScript-exposed class. */
  lemma PointeesInUniverse(arena: Arena, cache: Option<Ty>, js: seq<Ty>, t: Ty, x: Ty)
    requires WF(arena)
    requires Pointees(arena, cache, js, t, []).Ok? && x in Pointees(arena, cache, js, t, []).value
    ensures x in ArenaSubterms(arena) || cache == Some(x) || x in js
  {
    PointeesExact(arena, cache, js, t, []);
    var c :| c in BaseClosure(arena, t) && Contributes(arena, cache, js, c, x);
    if !(IsJsExposed(arena, c) && x in js) {
      var ms := Members(arena, c).value;
      var k :| 0 <= k < |ms| && EdgeTarget(arena, cache, ms[k]) == Ok(Some(x));
      MemberPointee(arena, cache, c, k, x);
    }
  }

  lemma MemberPointee(arena: Arena, cache: Option<Ty>, c: Ty, k: nat, x: Ty)
    requires Members(arena, c).Some? && k < |Members(arena, c).value|
    requires EdgeTarget(arena, cache, Members(arena, c).value[k]) == Ok(Some(x))
    ensures x in ArenaSubterms(arena) || cache == Some(x)
  {
    var ty := Members(arena, c).value[k].ty;
    assert PtrTypeContainsHelp(arena, cache, ty) == Found(x);
    PointeeIsSubterm(arena, cache, ty);
    if x in Subterms(ty) {
      MemberSubterm(arena, c, k, x);
    }
  }

  /** Every class of a `next_classes` answer lies in the universe the graph is built over. */
  lemma NextInUniverse(arena: Arena, cache: Option<Ty>, js: seq<Ty>, subs: map<Ty, seq<Ty>>, roots: seq<Ty>, t: Ty, e: seq<Ty>)
    requires WF(arena) && IsNextClasses(arena, cache, js, subs, t, e)
    ensures forall x :: x in e ==> x in Universe(arena, cache, js, subs, roots)
  {
    var p := Pointees(arena, cache, js, t, []).value;
    forall x | x in e
      ensures x in Universe(arena, cache, js, subs, roots)
    {
      var k :| 0 <= k < |e| && e[k] == x;
      if k < |p| {
        assert x == p[k];
        PointeesInUniverse(arena, cache, js, t, x);
      } else {
        var j :| 0 <= j < k && e[k] in Subs(subs, e[j]);
        InSubVals(subs, e[j], x);
      }
    }
  }

  /**
   * The worklist invariant of the graph construction: every successor of a
   * finished node, and every root, is finished or still waiting.
   */
  ghost predicate Frontier(g: map<Ty, seq<Ty>>, work: seq<Ty>, roots: seq<Ty>) {
    (forall v, w :: v in g && w in g[v] ==> w in g || w in work) &&
    (forall k :: 0 <= k < |roots| ==> roots[k] in g || roots[k] in work)
  }

  lemma FrontierSkip(g: map<Ty, seq<Ty>>, work: seq<Ty>, roots: seq<Ty>, u: set<Ty>)
    requires |work| > 0 && work[|work| - 1] in g && Frontier(g, work, roots)
    requires forall x :: x in work ==> x in u
    ensures Frontier(g, work[..|work| - 1], roots)
    ensures forall x :: x in work[..|work| - 1] ==> x in u
  {
    var w := work[..|work| - 1];
    assert forall x :: x in work ==> x in w || x == work[|work| - 1];
  }

  lemma FrontierVisit(g: map<Ty, seq<Ty>>, work: seq<Ty>, roots: seq<Ty>, e: seq<Ty>, u: set<Ty>)
    requires |work| > 0 && Frontier(g, work, roots)
    requires forall x :: x in work ==> x in u
    requires forall x :: x in e ==> x in u
    ensures Frontier(g[work[|work| - 1] := e], work[..|work| - 1] + e, roots)
    ensures forall x :: x in work[..|work| - 1] + e ==> x in u
  {
    var t := work[|work| - 1];
    var w := work[..|work| - 1];
    assert forall x :: x in work ==> x in w || x == t;
    assert forall x :: x in w + e <==> x in w || x in e;
  }

  lemma FrontierDone(g: map<Ty, seq<Ty>>, roots: seq<Ty>)
    requires Frontier(g, [], roots)
    ensures PathScc.Closed(g) && forall k :: 0 <= k < |roots| ==> roots[k] in g
  {
  }

  lemma NextGraphAdd(arena: Arena, cache: Option<Ty>, js: seq<Ty>, subs: map<Ty, seq<Ty>>, g: map<Ty, seq<Ty>>, t: Ty, e: seq<Ty>)
    requires WF(arena) && NextGraph(arena, cache, js, subs, g) && IsNextClasses(arena, cache, js, subs, t, e)
    ensures NextGraph(arena, cache, js, subs, g[t := e])
  {
  }

  /** The invariant of the graph construction inside the finite universe `u`. */
  ghost predicate BuildInv(arena: Arena, cache: Option<Ty>, js: seq<Ty>, subs: map<Ty, seq<Ty>>, roots: seq<Ty>,
                           u: set<Ty>, g: map<Ty, seq<Ty>>, work: seq<Ty>)
    requires WF(arena)
  {
    g.Keys <= u && (forall x :: x in work ==> x in u) &&
    NextGraph(arena, cache, js, subs, g) && Frontier(g, work, roots)
  }

  /** One expansion step of the graph construction keeps its invariant and makes progress. */
  lemma VisitStep(arena: Arena, cache: Option<Ty>, js: seq<Ty>, subs: map<Ty, seq<Ty>>, roots: seq<Ty>,
                  u: set<Ty>, g: map<Ty, seq<Ty>>, work: seq<Ty>, e: seq<Ty>)
    requires WF(arena) && |work| > 0 && work[|work| - 1] !in g
    requires IsNextClasses(arena, cache, js, subs, work[|work| - 1], e) && forall x :: x in e ==> x in u
    requires BuildInv(arena, cache, js, subs, roots, u, g, work)
    ensures BuildInv(arena, cache, js, subs, roots, u, g[work[|work| - 1] := e], work[..|work| - 1] + e)
    ensures |u - g[work[|work| - 1] := e].Keys| < |u - g.Keys|
  {
    var t := work[|work| - 1];
    CardStep(u, g, t, e);
    FrontierVisit(g, work, roots, e, u);
    NextGraphAdd(arena, cache, js, subs, g, t, e);
  }

  /** Dropping an already expanded node from the worklist keeps the invariant. */
  lemma SkipStep(arena: Arena, cache: Option<Ty>, js: seq<Ty>, subs: map<Ty, seq<Ty>>, roots: seq<Ty>,
                 u: set<Ty>, g: map<Ty, seq<Ty>>, work: seq<Ty>)
    requires WF(arena) && |work| > 0 && work[|work| - 1] in g
    requires BuildInv(arena, cache, js, subs, roots, u, g, work)
    ensures BuildInv(arena, cache, js, subs, roots, u, g, work[..|work| - 1])
  {
    FrontierSkip(g, work, roots, u);
  }

  lemma CardStep<T>(u: set<T>, g: map<T, seq<T>>, t: T, e: seq<T>)
    requires t in u && t !in g && g.Keys <= u
    ensures g[t := e].Keys <= u && |u - g[t := e].Keys| < |u - g.Keys|
  {
    assert g[t := e].Keys == g.Keys + {t};
    assert u - g.Keys == (u - g[t := e].Keys) + {t};
  }

  // ---------------------------------------------------------------------
  // Properties of the verdicts
  // ---------------------------------------------------------------------

  /**
   * An abstract class leaves escaping edges only if some abstract class
   * among it and its ancestors has an edge within its own component.
   */
  lemma {:induction false} EscapingWitness(arena: Arena, cache: Option<Ty>, scc: map<Ty, nat>, t: Ty)
    requires WF(arena) && EscapingCCEdges(arena, cache, scc, t) == Ok(true)
    ensures exists c :: c in BaseClosure(arena, t) && IsAbstract(arena, c) == Ok(true) &&
                        AnySccEdges(arena, cache, scc, c) == Ok(true)
    decreases ClassRank(t), 1, 0
  {
    if AnySccEdges(arena, cache, scc, t) != Ok(true) {
      EscapingBasesWitness(arena, cache, scc, t, 0);
      var j, c :| 0 <= j < |Bases(arena, t)| && c in BaseClosure(arena, Bases(arena, t)[j]) &&
                  IsAbstract(arena, c) == Ok(true) && AnySccEdges(arena, cache, scc, c) == Ok(true);
      BasesClosureIff(arena, t, 0, c);
    }
  }

  lemma {:induction false} EscapingBasesWitness(arena: Arena, cache: Option<Ty>, scc: map<Ty, nat>, t: Ty, i: nat)
    requires WF(arena) && EscapingBases(arena, cache, scc, t, i) == Ok(true)
    ensures exists j, c :: i <= j < |Bases(arena, t)| && c in BaseClosure(arena, Bases(arena, t)[j]) &&
                           IsAbstract(arena, c) == Ok(true) && AnySccEdges(arena, cache, scc, c) == Ok(true)
    decreases ClassRank(t), 0, |Bases(arena, t)| - i
  {
    var bs := Bases(arena, t);
    if EscapingCCEdges(arena, cache, scc, bs[i]) == Ok(true) {
      EscapingWitness(arena, cache, scc, bs[i]);
    } else {
      EscapingBasesWitness(arena, cache, scc, t, i + 1);
    }
  }

  /**
   * A class needs collection only if it is concrete and it, or an abstract
   * ancestor, has an edge within its own component.
   */
  lemma ShouldBeCCedWitness(arena: Arena, cache: Option<Ty>, scc: map<Ty, nat>, t: Ty)
    requires WF(arena) && ShouldBeCCed(arena, cache, scc, t) == Ok(true)
    ensures !NameIs(arena, t, "nsISupports") && IsAbstract(arena, t) == Ok(false)
    ensures AnySccEdges(arena, cache, scc, t) == Ok(true) ||
            exists c :: c in BaseClosure(arena, t) && c != t && IsAbstract(arena, c) == Ok(true) &&
                        AnySccEdges(arena, cache, scc, c) == Ok(true)
  {
    if AnySccEdges(arena, cache, scc, t) != Ok(true) {
      EscapingBasesWitness(arena, cache, scc, t, 0);
      var j, c :| 0 <= j < |Bases(arena, t)| && c in BaseClosure(arena, Bases(arena, t)[j]) &&
                  IsAbstract(arena, c) == Ok(true) && AnySccEdges(arena, cache, scc, c) == Ok(true);
      BasesClosureIff(arena, t, 0, c);
      assert c != t by {
        assert IsAbstract(arena, t) == Ok(false);
      }
    }
  }

  /** The per-class checks behind a verdict that can abort: the abstractness test and the own-member scan. */
  ghost predicate VerdictScanFails(arena: Arena, cache: Option<Ty>, c: Ty) {
    IsAbstract(arena, c).Fatal? || OwnMembersScan(arena, cache, c, []).Fatal?
  }

  /** An aborting escape test has a cause on the class or one of its ancestors, whatever the numbering. */
  lemma {:induction false} EscapingFails(arena: Arena, cache: Option<Ty>, scc: map<Ty, nat>, t: Ty)
    requires WF(arena) && EscapingCCEdges(arena, cache, scc, t).Fatal?
    ensures exists c :: c in BaseClosure(arena, t) && VerdictScanFails(arena, cache, c)
    decreases ClassRank(t), 1, 0
  {
    if !VerdictScanFails(arena, cache, t) {
      EscapingBasesFails(arena, cache, scc, t, 0);
      var j, c :| 0 <= j < |Bases(arena, t)| && c in BaseClosure(arena, Bases(arena, t)[j]) &&
                  VerdictScanFails(arena, cache, c);
      BasesClosureIff(arena, t, 0, c);
    }
  }

  lemma {:induction false} EscapingBasesFails(arena: Arena, cache: Option<Ty>, scc: map<Ty, nat>, t: Ty, i: nat)
    requires WF(arena) && EscapingBases(arena, cache, scc, t, i).Fatal?
    ensures exists j, c :: i <= j < |Bases(arena, t)| && c in BaseClosure(arena, Bases(arena, t)[j]) &&
                           VerdictScanFails(arena, cache, c)
    decreases ClassRank(t), 0, |Bases(arena, t)| - i
  {
    var bs := Bases(arena, t);
    if EscapingCCEdges(arena, cache, scc, bs[i]).Fatal? {
      EscapingFails(arena, cache, scc, bs[i]);
    } else {
      EscapingBasesFails(arena, cache, scc, t, i + 1);
    }
  }

  /**
   * `should_be_cced` aborts only when the abstractness test or the own-member
   * scan aborts on the class or one of its ancestors, whatever the numbering.
   */
  lemma ShouldBeCCedFails(arena: Arena, cache: Option<Ty>, scc: map<Ty, nat>, t: Ty)
    requires WF(arena) && ShouldBeCCed(arena, cache, scc, t).Fatal?
    ensures exists c :: c in BaseClosure(arena, t) && VerdictScanFails(arena, cache, c)
  {
    if !VerdictScanFails(arena, cache, t) {
      EscapingBasesFails(arena, cache, scc, t, 0);
      var j, c :| 0 <= j < |Bases(arena, t)| && c in BaseClosure(arena, Bases(arena, t)[j]) &&
                  VerdictScanFails(arena, cache, c);
      BasesClosureIff(arena, t, 0, c);
    }
  }

  /** A class has a same-component edge exactly when one of its own fields points into its component. */
  lemma AnySccEdgesIff(arena: Arena, cache: Option<Ty>, scc: map<Ty, nat>, t: Ty)
    requires OwnMembersScan(arena, cache, t, []).Ok?
    ensures AnySccEdges(arena, cache, scc, t) == Ok(true) <==>
            Members(arena, t).Some? &&
            exists k, x :: 0 <= k < |Members(arena, t).value| &&
                           EdgeTarget(arena, cache, Members(arena, t).value[k]) == Ok(Some(x)) && SccOf(scc, x) == SccOf(scc, t)
  {
    var es := ClassSccEdges(arena, cache, scc, t).value;
    if Members(arena, t).Some? {
      var ms := Members(arena, t).value;
      if exists k, x :: 0 <= k < |ms| && EdgeTarget(arena, cache, ms[k]) == Ok(Some(x)) && SccOf(scc, x) == SccOf(scc, t) {
        var k, x :| 0 <= k < |ms| && EdgeTarget(arena, cache, ms[k]) == Ok(Some(x)) && SccOf(scc, x) == SccOf(scc, t);
        assert x in es;
      }
      if |es| != 0 {
        assert es[0] in es;
      }
    }
  }

  /** The printed pointee list is empty exactly for no pointees, or one pointee with an empty name. */
  lemma JoinNamesEmpty(arena: Arena, a: seq<Ty>)
    ensures JoinNames(arena, a) == "" <==> |a| == 0 || (|a| == 1 && Name(arena, a[0]) == Some(""))
  {
  }

  /** Appending a class appends ", " and its name (just its name to an empty list). */
  lemma JoinNamesSnoc(arena: Arena, a: seq<Ty>, x: Ty)
    ensures JoinNames(arena, a + [x]) == if |a| == 0 then NameText(arena, x) else JoinNames(arena, a) + ", " + NameText(arena, x)
  {
    assert (a + [x])[..|a|] == a;
  }

  /** OK::NO is reported only for a class with at least one pointee. */
  lemma OkNoHasPointees(should: bool, isCC: bool, arena: Arena, p: seq<Ty>)
    requires ChooseVerdict(should, isCC, JoinNames(arena, p)) == OkNo
    ensures |p| > 0
  {
  }

  // ---------------------------------------------------------------------
  // The audit's state and its operations
  // ---------------------------------------------------------------------

  class Analysis {
    const arena: Arena
    /** Every nsISupports subclass met, each once. */
    var typelist: seq<Ty>
    /** The JavaScript-exposed classes met, at most one per name. */
    var jsExposedTypes: seq<Ty>
    /** Immediate recorded subtypes of each class. */
    var subtypes: map<Ty, seq<Ty>>
    /** Classes owning a cycle-collector helper class. */
    var cctypes: seq<Ty>
    /** The first nsIContent declaration met. */
    var contentCache: Option<Ty>

    ghost predicate Valid()
      reads this
    {
      WF(arena) && NoDup(typelist) &&
      (forall u :: u in typelist ==> !u.Typedef? && IsNsISupports(arena, u) == Ok(true)) &&
      (forall u :: u in jsExposedTypes ==> u in typelist && IsJsExposed(arena, u)) &&
      DistinctNames(arena, jsExposedTypes) &&
      SubtypesOk(subtypes) &&
      (contentCache.Some? ==> NameIs(arena, contentCache.value, "nsIContent"))
    }

    constructor(arena: Arena)
      requires WF(arena)
      ensures Valid() && this.arena == arena
      ensures typelist == [] && jsExposedTypes == [] && subtypes == map[] && cctypes == [] && contentCache == None
    {
      this.arena := arena;
      typelist := [];
      jsExposedTypes := [];
      subtypes := map[];
      cctypes := [];
      contentCache := None;
    }

    /** The state the declaration pass builds. */
    function Snap(): Snapshot
      reads this
    {
      Snapshot(typelist, jsExposedTypes, subtypes, cctypes, contentCache)
    }

    /**
     * Whether `t` is nsISupports or derives from it, recording the classes
     * on the way to nsISupports in `typelist`, and a JavaScript-exposed one
     * in `jsExposedTypes` unless one of that name is there. Nothing is
     * recorded unless the answer is true.
     */
    method InterestingType(t: Ty) returns (r: Res<bool>)
      requires Valid()
      modifies this`typelist, this`jsExposedTypes
      ensures Valid()
      ensures r == IsNsISupports(arena, t)
      ensures r != Ok(true) ==> typelist == old(typelist) && jsExposedTypes == old(jsExposedTypes)
      ensures r == Ok(true) ==>
        typelist == RecordTypes(old(typelist), SupportsPath(arena, t)) &&
        jsExposedTypes == RecordExposed(arena, old(jsExposedTypes), SupportsPath(arena, t))
      decreases ClassRank(t), Size(t)
    {
      if Name(arena, t).None? {
        return Ok(false);
      }
      if t.Typedef? {
        r := InterestingType(t.target);
        return;
      }
      if NameIs(arena, t, "nsISupports") {
        AddType(t);
        assert [t][..0] == [];
        return Ok(true);
      }
      r := InterestingBases(t);
    }

    /** The base-class search of InterestingType: the first base deriving from nsISupports records `t` after its own path. */
    method InterestingBases(t: Ty) returns (r: Res<bool>)
      requires Valid() && !t.Typedef? && Name(arena, t).Some? && !NameIs(arena, t, "nsISupports")
      modifies this`typelist, this`jsExposedTypes
      ensures Valid()
      ensures r == BasesNsISupports(arena, t, 0)
      ensures r != Ok(true) ==> typelist == old(typelist) && jsExposedTypes == old(jsExposedTypes)
      ensures r == Ok(true) ==>
        typelist == RecordTypes(old(typelist), BasesPath(arena, t, 0) + [t]) &&
        jsExposedTypes == RecordExposed(arena, old(jsExposedTypes), BasesPath(arena, t, 0) + [t])
      decreases ClassRank(t), 0
    {
      var bs := Bases(arena, t);
      var i := 0;
      while i < |bs|
        invariant i <= |bs|
        invariant Valid()
        invariant BasesNsISupports(arena, t, i) == BasesNsISupports(arena, t, 0)
        invariant BasesNsISupports(arena, t, 0) == Ok(true) ==> BasesPath(arena, t, i) == BasesPath(arena, t, 0)
        invariant typelist == old(typelist) && jsExposedTypes == old(jsExposedTypes)
      {
        if Name(arena, bs[i]).None? {
          return Fatal("Nameless type on a subcall.");
        }
        var b := InterestingType(bs[i]);
        if b.Fatal? {
          return Fatal(b.msg);
        }
        if b.value {
          ghost var path := BasesPath(arena, t, 0);
          assert path == SupportsPath(arena, bs[i]);
          Record(t);
          assert (path + [t])[..|path|] == path;
          return Ok(true);
        }
        i := i + 1;
      }
      return Ok(false);
    }

    /** Records a class found to derive from nsISupports, and it as JavaScript-exposed when its name is new there. */
    method Record(t: Ty)
      requires Valid() && !t.Typedef? && IsNsISupports(arena, t) == Ok(true)
      modifies this`typelist, this`jsExposedTypes
      ensures Valid()
      ensures typelist == AddAbsent(old(typelist), t)
      ensures jsExposedTypes == if IsJsExposed(arena, t) && !HasName(arena, old(jsExposedTypes), Name(arena, t))
                                then old(jsExposedTypes) + [t] else old(jsExposedTypes)
      ensures IsJsExposed(arena, t) ==> HasName(arena, jsExposedTypes, Name(arena, t))
    {
      AddType(t);
      if IsJsExposed(arena, t) && !HasName(arena, jsExposedTypes, Name(arena, t)) {
        jsExposedTypes := jsExposedTypes + [t];
        assert jsExposedTypes[|jsExposedTypes| - 1] == t;
      }
    }

    /** Records a class found to derive from nsISupports in the type list, once. */
    method AddType(t: Ty)
      requires Valid() && !t.Typedef? && IsNsISupports(arena, t) == Ok(true)
      modifies this`typelist
      ensures Valid() && typelist == AddAbsent(old(typelist), t)
    {
      typelist := AddAbsent(typelist, t);
    }

    /** Records `subt` as an immediate subtype of `t`, once; a subtype that is neither a class nor a typedef aborts. */
    method AddSubtype(t: Ty, subt: Ty) returns (r: Res<()>)
      requires SubtypesOk(subtypes)
      modifies this`subtypes
      ensures SubtypesOk(subtypes)
      ensures r.Ok? <==> subt.Class? || subt.Typedef?
      ensures subtypes == if r.Ok? then old(subtypes)[t := AddAbsent(Subs(old(subtypes), t), subt)] else old(subtypes)
    {
      if !subt.Class? && !subt.Typedef? {
        return Fatal("Unexpected subtype: not class or typedef");
      }
      subtypes := subtypes[t := AddAbsent(Subs(subtypes, t), subt)];
      return Ok(());
    }

    /** Records `t` as an immediate subtype of each of its bases. */
    method AddSubtypeEdges(t: Ty)
      requires SubtypesOk(subtypes)
      modifies this`subtypes
      ensures SubtypesOk(subtypes)
      ensures subtypes == AddEdges(old(subtypes), t, Bases(arena, t))
    {
      var bs := Bases(arena, t);
      var i := 0;
      while i < |bs|
        invariant i <= |bs|
        invariant SubtypesOk(subtypes)
        invariant subtypes == AddEdges(old(subtypes), t, bs[..i])
      {
        ghost var mid := subtypes;
        var a := AddSubtype(bs[i], t);
        assert t.Class? && a.Ok?;
        AddEdgesPrefix(old(subtypes), t, bs, i);
        i := i + 1;
      }
      assert bs[..i] == bs;
    }

    /**
     * Handles one type declaration: typedefs and nameless types are ignored;
     * a collector helper class records its enclosing class; otherwise the
     * first nsIContent is cached, and a subclass of nsISupports is recorded
     * with the classes on its way to nsISupports, and as a subtype of each
     * of its bases.
     */
    method ProcessType(t: Ty) returns (r: Res<()>)
      requires Valid()
      modifies this`typelist, this`jsExposedTypes, this`subtypes, this`cctypes, this`contentCache
      ensures Valid()
      ensures r.Fatal? <==> DeclFails(arena, t)
      ensures Snap() == DeclStep(arena, old(Snap()), t)
    {
      ghost var s0 := Snap();
      if t.Typedef? || Name(arena, t).None? {
        return Ok(());
      }
      if IsCCInnerClass(arena, t) {
        r := ProcessHelper(t);
        DeclStepHelper(arena, s0, t);
      } else {
        r := ProcessClass(t);
        DeclStepOther(arena, s0, t);
      }
    }

    /** A collector helper class registers its enclosing class as a participant. */
    method ProcessHelper(t: Ty) returns (r: Res<()>)
      requires Valid() && !t.Typedef? && Name(arena, t).Some? && IsCCInnerClass(arena, t)
      modifies this`cctypes
      ensures Valid()
      ensures (r.Ok? <==> MemberOf(arena, t).Some?) &&
              cctypes == (if r.Ok? then old(cctypes) + [MemberOf(arena, t).value] else old(cctypes))
    {
      var mo := MemberOf(arena, t);
      if mo.None? {
        return Fatal("Expected cycle collector helper class to be the member of another class.");
      }
      cctypes := cctypes + [mo.value];
      return Ok(());
    }

    /** Any other named class: caches nsIContent, and records the class and its base edges when it derives from nsISupports. */
    method ProcessClass(t: Ty) returns (r: Res<()>)
      requires Valid() && !t.Typedef? && Name(arena, t).Some? && !IsCCInnerClass(arena, t)
      modifies this`typelist, this`jsExposedTypes, this`subtypes, this`contentCache
      ensures Valid()
      ensures contentCache == (if old(contentCache).None? && NameIs(arena, t, "nsIContent") then Some(t) else old(contentCache))
      ensures r.Fatal? <==> IsNsISupports(arena, t).Fatal?
      ensures IsNsISupports(arena, t) == Ok(true) ==>
        typelist == RecordTypes(old(typelist), SupportsPath(arena, t)) &&
        jsExposedTypes == RecordExposed(arena, old(jsExposedTypes), SupportsPath(arena, t)) &&
        subtypes == AddEdges(old(subtypes), t, Bases(arena, t))
      ensures IsNsISupports(arena, t) != Ok(true) ==>
        typelist == old(typelist) && jsExposedTypes == old(jsExposedTypes) && subtypes == old(subtypes)
    {
      if contentCache.None? && NameIs(arena, t, "nsIContent") {
        contentCache := Some(t);
      }
      var i := InterestingType(t);
      if i.Fatal? {
        return Fatal(i.msg);
      }
      if i.value {
        AddSubtypeEdges(t);
      }
      return Ok(());
    }

    /**
     * Feeds a sequence of declarations to ProcessType, stopping at the first
     * failure. A run that does not abort leaves exactly the state the
     * declarations build, with each of them processed.
     */
    method ProcessAll(decls: seq<Ty>) returns (r: Res<()>)
      requires Valid()
      modifies this`typelist, this`jsExposedTypes, this`subtypes, this`cctypes, this`contentCache
      ensures Valid()
      ensures r.Fatal? <==> exists k :: 0 <= k < |decls| && DeclFails(arena, decls[k])
      ensures r.Ok? ==> Snap() == DeclsStep(arena, old(Snap()), decls)
      ensures r.Ok? ==> forall k :: 0 <= k < |decls| ==> Processed(arena, typelist, cctypes, decls[k])
      ensures r.Ok? ==> cctypes == old(cctypes) + HelperOwners(arena, decls)
      ensures r.Ok? && old(contentCache).None? ==>
        (contentCache.Some? <==> AnyContent(arena, decls)) &&
        (contentCache.Some? ==> exists k :: FirstContentAt(arena, decls, k) && contentCache.value == decls[k])
    {
      ghost var s0 := Snap();
      var i := 0;
      while i < |decls|
        invariant i <= |decls|
        invariant Valid()
        invariant Snap() == DeclsStep(arena, s0, decls[..i])
        invariant NoneFails(arena, decls[..i])
      {
        r := ProcessType(decls[i]);
        if r.Fatal? {
          assert DeclFails(arena, decls[i]);
          return;
        }
        NoneFailsSnoc(arena, decls[..i], decls[i]);
        assert decls[..i + 1] == decls[..i] + [decls[i]];
        i := i + 1;
      }
      assert decls[..i] == decls;
      DeclsStepSummary(arena, s0, decls);
      return Ok(());
    }

    // -------------------------------------------------------------------
    // Pointees and the class graph
    // -------------------------------------------------------------------

    /** The pointees of members `ms`, in order, appended to `ans` without repeats. */
    method ScanMembers(ms: seq<Member>, ans: seq<Ty>) returns (r: Res<seq<Ty>>)
      ensures r == OwnScan(arena, contentCache, ms, 0, ans)
    {
      var a := ans;
      var k := 0;
      while k < |ms|
        invariant k <= |ms|
        invariant OwnScan(arena, contentCache, ms, k, a) == OwnScan(arena, contentCache, ms, 0, ans)
      {
        var m := ms[k];
        if !m.isFunction && m.name !in FieldWhitelist {
          match PtrTypeContains(arena, contentCache, m.ty) {
            case Found(x) => a := AddAbsent(a, x);
            case Absent =>
            case CacheEmpty => return Fatal(CacheEmptyMessage);
            case Broken(e) => return Fatal(e);
          }
        }
        k := k + 1;
      }
      return Ok(a);
    }

    /** If `t` is JavaScript-exposed, adds every JavaScript-exposed class seen that `ans` lacks. */
    method AddJsExposedTo(t: Ty, ans: seq<Ty>) returns (r: seq<Ty>)
      ensures r == AddJsExposed(arena, jsExposedTypes, t, ans)
    {
      r := ans;
      if IsJsExposed(arena, t) {
        var js := jsExposedTypes;
        var k := 0;
        while k < |js|
          invariant k <= |js|
          invariant AddAllAbsent(r, js[k..]) == AddAllAbsent(ans, js)
        {
          AddAllAbsentStep(r, js, k);
          r := AddAbsent(r, js[k]);
          k := k + 1;
        }
      }
    }

    /** Accumulates the pointees of `t` and of its bases onto `ans`. */
    method DoFindPointees(t: Ty, ans: seq<Ty>) returns (r: Res<seq<Ty>>)
      requires WF(arena)
      ensures r == Pointees(arena, contentCache, jsExposedTypes, t, ans)
      decreases ClassRank(t)
    {
      var own: Res<seq<Ty>> := Ok(ans);
      if Members(arena, t).Some? {
        own := ScanMembers(Members(arena, t).value, ans);
      }
      if own.Fatal? {
        return Fatal(own.msg);
      }
      var a := AddJsExposedTo(t, own.value);
      var bs := Bases(arena, t);
      var i := 0;
      while i < |bs|
        invariant i <= |bs|
        invariant BasesScan(arena, contentCache, jsExposedTypes, t, i, a) == Pointees(arena, contentCache, jsExposedTypes, t, ans)
      {
        var p := DoFindPointees(bs[i], a);
        if p.Fatal? {
          return Fatal(p.msg);
        }
        a := p.value;
        i := i + 1;
      }
      return Ok(a);
    }

    /** The duplicate-free list of classes `t` (with its bases) may hold a counted reference to. */
    method FindPointees(t: Ty) returns (r: Res<seq<Ty>>)
      requires WF(arena)
      ensures r == Pointees(arena, contentCache, jsExposedTypes, t, [])
    {
      r := DoFindPointees(t, []);
    }

    /** Extends `tt`, while walking it, with the recorded subtypes of each entry it lacks. */
    method AddSubclasses(tt: seq<Ty>) returns (r: seq<Ty>)
      ensures SubclassClosure(subtypes, tt, r)
    {
      ghost var U := SubVals(subtypes);
      ghost var added: set<Ty> := {};
      r := tt;
      var i := 0;
      while i < |r|
        invariant i <= |r|
        invariant Derived(subtypes, tt, r)
        invariant added <= U && |r| == |tt| + |added| && forall x :: x in added ==> x in r
        invariant ClosedBelow(subtypes, r, i)
        decreases |tt| + |U| - i
      {
        PathScc.SubsetCard(added, U);
        var t := r[i];
        var subs := Subs(subtypes, t);
        var k := 0;
        while k < |subs|
          invariant k <= |subs| && i < |r| && r[i] == t
          invariant Derived(subtypes, tt, r)
          invariant added <= U && |r| == |tt| + |added| && forall x :: x in added ==> x in r
          invariant ClosedBelow(subtypes, r, i)
          invariant forall q :: 0 <= q < k ==> subs[q] in r
        {
          var u := subs[k];
          if u !in r {
            InSubVals(subtypes, t, u);
            AppendDerived(subtypes, tt, r, i, u);
            AddFresh(added, u);
            AppendKeeps(r, u);
            CoveredStep(subs, k, r, u);
            r := r + [u];
            added := added + {u};
          } else {
            CoveredKeep(subs, k, r);
          }
          k := k + 1;
        }
        ClosedBelowNext(subtypes, r, i);
        i := i + 1;
      }
    }

    /** The classes `t` may reach in one step: its pointees, closed under recorded subtypes. */
    method NextClasses(t: Ty) returns (r: Res<seq<Ty>>)
      requires WF(arena)
      ensures r.Fatal? <==> Pointees(arena, contentCache, jsExposedTypes, t, []).Fatal?
      ensures r.Ok? ==> IsNextClasses(arena, contentCache, jsExposedTypes, subtypes, t, r.value)
    {
      var p := FindPointees(t);
      if p.Fatal? {
        return Fatal(p.msg);
      }
      var e := AddSubclasses(p.value);
      return Ok(e);
    }

    /**
     * The "may hold a reference to" graph over every class reachable from
     * `typelist`, each node's successors being its `next_classes` answer.
     */
    method BuildGraph() returns (r: Res<map<Ty, seq<Ty>>>)
      requires WF(arena)
      ensures r.Ok? ==> PathScc.Closed(r.value) && NextGraph(arena, contentCache, jsExposedTypes, subtypes, r.value)
      ensures r.Ok? ==> forall k :: 0 <= k < |typelist| ==> typelist[k] in r.value
      ensures r.Fatal? ==> exists t :: Pointees(arena, contentCache, jsExposedTypes, t, []).Fatal?
    {
      ghost var U := Universe(arena, contentCache, jsExposedTypes, subtypes, typelist);
      var g: map<Ty, seq<Ty>> := map[];
      var work := typelist;
      while |work| > 0
        invariant BuildInv(arena, contentCache, jsExposedTypes, subtypes, typelist, U, g, work)
        decreases |U - g.Keys|, |work|
      {
        var t := work[|work| - 1];
        ghost var w0 := work;
        work := work[..|work| - 1];
        if t !in g {
          var e := NextClasses(t);
          if e.Fatal? {
            return Fatal(e.msg);
          }
          NextInUniverse(arena, contentCache, jsExposedTypes, subtypes, typelist, t, e.value);
          VisitStep(arena, contentCache, jsExposedTypes, subtypes, typelist, U, g, w0, e.value);
          g := g[t := e.value];
          work := work + e.value;
        } else {
          SkipStep(arena, contentCache, jsExposedTypes, subtypes, typelist, U, g, w0);
        }
      }
      FrontierDone(g, typelist);
      return Ok(g);
    }

    /** Numbers the strongly connected components of the class graph. */
    method FindCyclicClasses() returns (r: Res<Cycles>)
      requires WF(arena)
      ensures r.Ok? ==> CyclesOk(arena, contentCache, jsExposedTypes, subtypes, typelist, r.value)
      ensures r.Fatal? ==> exists t :: Pointees(arena, contentCache, jsExposedTypes, t, []).Fatal?
    {
      var g := BuildGraph();
      if g.Fatal? {
        return Fatal(g.msg);
      }
      var scc := PathScc.FindCyclicClasses(g.value, typelist);
      return Ok(Cycles(g.value, scc));
    }

    /** The verdict for one class, with its pointees and, for the BAD verdicts, its same-component edges. */
    method AnalyzeCCResult(scc: map<Ty, nat>, t: Ty) returns (r: Res<Report>)
      requires WF(arena)
      ensures r.Ok? ==> r.value.cls == t && ReportOk(arena, contentCache, jsExposedTypes, cctypes, scc, r.value)
      ensures r.Fatal? <==>
                Pointees(arena, contentCache, jsExposedTypes, t, []).Fatal? || ShouldBeCCed(arena, contentCache, scc, t).Fatal?
    {
      var p := FindPointees(t);
      if p.Fatal? {
        return Fatal(p.msg);
      }
      var nc := TypeArrayString(arena, p.value);
      var isCC := IsCC(cctypes, t);
      var should := ShouldBeCCed(arena, contentCache, scc, t);
      if should.Fatal? {
        return Fatal(should.msg);
      }
      var v := ChooseVerdict(should.value, isCC, nc);
      var edges: seq<Ty> := [];
      if IsBad(v) {
        // the same member scan already succeeded inside FindPointees
        var e := ClassSccEdges(arena, contentCache, scc, t);
        assert e.Ok?;
        edges := e.value;
      }
      return Ok(Report(t, v, p.value, edges));
    }

    /** The end of the input: find the cycles, then report on every recorded class in order. */
    method InputEnd() returns (r: Res<Audit>)
      requires Valid()
      ensures r.Ok? ==> CyclesOk(arena, contentCache, jsExposedTypes, subtypes, typelist, r.value.cycles)
      ensures r.Ok? ==> |r.value.reports| == |typelist|
      ensures r.Ok? ==> forall k :: 0 <= k < |typelist| ==>
                          (r.value.reports[k].cls == typelist[k] &&
                           ReportOk(arena, contentCache, jsExposedTypes, cctypes, r.value.cycles.scc, r.value.reports[k]))
      ensures r.Fatal? ==>
                (exists t :: Pointees(arena, contentCache, jsExposedTypes, t, []).Fatal?) ||
                exists k, c :: 0 <= k < |typelist| && c in BaseClosure(arena, typelist[k]) &&
                               VerdictScanFails(arena, contentCache, c)
    {
      var c := FindCyclicClasses();
      if c.Fatal? {
        return Fatal(c.msg);
      }
      var reports: seq<Report> := [];
      var i := 0;
      while i < |typelist|
        invariant i <= |typelist| && |reports| == i
        invariant forall k :: 0 <= k < i ==>
                    (reports[k].cls == typelist[k] && ReportOk(arena, contentCache, jsExposedTypes, cctypes, c.value.scc, reports[k]))
      {
        var rep := AnalyzeCCResult(c.value.scc, typelist[i]);
        if rep.Fatal? {
          if ShouldBeCCed(arena, contentCache, c.value.scc, typelist[i]).Fatal? {
            ShouldBeCCedFails(arena, contentCache, c.value.scc, typelist[i]);
          }
          return Fatal(rep.msg);
        }
        reports := reports + [rep.value];
        i := i + 1;
      }
      return Ok(Audit(c.value, reports));
    }
  }
}
