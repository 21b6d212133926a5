/**
 * The library shared by the two cycle-collection audits: recognising
 * cycle-collector helper classes and nsISupports subclasses, finding the
 * class a reference-counted container points to, classifying fields as
 * certain or suspect owning pointers, and abstractness.
 */
module CCBase {
  import opened TypeModel

  // ---------------------------------------------------------------------
  // Cycle-collected classes and collector helper classes
  // ---------------------------------------------------------------------

  /** The base classes of every cycle-collector helper ("participant") class. */
  const ParticipantBaseNames: set<string> :=
    {"nsXPCOMCycleCollectionParticipant", "nsCycleCollectionParticipant", "nsScriptObjectTracer"}

  /** A class is cycle collected when a helper class nested in it has been seen. */
  predicate IsCC(cctypes: seq<Ty>, t: Ty) {
    t in cctypes
  }

  predicate IsCCInnerClassBase(arena: Arena, t: Ty) {
    Name(arena, t).Some? && Name(arena, t).value in ParticipantBaseNames
  }

  /**
   * Whether `t`, after following typedefs, is nsISupports or derives from it.
   * Bases are tried in order; a nameless base reached before a positive
   * answer aborts the run.
   */
  function IsNsISupports(arena: Arena, t: Ty): (r: Res<bool>)
    requires WF(arena)
    decreases ClassRank(t), Size(t), 0
  {
    if Name(arena, t).None? then Ok(false)
    else if t.Typedef? then IsNsISupports(arena, t.target)
    else if NameIs(arena, t, "nsISupports") then Ok(true)
    else BasesNsISupports(arena, t, 0)
  }

  function BasesNsISupports(arena: Arena, t: Ty, i: nat): Res<bool>
    requires WF(arena)
    decreases ClassRank(t), 0, |Bases(arena, t)| - i
  {
    var bs := Bases(arena, t);
    if i >= |bs| then Ok(false)
    else if Name(arena, bs[i]).None? then Fatal("Nameless type on a subcall.")
    else match IsNsISupports(arena, bs[i])
      case Fatal(m) => Fatal(m)
      case Ok(true) => Ok(true)
      case Ok(false) => BasesNsISupports(arena, t, i + 1)
  }

  /** One step of the nsISupports search: from a named typedef to its target, from a named class to a base. */
  predicate SupportsStep(arena: Arena, t: Ty, u: Ty) {
    Name(arena, t).Some? && (if t.Typedef? then u == t.target else u in Bases(arena, t))
  }

  ghost predicate IsSupportsChain(arena: Arena, c: seq<Ty>) {
    forall k :: 0 <= k < |c| - 1 ==> SupportsStep(arena, c[k], c[k + 1])
  }

  /** Reference definition: a chain of typedef targets and bases leads from `t` to the class nsISupports. */
  ghost predicate ReachesNsISupports(arena: Arena, t: Ty) {
    exists c: seq<Ty> :: |c| > 0 && c[0] == t && IsSupportsChain(arena, c)
                         && !c[|c| - 1].Typedef? && NameIs(arena, c[|c| - 1], "nsISupports")
  }

  /** When the search does not abort, it answers true exactly when nsISupports is reachable. */
  lemma IsNsISupportsIff(arena: Arena, t: Ty)
    requires WF(arena) && IsNsISupports(arena, t).Ok?
    ensures IsNsISupports(arena, t).value <==> ReachesNsISupports(arena, t)
  {
    if IsNsISupports(arena, t).value {
      SupportsHasChain(arena, t);
    }
    if ReachesNsISupports(arena, t) {
      var c: seq<Ty> :| |c| > 0 && c[0] == t && IsSupportsChain(arena, c)
                        && !c[|c| - 1].Typedef? && NameIs(arena, c[|c| - 1], "nsISupports");
      ChainReachesSupports(arena, c);
    }
  }

  lemma {:induction false} SupportsHasChain(arena: Arena, t: Ty)
    requires WF(arena) && IsNsISupports(arena, t) == Ok(true)
    ensures ReachesNsISupports(arena, t)
    decreases ClassRank(t), Size(t)
  {
    if NameIs(arena, t, "nsISupports") && !t.Typedef? {
      assert IsSupportsChain(arena, [t]);
    } else {
      var next: Ty;
      if t.Typedef? {
        next := t.target;
      } else {
        var j := BasesFindOne(arena, t, 0);
        next := Bases(arena, t)[j];
      }
      SupportsHasChain(arena, next);
      var c: seq<Ty> :| |c| > 0 && c[0] == next && IsSupportsChain(arena, c)
                        && !c[|c| - 1].Typedef? && NameIs(arena, c[|c| - 1], "nsISupports");
      var c' := [t] + c;
      assert c'[|c'| - 1] == c[|c| - 1];
      forall k | 0 <= k < |c'| - 1
        ensures SupportsStep(arena, c'[k], c'[k + 1])
      {
        if k > 0 { assert c'[k] == c[k - 1] && c'[k + 1] == c[k]; }
      }
    }
  }

  /** A positive base search names the base that answered true. */
  lemma {:induction false} BasesFindOne(arena: Arena, t: Ty, i: nat) returns (j: nat)
    requires WF(arena) && BasesNsISupports(arena, t, i) == Ok(true)
    ensures i <= j < |Bases(arena, t)| && IsNsISupports(arena, Bases(arena, t)[j]) == Ok(true)
    decreases |Bases(arena, t)| - i
  {
    if IsNsISupports(arena, Bases(arena, t)[i]) == Ok(true) {
      j := i;
    } else {
      j := BasesFindOne(arena, t, i + 1);
    }
  }

  /** A negative base search saw every base answer false. */
  lemma {:induction false} BasesAllFalse(arena: Arena, t: Ty, i: nat)
    requires WF(arena) && BasesNsISupports(arena, t, i) == Ok(false)
    ensures forall j :: i <= j < |Bases(arena, t)| ==> IsNsISupports(arena, Bases(arena, t)[j]) == Ok(false)
    decreases |Bases(arena, t)| - i
  {
    if i < |Bases(arena, t)| {
      BasesAllFalse(arena, t, i + 1);
    }
  }

  lemma {:induction false} ChainReachesSupports(arena: Arena, c: seq<Ty>)
    requires WF(arena) && |c| > 0 && IsSupportsChain(arena, c)
    requires !c[|c| - 1].Typedef? && NameIs(arena, c[|c| - 1], "nsISupports")
    requires IsNsISupports(arena, c[0]).Ok?
    ensures IsNsISupports(arena, c[0]) == Ok(true)
    decreases |c|
  {
    var t := c[0];
    if |c| > 1 && !(NameIs(arena, t, "nsISupports") && !t.Typedef?) {
      assert SupportsStep(arena, c[0], c[1]);
      var tail := c[1..];
      assert tail[|tail| - 1] == c[|c| - 1];
      forall k | 0 <= k < |tail| - 1
        ensures SupportsStep(arena, tail[k], tail[k + 1])
      {
        assert tail[k] == c[k + 1] && tail[k + 1] == c[k + 2];
      }
      if t.Typedef? {
        ChainReachesSupports(arena, tail);
      } else if BasesNsISupports(arena, t, 0) == Ok(false) {
        BasesAllFalse(arena, t, 0);
        var j :| 0 <= j < |Bases(arena, t)| && Bases(arena, t)[j] == c[1];
        ChainReachesSupports(arena, tail);
        assert false;
      } else {
        assert IsNsISupports(arena, t) == BasesNsISupports(arena, t, 0);
        assert BasesNsISupports(arena, t, 0).Ok? && BasesNsISupports(arena, t, 0).value;
      }
    }
  }

  /**
   * The test for a helper class's single-inheritance ancestor, AS WRITTEN in
   * the source: a typedef is resolved with IsNsISupports instead of with this
   * function itself.
   */
  function IsCCInnerClassParentAsWritten(arena: Arena, t: Ty): Res<bool>
    requires WF(arena)
    decreases ClassRank(t), Size(t)
  {
    if Name(arena, t).None? then Ok(false)
    else if t.Typedef? then IsNsISupports(arena, t.target)
    else if IsCCInnerClassBase(arena, t) then Ok(true)
    else if |Bases(arena, t)| != 1 then Ok(false)
    else IsCCInnerClassParentAsWritten(arena, Bases(arena, t)[0])
  }

  /**
   * The corrected ancestor test: a typedef is followed to its target, and the
   * single-base chain is searched for one of the participant base classes.
   */
  function IsCCInnerClassParent(arena: Arena, t: Ty): bool
    requires WF(arena)
    decreases ClassRank(t), Size(t)
  {
    if Name(arena, t).None? then false
    else if t.Typedef? then IsCCInnerClassParent(arena, t.target)
    else if IsCCInnerClassBase(arena, t) then true
    else if |Bases(arena, t)| != 1 then false
    else IsCCInnerClassParent(arena, Bases(arena, t)[0])
  }

  /**
   * A helper whose single base is a typedef naming a participant base class:
   * as written the typedef is tested for nsISupports and the helper's parent
   * is rejected; the corrected test accepts it.
   */
  lemma TypedefParentRejectedAsWritten()
    ensures var arena := [ClassDecl(Some("nsXPCOMCycleCollectionParticipant"), ClassKind, [], None, None)];
            var parent := Typedef("Participant", Class(0, None));
      && WF(arena)
      && IsCCInnerClassParentAsWritten(arena, parent) == Ok(false)
      && IsCCInnerClassParent(arena, parent)
  {
    var arena := [ClassDecl(Some("nsXPCOMCycleCollectionParticipant"), ClassKind, [], None, None)];
    assert IsNsISupports(arena, Class(0, None)) == Ok(false) by {
      assert BasesNsISupports(arena, Class(0, None), 0) == Ok(false);
    }
    assert IsCCInnerClassParent(arena, Class(0, None));
  }

  /** A typedef occurs on the chain the ancestor test walks from `t`. */
  predicate TypedefOnChain(arena: Arena, t: Ty)
    requires WF(arena)
    decreases ClassRank(t), Size(t)
  {
    if Name(arena, t).None? then false
    else if t.Typedef? then true
    else if IsCCInnerClassBase(arena, t) || |Bases(arena, t)| != 1 then false
    else TypedefOnChain(arena, Bases(arena, t)[0])
  }

  /** The ancestor test as written and the corrected one agree wherever no typedef is on the chain. */
  lemma {:induction false} ParentAgreesWithoutTypedef(arena: Arena, t: Ty)
    requires WF(arena) && !TypedefOnChain(arena, t)
    ensures IsCCInnerClassParentAsWritten(arena, t) == Ok(IsCCInnerClassParent(arena, t))
    decreases ClassRank(t), Size(t)
  {
    if Name(arena, t).Some? && !IsCCInnerClassBase(arena, t) && |Bases(arena, t)| == 1 {
      ParentAgreesWithoutTypedef(arena, Bases(arena, t)[0]);
    }
  }

  /** A cycle-collector helper class: not a participant base itself, exactly one base, a participant ancestor. */
  function IsCCInnerClass(arena: Arena, t: Ty): bool
    requires WF(arena)
  {
    if IsCCInnerClassBase(arena, t) then false
    else if |Bases(arena, t)| != 1 then false
    else IsCCInnerClassParent(arena, Bases(arena, t)[0])
  }

  /** A helper class is exactly a non-participant class with one base, from which a participant chain starts. */
  lemma IsCCInnerClassIff(arena: Arena, t: Ty)
    requires WF(arena)
    ensures IsCCInnerClass(arena, t)
            <==> (!IsCCInnerClassBase(arena, t) && |Bases(arena, t)| == 1
                  && ParticipantChain(arena, Bases(arena, t)[0]))
  {
    if !IsCCInnerClassBase(arena, t) && |Bases(arena, t)| == 1 {
      ParentIsChain(arena, Bases(arena, t)[0]);
    }
  }

  /** The next type on a helper class's ancestor chain: a typedef's target or the single base. */
  function ChainStep(arena: Arena, t: Ty): Option<Ty> {
    if t.Typedef? then Some(t.target)
    else if |Bases(arena, t)| == 1 then Some(Bases(arena, t)[0])
    else None
  }

  /** The chain continues past `t`: it is named, not itself a participant base, and has a next type. */
  predicate CanStep(arena: Arena, t: Ty) {
    Name(arena, t).Some? && (t.Typedef? || !IsCCInnerClassBase(arena, t)) && ChainStep(arena, t).Some?
  }

  predicate EndsChain(arena: Arena, t: Ty) {
    IsCCInnerClassBase(arena, t) && !t.Typedef?
  }

  /**
   * Reference definition of a participant ancestor: a chain of typedef
   * targets and single bases from `t` to a class named like a participant base.
   */
  ghost predicate ParticipantChain(arena: Arena, t: Ty) {
    exists c: seq<Ty> :: IsSingleBaseChain(arena, c) && |c| > 0 && c[0] == t && EndsChain(arena, c[|c| - 1])
  }

  ghost predicate IsSingleBaseChain(arena: Arena, c: seq<Ty>) {
    forall k :: 0 <= k < |c| - 1 ==> CanStep(arena, c[k]) && ChainStep(arena, c[k]) == Some(c[k + 1])
  }

  lemma ChainCons(arena: Arena, t: Ty, c: seq<Ty>)
    requires CanStep(arena, t) && IsSingleBaseChain(arena, c) && |c| > 0 && ChainStep(arena, t) == Some(c[0])
    ensures IsSingleBaseChain(arena, [t] + c)
  {
    var c' := [t] + c;
    forall k | 0 <= k < |c'| - 1
      ensures CanStep(arena, c'[k]) && ChainStep(arena, c'[k]) == Some(c'[k + 1])
    {
      if k > 0 { assert c'[k] == c[k - 1] && c'[k + 1] == c[k]; }
    }
  }

  lemma ChainTail(arena: Arena, c: seq<Ty>)
    requires IsSingleBaseChain(arena, c) && |c| > 1
    ensures IsSingleBaseChain(arena, c[1..])
  {
    var c' := c[1..];
    forall k | 0 <= k < |c'| - 1
      ensures CanStep(arena, c'[k]) && ChainStep(arena, c'[k]) == Some(c'[k + 1])
    {
      assert c'[k] == c[k + 1] && c'[k + 1] == c[k + 2];
    }
  }

  lemma ParentIsChain(arena: Arena, t: Ty)
    requires WF(arena)
    ensures IsCCInnerClassParent(arena, t) <==> ParticipantChain(arena, t)
  {
    if ParticipantChain(arena, t) {
      var c: seq<Ty> :| IsSingleBaseChain(arena, c) && |c| > 0 && c[0] == t && EndsChain(arena, c[|c| - 1]);
      ChainIsParent(arena, c);
    }
    if IsCCInnerClassParent(arena, t) {
      ParentHasChain(arena, t);
    }
  }

  lemma {:induction false} ChainIsParent(arena: Arena, c: seq<Ty>)
    requires WF(arena) && IsSingleBaseChain(arena, c) && |c| > 0 && EndsChain(arena, c[|c| - 1])
    ensures IsCCInnerClassParent(arena, c[0])
    decreases |c|
  {
    if |c| > 1 {
      ChainTail(arena, c);
      assert c[1..][|c[1..]| - 1] == c[|c| - 1];
      ChainIsParent(arena, c[1..]);
      assert CanStep(arena, c[0]) && ChainStep(arena, c[0]) == Some(c[1]);
    }
  }

  lemma {:induction false} ParentHasChain(arena: Arena, t: Ty)
    requires WF(arena) && IsCCInnerClassParent(arena, t)
    ensures ParticipantChain(arena, t)
    decreases ClassRank(t), Size(t)
  {
    if EndsChain(arena, t) {
      assert IsSingleBaseChain(arena, [t]);
    } else {
      var next := ChainStep(arena, t).value;
      ParentHasChain(arena, next);
      var c: seq<Ty> :| IsSingleBaseChain(arena, c) && |c| > 0 && c[0] == next && EndsChain(arena, c[|c| - 1]);
      ChainCons(arena, t, c);
      assert ([t] + c)[|[t] + c| - 1] == c[|c| - 1];
    }
  }

  // ---------------------------------------------------------------------
  // The class a reference-counted container points to
  // ---------------------------------------------------------------------

  /** Outcome of a pointee search. `CacheEmpty` is the recoverable "nsIContent not yet seen" condition. */
  datatype Lookup = Found(ty: Ty) | Absent | CacheEmpty | Broken(msg: string)

  /** Smart pointers and hash keys whose first argument (or what it points to) is the pointee. */
  const WrapperTemplates: set<string> :=
    {"nsRefPtr", "nsCOMPtr", "nsCOMArray", "nsISupportsHashKey", "nsHashableHashKey", "nsCOMPtrHashKey"}

  /** Hashtables whose value argument (index 1) is the pointee. */
  const ValueHashtables: set<string> := {"nsRefPtrHashtable", "nsInterfaceHashtable"}

  /** Containers that hold what their first argument points to. */
  const ElementContainers: set<string> := {"nsTArray", "nsTHashtable"}

  const ChildAtName: string := "nsAttrAndChildArray::ChildAt(PRUint32) const"

  /**
   * nsAttrAndChildArray holds what its ChildAt method returns a pointer to.
   * The first method with that name decides; no such method, or a return type
   * that is not a pointer, reference or array, aborts the run.
   */
  function AttrAndChildArrayContains(arena: Arena, t: Ty): (r: Res<Ty>)
    ensures r.Ok? ==> Members(arena, t).Some?
    ensures r.Ok? ==> exists k :: 0 <= k < |Members(arena, t).value| && Members(arena, t).value[k].isFunction
                       && Members(arena, t).value[k].name == ChildAtName
                       && r.value in Subterms(Members(arena, t).value[k].ty)
                       && r.value != Members(arena, t).value[k].ty
  {
    if Members(arena, t).None? then Fatal("nsAttrAndChildArray_contains didn't find ChildAt")
    else ChildAtIn(Members(arena, t).value, 0)
  }

  /** A method named like nsAttrAndChildArray's ChildAt. */
  predicate IsChildAt(m: Member) {
    m.isFunction && m.name == ChildAtName
  }

  /** Position `k` holds the first ChildAt method at or after position `i`. */
  predicate FirstChildAt(ms: seq<Member>, i: nat, k: nat) {
    i <= k < |ms| && IsChildAt(ms[k]) && forall j :: i <= j < k ==> !IsChildAt(ms[j])
  }

  /** The member scan from position `i`; the first ChildAt method found decides. */
  function ChildAtIn(ms: seq<Member>, i: nat): (r: Res<Ty>)
    ensures r.Ok? ==> exists k :: i <= k < |ms| && ms[k].isFunction && ms[k].name == ChildAtName
                       && r.value in Subterms(ms[k].ty) && r.value != ms[k].ty
    decreases |ms| - i
  {
    if i >= |ms| then Fatal("nsAttrAndChildArray_contains didn't find ChildAt")
    else if !IsChildAt(ms[i]) then ChildAtIn(ms, i + 1)
    else match ms[i].ty
      case Pointer(x) => Ok(x)
      case Reference(x) => Ok(x)
      case ArrayOf(x) => Ok(x)
      case _ => Fatal("nsAttrAndChildArray_contains was going to return undefined")
  }

  /**
   * The first ChildAt method at or after `i` decides: its return type's
   * direct pointee, referent or element is the answer, and any other return
   * type aborts, whatever later methods look like.
   */
  lemma {:induction false} ChildAtInFirst(ms: seq<Member>, i: nat, k: nat)
    requires FirstChildAt(ms, i, k)
    ensures var ty := ms[k].ty;
      && (ChildAtIn(ms, i).Ok? <==> ty.Pointer? || ty.Reference? || ty.ArrayOf?)
      && (ty.Pointer? ==> ChildAtIn(ms, i) == Ok(ty.pointee))
      && (ty.Reference? ==> ChildAtIn(ms, i) == Ok(ty.referent))
      && (ty.ArrayOf? ==> ChildAtIn(ms, i) == Ok(ty.elem))
    decreases k - i
  {
    if i < k {
      ChildAtInFirst(ms, i + 1, k);
    }
  }

  /** Without a ChildAt method at or after `i`, the scan aborts. */
  lemma {:induction false} ChildAtInMissing(ms: seq<Member>, i: nat)
    requires forall j :: i <= j < |ms| ==> !IsChildAt(ms[j])
    ensures ChildAtIn(ms, i).Fatal?
    decreases |ms| - i
  {
    if i < |ms| {
      ChildAtInMissing(ms, i + 1);
    }
  }

  /** For the whole class: the first ChildAt member decides, as in ChildAtInFirst. */
  lemma AttrAndChildArrayFirst(arena: Arena, t: Ty, k: nat)
    requires Members(arena, t).Some? && FirstChildAt(Members(arena, t).value, 0, k)
    ensures var ty := Members(arena, t).value[k].ty;
      && (AttrAndChildArrayContains(arena, t).Ok? <==> ty.Pointer? || ty.Reference? || ty.ArrayOf?)
      && (ty.Pointer? ==> AttrAndChildArrayContains(arena, t) == Ok(ty.pointee))
      && (ty.Reference? ==> AttrAndChildArrayContains(arena, t) == Ok(ty.referent))
      && (ty.ArrayOf? ==> AttrAndChildArrayContains(arena, t) == Ok(ty.elem))
  {
    ChildAtInFirst(Members(arena, t).value, 0, k);
  }

  /** A class without a member list, or without a ChildAt method, aborts. */
  lemma AttrAndChildArrayMissing(arena: Arena, t: Ty)
    requires Members(arena, t).None? ||
             forall j :: 0 <= j < |Members(arena, t).value| ==> !IsChildAt(Members(arena, t).value[j])
    ensures AttrAndChildArrayContains(arena, t).Fatal?
  {
    if Members(arena, t).Some? {
      ChildAtInMissing(Members(arena, t).value, 0);
    }
  }

  /**
   * The type a reference-counted container refers to. Typedefs and arrays are
   * transparent; the known container templates are unwrapped as the comments
   * of each case say; anything else has no pointee.
   */
  function PtrTypeContainsHelp(arena: Arena, cache: Option<Ty>, t: Ty): (r: Lookup)
    decreases t
  {
    if t.Typedef? then PtrTypeContainsHelp(arena, cache, t.target)
    else if t.ArrayOf? then PtrTypeContainsHelp(arena, cache, t.elem)
    else if !t.Class? || t.template.None? then
      if NameIs(arena, t, "nsAttrAndChildArray") then
        match AttrAndChildArrayContains(arena, t)
        case Ok(x) => Found(x)
        case Fatal(m) => Broken(m)
      else Absent
    else
        var tm := t.template.value;
        var args := tm.args;
        if tm.name in WrapperTemplates then
          // the nested pointee of argument 0, else argument 0 itself
          if |args| == 0 then Broken("missing template argument")
          else
            assert args[0] in tm.args;
            match PtrTypeContainsHelp(arena, cache, args[0])
            case Absent => Found(args[0])
            case other => other
        else if tm.name == "nsRunnableMethod" then
          if |args| != 1 && |args| != 3 then Broken("Unknown number of arguments to nsRunnableMethod.")
          else if |args| == 3 && args[2] == Literal("false") then Absent
          else if |args| == 3 && args[2] != Literal("true") then Broken("Unknown third argument to nsRunnableMethod.")
          else Found(args[0])
        else if tm.name in ValueHashtables then
          // the value argument, never the key
          if |args| >= 2 then Found(args[1]) else Absent
        else if tm.name == "nsAutoPtr" && |args| == 0 then Broken("missing template argument")
        else if tm.name == "nsAutoPtr" && NameIs(arena, args[0], "nsBidiPresUtils") then
          if cache.Some? then Found(cache.value) else CacheEmpty
        else if tm.name in ElementContainers then
          if |args| == 0 then Broken("missing template argument")
          else
            assert args[0] in tm.args;
            PtrTypeContainsHelp(arena, cache, args[0])
        else Absent
  }

  /** As PtrTypeContainsHelp, except that weak references have no pointee. */
  function PtrTypeContains(arena: Arena, cache: Option<Ty>, t: Ty): (r: Lookup)
    ensures r.Found? ==> !NameIs(arena, r.ty, "nsIWeakReference")
    ensures r.Found? ==> PtrTypeContainsHelp(arena, cache, t) == r
    ensures !r.Found? ==> r == PtrTypeContainsHelp(arena, cache, t) ||
                          (r.Absent? && PtrTypeContainsHelp(arena, cache, t).Found? &&
                           NameIs(arena, PtrTypeContainsHelp(arena, cache, t).ty, "nsIWeakReference"))
  {
    var i := PtrTypeContainsHelp(arena, cache, t);
    if i.Found? && NameIs(arena, i.ty, "nsIWeakReference") then Absent else i
  }

  // ---------------------------------------------------------------------
  // Field classification
  // ---------------------------------------------------------------------

  /** Names of classes declared not to be cycle collected. */
  const NonCCClassWhitelist: set<string> :=
    {"nsCycleCollectingAutoRefCnt", "nsAutoRefCnt", "nsCString", "nsString", "nsWeakPtr",
     "nsDOMStyleSheetSetList", "mozilla::css::Loader", "nsHTMLStyleSheet", "nsXMLEventsManager",
     "nsAnonDivObserver", "SelectionState", "nsDOMValidityState", "nsDOMSettableTokenList",
     "nsSelectState", "nsIDocShell", "nsITimer", "nsIDOMFileError", "nsICharsetConverterManager",
     "nsIContentSerializer", "nsIAtom", "nsIStructuredCloneContainer", "nsIOutputStream",
     "nsIUnicodeEncoder", "nsIRequest", "nsIChannel", "nsIApplicationCache", "nsIDOMBlob",
     "nsIDOMFile", "nsDOMFileList"}

  /** Pointee classes that Unlink intentionally leaves alone. */
  const NoUnlinkWhitelist: set<string> := {"nsINodeInfo"}

  predicate InWhitelist(w: set<string>, n: Option<string>) {
    n.Some? && n.value in w
  }

  /** JavaScript's true / false / undefined answer. */
  datatype Tri = True | False | Undefined

  /** Number, enum and bit-field types: `precision`, `min` or `bitfieldOf` is truthy. */
  predicate IsScalarLike(t: Ty) {
    t.Scalar? && (t.precision != 0 || t.min != 0 || t.bitfield)
  }

  /**
   * Whether a field of type `t` is an owning pointer of interest to the cycle
   * collector: True, False, or Undefined when the shape is not understood.
   * The "nsIContent not yet seen" condition counts as True.
   */
  function IsPtrType(arena: Arena, cache: Option<Ty>, t: Ty, isUnlink: bool): (r: Res<Tri>)
  {
    if IsScalarLike(t) then Ok(False)
    else if Name(arena, t).None? then Ok(Undefined)
    else if InWhitelist(NonCCClassWhitelist, Name(arena, t)) then Ok(False)
    else match PtrTypeContains(arena, cache, t)
      case CacheEmpty => Ok(True)
      case Broken(m) => Fatal(m)
      case Absent => Ok(Undefined)
      case Found(tc) =>
        if InWhitelist(NonCCClassWhitelist, Name(arena, tc)) ||
           (isUnlink && InWhitelist(NoUnlinkWhitelist, Name(arena, tc)))
        then Ok(False)
        else Ok(True)
  }

  /** Template `tm` is `n`, and its argument `i` is one that IsPtrType answers false. */
  predicate ExcusedBy(arena: Arena, cache: Option<Ty>, tm: TemplateInst, n: string, i: nat) {
    tm.name == n && i < |tm.args| && IsPtrType(arena, cache, tm.args[i], false) == Ok(False)
  }

  /** Template `tm` is `n`, and its argument `i` is missing or its IsPtrType test aborts. */
  predicate ExcuseFails(arena: Arena, cache: Option<Ty>, tm: TemplateInst, n: string, i: nat) {
    tm.name == n && (i >= |tm.args| || IsPtrType(arena, cache, tm.args[i], false).Fatal?)
  }

  /**
   * Two nested shapes that IsPtrType leaves undecided but that are known not
   * to own: an nsAutoPtr of a non-owning argument 0, and an nsDataHashtable
   * of a non-owning value argument 1. Nothing else is excused.
   */
  function PtrActuallyOk(arena: Arena, cache: Option<Ty>, t: Ty): Res<bool> {
    if TemplateOf(t).None? then Ok(false)
    else
      var tm := TemplateOf(t).value;
      if tm.name == "nsAutoPtr" then ArgNotOwning(arena, cache, tm, 0)
      else if tm.name == "nsDataHashtable" then ArgNotOwning(arena, cache, tm, 1)
      else Ok(false)
  }

  /** Exactly the two excuses hold, and the search aborts exactly when the argument of one is missing or aborts. */
  lemma PtrActuallyOkIff(arena: Arena, cache: Option<Ty>, t: Ty)
    ensures PtrActuallyOk(arena, cache, t) == Ok(true) <==>
      (TemplateOf(t).Some? &&
       (ExcusedBy(arena, cache, TemplateOf(t).value, "nsAutoPtr", 0) ||
        ExcusedBy(arena, cache, TemplateOf(t).value, "nsDataHashtable", 1)))
    ensures PtrActuallyOk(arena, cache, t).Fatal? <==>
      (TemplateOf(t).Some? &&
       (ExcuseFails(arena, cache, TemplateOf(t).value, "nsAutoPtr", 0) ||
        ExcuseFails(arena, cache, TemplateOf(t).value, "nsDataHashtable", 1)))
  {
  }

  /** Whether argument `i` of `tm` is answered false by IsPtrType; a missing argument aborts. */
  function ArgNotOwning(arena: Arena, cache: Option<Ty>, tm: TemplateInst, i: nat): Res<bool> {
    if i >= |tm.args| then Fatal("missing template argument")
    else match IsPtrType(arena, cache, tm.args[i], false)
      case Fatal(m) => Fatal(m)
      case Ok(v) => Ok(v == False)
  }

  /** A field that is an owning pointer (`certain`) or might be one. */
  datatype PtrField = PtrField(field: Member, certain: bool)

  /** How one member is classified: Some(certain) when it is reported, None when it is skipped. */
  function ClassifyMember(arena: Arena, cache: Option<Ty>, m: Member, isUnlink: bool): Res<Option<bool>> {
    if m.isFunction then Ok(None)
    else match IsPtrType(arena, cache, m.ty, isUnlink)
      case Fatal(e) => Fatal(e)
      case Ok(True) => Ok(Some(true))
      case Ok(False) => Ok(None)
      case Ok(Undefined) =>
        match PtrActuallyOk(arena, cache, m.ty)
        case Fatal(e) => Fatal(e)
        case Ok(ok) => if ok then Ok(None) else Ok(Some(false))
  }

  /**
   * The owning-pointer fields of a class and of all its bases: the class's own
   * fields in member order, then those found through each base in base order.
   */
  function FindPtrs(arena: Arena, cache: Option<Ty>, t: Ty, isUnlink: bool): (r: Res<seq<PtrField>>)
    requires WF(arena)
    decreases ClassRank(t), 1, 0
  {
    var own := if Members(arena, t).Some? then OwnPtrs(arena, cache, Members(arena, t).value, 0, isUnlink) else Ok([]);
    if own.Fatal? then own
    else match BasePtrs(arena, cache, t, 0, isUnlink)
      case Fatal(e) => Fatal(e)
      case Ok(inherited) => Ok(own.value + inherited)
  }

  function OwnPtrs(arena: Arena, cache: Option<Ty>, ms: seq<Member>, i: nat, isUnlink: bool): Res<seq<PtrField>>
    decreases |ms| - i
  {
    if i >= |ms| then Ok([])
    else match ClassifyMember(arena, cache, ms[i], isUnlink)
      case Fatal(e) => Fatal(e)
      case Ok(c) =>
        match OwnPtrs(arena, cache, ms, i + 1, isUnlink)
        case Fatal(e) => Fatal(e)
        case Ok(rest) => Ok((if c.Some? then [PtrField(ms[i], c.value)] else []) + rest)
  }

  function BasePtrs(arena: Arena, cache: Option<Ty>, t: Ty, i: nat, isUnlink: bool): Res<seq<PtrField>>
    requires WF(arena)
    decreases ClassRank(t), 0, |Bases(arena, t)| - i
  {
    var bs := Bases(arena, t);
    if i >= |bs| then Ok([])
    else match FindPtrs(arena, cache, bs[i], isUnlink)
      case Fatal(e) => Fatal(e)
      case Ok(first) =>
        match BasePtrs(arena, cache, t, i + 1, isUnlink)
        case Fatal(e) => Fatal(e)
        case Ok(rest) => Ok(first + rest)
  }

  /** A class is abstract iff it has a pure virtual member; a class without a member list aborts the run. */
  function IsAbstract(arena: Arena, t: Ty): (r: Res<bool>)
    ensures r.Fatal? <==> Members(arena, t).None?
    ensures r == Ok(true) <==> (Members(arena, t).Some? &&
                              exists k :: 0 <= k < |Members(arena, t).value| && Members(arena, t).value[k].isPureVirtual)
  {
    if Members(arena, t).None? then Fatal("Expected class to have members.")
    else Ok(AnyPureVirtual(Members(arena, t).value))
  }

  predicate AnyPureVirtual(ms: seq<Member>) {
    exists k :: 0 <= k < |ms| && ms[k].isPureVirtual
  }

  /** How many pointer and reference layers surround a type. */
  function RefDepth(t: Ty): nat {
    match t
    case Pointer(x) => 1 + RefDepth(x)
    case Reference(x) => 1 + RefDepth(x)
    case _ => 0
  }

  /** `t` with its `d` outermost pointer and reference layers removed. */
  function Peel(t: Ty, d: nat): Ty
    requires d <= RefDepth(t)
  {
    if d == 0 then t
    else if t.Pointer? then Peel(t.pointee, d - 1)
    else Peel(t.referent, d - 1)
  }

  /** A name as string concatenation shows it: an absent name reads "undefined", as in JavaScript. */
  function Shown(n: Option<string>): string {
    if n.Some? then n.value else "undefined"
  }

  /**
   * A type's name followed by one '*' per pointer layer and one '&' per
   * reference layer, the outermost layer last. A type with no layer shows
   * its own name, which may be absent.
   */
  function TypeNameString(arena: Arena, t: Ty): (r: Option<string>)
    ensures RefDepth(t) == 0 ==> r == Name(arena, t)
    ensures RefDepth(t) > 0 ==>
      var core := Shown(Name(arena, StripRefs(t)));
      && r.Some? && |r.value| == |core| + RefDepth(t) && r.value[..|core|] == core
      && (forall k :: |core| <= k < |r.value| ==> r.value[k] == '*' || r.value[k] == '&')
      && r.value[|r.value| - 1] == (if t.Pointer? then '*' else '&')
    ensures RefDepth(t) > 0 ==>
      forall d :: 0 <= d < RefDepth(t) ==> r.value[|r.value| - 1 - d] == (if Peel(t, d).Pointer? then '*' else '&')
  {
    match t
    case Pointer(x) => Some(Shown(TypeNameString(arena, x)) + "*")
    case Reference(x) => Some(Shown(TypeNameString(arena, x)) + "&")
    case _ => Name(arena, t)
  }

  // ---------------------------------------------------------------------
  // Properties of the classification
  // ---------------------------------------------------------------------

  /** Typedef and array layers are transparent to the pointee search. */
  lemma TransparentLayers(arena: Arena, cache: Option<Ty>, n: string, x: Ty)
    ensures PtrTypeContainsHelp(arena, cache, Typedef(n, x)) == PtrTypeContainsHelp(arena, cache, x)
    ensures PtrTypeContainsHelp(arena, cache, ArrayOf(x)) == PtrTypeContainsHelp(arena, cache, x)
  {
  }

  /** A smart pointer or hash key always has a pointee: the nested one of argument 0, else argument 0. */
  lemma WrapperPointee(arena: Arena, cache: Option<Ty>, id: nat, tm: TemplateInst)
    requires tm.name in WrapperTemplates && |tm.args| > 0
    ensures var r := PtrTypeContainsHelp(arena, cache, Class(id, Some(tm)));
            var inner := PtrTypeContainsHelp(arena, cache, tm.args[0]);
            !r.Absent? && (if inner.Absent? then r == Found(tm.args[0]) else r == inner)
  {
  }

  /** A hashtable of references points to its value argument (index 1), never to its key. */
  lemma HashtableValuePointee(arena: Arena, cache: Option<Ty>, id: nat, tm: TemplateInst)
    requires tm.name in ValueHashtables
    ensures PtrTypeContainsHelp(arena, cache, Class(id, Some(tm))) ==
            if |tm.args| >= 2 then Found(tm.args[1]) else Absent
  {
  }

  /**
   * nsRunnableMethod: one argument, or three with 'true' last, points to
   * argument 0; three with 'false' last points nowhere; any other shape aborts.
   */
  lemma RunnableMethodPointee(arena: Arena, cache: Option<Ty>, id: nat, tm: TemplateInst)
    requires tm.name == "nsRunnableMethod"
    ensures var r := PtrTypeContainsHelp(arena, cache, Class(id, Some(tm)));
            (|tm.args| == 1 ==> r == Found(tm.args[0])) &&
            (|tm.args| == 3 && tm.args[2] == Literal("true") ==> r == Found(tm.args[0])) &&
            (|tm.args| == 3 && tm.args[2] == Literal("false") ==> r == Absent) &&
            (r.Broken? <==> |tm.args| != 1 && !(|tm.args| == 3 && tm.args[2] in {Literal("true"), Literal("false")}))
  {
  }

  /**
   * A pointee is always a type written inside the field's type, the cached
   * nsIContent, or a type written in some member of some class.
   */
  lemma {:induction false} PointeeIsSubterm(arena: Arena, cache: Option<Ty>, t: Ty)
    requires PtrTypeContainsHelp(arena, cache, t).Found?
    ensures var u := PtrTypeContainsHelp(arena, cache, t).ty;
            u in Subterms(t) || cache == Some(u) || u in ArenaSubterms(arena)
    decreases t
  {
    var u := PtrTypeContainsHelp(arena, cache, t).ty;
    if t.Typedef? {
      PointeeIsSubterm(arena, cache, t.target);
    } else if t.ArrayOf? {
      PointeeIsSubterm(arena, cache, t.elem);
    } else if !t.Class? || t.template.None? {
      var ms := Members(arena, t).value;
      var k :| 0 <= k < |ms| && ms[k].isFunction && ms[k].name == ChildAtName
               && u in Subterms(ms[k].ty) && u != ms[k].ty;
      MemberSubterm(arena, t, k, u);
    } else {
      var tm := t.template.value;
      assert SubtermsOfArgs(tm.args) <= Subterms(t);
      if tm.name in WrapperTemplates {
        assert tm.args[0] in tm.args;
        if !PtrTypeContainsHelp(arena, cache, tm.args[0]).Absent? {
          PointeeIsSubterm(arena, cache, tm.args[0]);
        }
      } else if tm.name == "nsRunnableMethod" || tm.name in ValueHashtables {
      } else if tm.name == "nsAutoPtr" && NameIs(arena, tm.args[0], "nsBidiPresUtils") {
      } else {
        assert tm.args[0] in tm.args;
        PointeeIsSubterm(arena, cache, tm.args[0]);
      }
    }
  }

  /** The exact conditions under which a field type counts as a certain owning pointer. */
  lemma IsPtrTypeTrueIff(arena: Arena, cache: Option<Ty>, t: Ty, isUnlink: bool)
    ensures IsPtrType(arena, cache, t, isUnlink) == Ok(True) <==>
            !IsScalarLike(t) && Name(arena, t).Some? && !InWhitelist(NonCCClassWhitelist, Name(arena, t)) &&
            (PtrTypeContains(arena, cache, t).CacheEmpty? ||
             (PtrTypeContains(arena, cache, t).Found? &&
              !InWhitelist(NonCCClassWhitelist, Name(arena, PtrTypeContains(arena, cache, t).ty)) &&
              !(isUnlink && InWhitelist(NoUnlinkWhitelist, Name(arena, PtrTypeContains(arena, cache, t).ty)))))
  {
  }

  /** Scalars and whitelisted outer or pointee names are never owning pointers. */
  lemma WhitelistOverride(arena: Arena, cache: Option<Ty>, t: Ty, isUnlink: bool)
    requires IsScalarLike(t) || InWhitelist(NonCCClassWhitelist, Name(arena, t)) ||
             (Name(arena, t).Some? && PtrTypeContains(arena, cache, t).Found? &&
              InWhitelist(NonCCClassWhitelist, Name(arena, PtrTypeContains(arena, cache, t).ty)))
    ensures IsPtrType(arena, cache, t, isUnlink) == Ok(False)
  {
  }

  /** Traverse and Unlink classify alike except for pointees on the no-unlink whitelist. */
  lemma UnlinkOnlyDiffersOnNoUnlink(arena: Arena, cache: Option<Ty>, t: Ty)
    ensures IsPtrType(arena, cache, t, false) != IsPtrType(arena, cache, t, true) <==>
            (IsPtrType(arena, cache, t, false) == Ok(True) && PtrTypeContains(arena, cache, t).Found? &&
             InWhitelist(NoUnlinkWhitelist, Name(arena, PtrTypeContains(arena, cache, t).ty)))
    ensures IsPtrType(arena, cache, t, false) != IsPtrType(arena, cache, t, true) ==>
            IsPtrType(arena, cache, t, true) == Ok(False)
  {
  }

  /** A member is reported with certainty exactly when IsPtrType says True; suspect when Undefined and not excused. */
  lemma ClassifyMemberIff(arena: Arena, cache: Option<Ty>, m: Member, isUnlink: bool)
    ensures ClassifyMember(arena, cache, m, isUnlink) == Ok(Some(true)) <==>
            !m.isFunction && IsPtrType(arena, cache, m.ty, isUnlink) == Ok(True)
    ensures ClassifyMember(arena, cache, m, isUnlink) == Ok(Some(false)) <==>
            !m.isFunction && IsPtrType(arena, cache, m.ty, isUnlink) == Ok(Undefined) &&
            PtrActuallyOk(arena, cache, m.ty) == Ok(false)
  {
  }

  /** Member `e.field` of class `c` is reported with certainty `e.certain`. */
  ghost predicate Reported(arena: Arena, cache: Option<Ty>, isUnlink: bool, c: Ty, e: PtrField) {
    Members(arena, c).Some? && e.field in Members(arena, c).value &&
    ClassifyMember(arena, cache, e.field, isUnlink) == Ok(Some(e.certain))
  }

  lemma {:induction false} OwnPtrsExact(arena: Arena, cache: Option<Ty>, ms: seq<Member>, i: nat, isUnlink: bool)
    requires i <= |ms|
    requires OwnPtrs(arena, cache, ms, i, isUnlink).Ok?
    ensures forall e :: e in OwnPtrs(arena, cache, ms, i, isUnlink).value <==>
                        e.field in ms[i..] && ClassifyMember(arena, cache, e.field, isUnlink) == Ok(Some(e.certain))
    decreases |ms| - i
  {
    if i < |ms| {
      OwnPtrsExact(arena, cache, ms, i + 1, isUnlink);
      assert ms[i..] == [ms[i]] + ms[i + 1..];
    }
  }

  lemma BasesClosureIff(arena: Arena, t: Ty, i: nat, c: Ty)
    requires WF(arena)
    ensures c in BasesClosure(arena, t, i) <==>
            exists j :: i <= j < |Bases(arena, t)| && c in BaseClosure(arena, Bases(arena, t)[j])
  {
    BasesClosureSome(arena, t, i, c);
  }

  lemma {:induction false} BasesClosureSome(arena: Arena, t: Ty, i: nat, c: Ty)
    requires WF(arena)
    ensures c in BasesClosure(arena, t, i) <==> InSomeBase(arena, t, i, c)
    decreases |Bases(arena, t)| - i
  {
    if i < |Bases(arena, t)| {
      BasesClosureSome(arena, t, i + 1, c);
      BasesClosureStep(arena, t, i, c);
    }
  }

  /** `c` lies in the closure of one of the bases of `t` from the `i`-th on. */
  ghost predicate InSomeBase(arena: Arena, t: Ty, i: nat, c: Ty)
    requires WF(arena)
  {
    exists j :: i <= j < |Bases(arena, t)| && c in BaseClosure(arena, Bases(arena, t)[j])
  }

  lemma SomeBaseStep(arena: Arena, t: Ty, i: nat, c: Ty)
    requires WF(arena) && i < |Bases(arena, t)|
    ensures InSomeBase(arena, t, i, c) <==>
            c in BaseClosure(arena, Bases(arena, t)[i]) || InSomeBase(arena, t, i + 1, c)
  {
    var bs := Bases(arena, t);
    if InSomeBase(arena, t, i, c) {
      var j :| i <= j < |bs| && c in BaseClosure(arena, bs[j]);
      if j > i {
        assert InSomeBase(arena, t, i + 1, c);
      }
    }
    if InSomeBase(arena, t, i + 1, c) {
      var j :| i + 1 <= j < |bs| && c in BaseClosure(arena, bs[j]);
      assert i <= j;
    }
  }

  lemma BasesClosureStep(arena: Arena, t: Ty, i: nat, c: Ty)
    requires WF(arena) && i < |Bases(arena, t)|
    requires c in BasesClosure(arena, t, i + 1) <==> InSomeBase(arena, t, i + 1, c)
    ensures c in BasesClosure(arena, t, i) <==> InSomeBase(arena, t, i, c)
  {
    assert BasesClosure(arena, t, i) == BaseClosure(arena, Bases(arena, t)[i]) + BasesClosure(arena, t, i + 1);
    SomeBaseStep(arena, t, i, c);
  }

  /** Some class of `cs` reports `e`. */
  ghost predicate ReportedIn(arena: Arena, cache: Option<Ty>, isUnlink: bool, cs: set<Ty>, e: PtrField) {
    exists c :: c in cs && Reported(arena, cache, isUnlink, c, e)
  }

  lemma ReportedInUnion(arena: Arena, cache: Option<Ty>, isUnlink: bool, a: set<Ty>, b: set<Ty>, e: PtrField)
    ensures ReportedIn(arena, cache, isUnlink, a + b, e) <==>
            ReportedIn(arena, cache, isUnlink, a, e) || ReportedIn(arena, cache, isUnlink, b, e)
  {
    if ReportedIn(arena, cache, isUnlink, a + b, e) {
      var c :| c in a + b && Reported(arena, cache, isUnlink, c, e);
      assert c in a || c in b;
    }
  }

  /**
   * FindPtrs reports exactly the members, of the class or of any ancestor,
   * that ClassifyMember reports, each with its certainty.
   */
  lemma {:induction false} FindPtrsExact(arena: Arena, cache: Option<Ty>, t: Ty, isUnlink: bool)
    requires WF(arena)
    requires FindPtrs(arena, cache, t, isUnlink).Ok?
    ensures forall e :: e in FindPtrs(arena, cache, t, isUnlink).value <==>
                        exists c :: c in BaseClosure(arena, t) && Reported(arena, cache, isUnlink, c, e)
    decreases ClassRank(t), 1, 0
  {
    var own := if Members(arena, t).Some? then OwnPtrs(arena, cache, Members(arena, t).value, 0, isUnlink) else Ok([]);
    if Members(arena, t).Some? {
      OwnPtrsExact(arena, cache, Members(arena, t).value, 0, isUnlink);
      assert Members(arena, t).value[0..] == Members(arena, t).value;
    }
    BasePtrsExact(arena, cache, t, 0, isUnlink);
    forall e
      ensures e in FindPtrs(arena, cache, t, isUnlink).value <==> ReportedIn(arena, cache, isUnlink, BaseClosure(arena, t), e)
    {
      ReportedInUnion(arena, cache, isUnlink, {t}, BasesClosure(arena, t, 0), e);
      assert e in own.value <==> ReportedIn(arena, cache, isUnlink, {t}, e);
    }
  }

  lemma {:induction false} BasePtrsExact(arena: Arena, cache: Option<Ty>, t: Ty, i: nat, isUnlink: bool)
    requires WF(arena)
    requires BasePtrs(arena, cache, t, i, isUnlink).Ok?
    ensures forall e :: e in BasePtrs(arena, cache, t, i, isUnlink).value <==>
                        exists c :: c in BasesClosure(arena, t, i) && Reported(arena, cache, isUnlink, c, e)
    decreases ClassRank(t), 0, |Bases(arena, t)| - i
  {
    var bs := Bases(arena, t);
    if i < |bs| {
      FindPtrsExact(arena, cache, bs[i], isUnlink);
      BasePtrsExact(arena, cache, t, i + 1, isUnlink);
      forall e
        ensures e in BasePtrs(arena, cache, t, i, isUnlink).value <==> ReportedIn(arena, cache, isUnlink, BasesClosure(arena, t, i), e)
      {
        ReportedInUnion(arena, cache, isUnlink, BaseClosure(arena, bs[i]), BasesClosure(arena, t, i + 1), e);
      }
    }
  }

  /** Function members are never reported. */
  lemma FindPtrsSkipsFunctions(arena: Arena, cache: Option<Ty>, t: Ty, isUnlink: bool, e: PtrField)
    requires WF(arena)
    requires FindPtrs(arena, cache, t, isUnlink).Ok? && e in FindPtrs(arena, cache, t, isUnlink).value
    ensures !e.field.isFunction
    ensures e.certain <==> IsPtrType(arena, cache, e.field.ty, isUnlink) == Ok(True)
  {
    FindPtrsExact(arena, cache, t, isUnlink);
    ClassifyMemberIff(arena, cache, e.field, isUnlink);
  }

  /** The chunks joined in order. */
  function Concat(cs: seq<seq<PtrField>>): seq<PtrField> {
    if cs == [] then [] else cs[0] + Concat(cs[1..])
  }

  /** The records of a search that did not abort; none otherwise. */
  function Records(r: Res<seq<PtrField>>): seq<PtrField> {
    if r.Ok? then r.value else []
  }

  /** Results joined in order; the first that aborts aborts the join. */
  function Join(rs: seq<Res<seq<PtrField>>>): Res<seq<PtrField>> {
    if rs == [] then Ok([])
    else match rs[0]
      case Fatal(e) => Fatal(e)
      case Ok(first) =>
        match Join(rs[1..])
        case Fatal(e) => Fatal(e)
        case Ok(rest) => Ok(first + rest)
  }

  /** The records of each result, one chunk per result. */
  function Chunks(rs: seq<Res<seq<PtrField>>>): (cs: seq<seq<PtrField>>)
    ensures |cs| == |rs|
    ensures forall k :: 0 <= k < |rs| ==> cs[k] == Records(rs[k])
  {
    if rs == [] then [] else [Records(rs[0])] + Chunks(rs[1..])
  }

  /** A join that does not abort is the chunks concatenated, and none of its results aborts. */
  lemma {:induction false} JoinOk(rs: seq<Res<seq<PtrField>>>)
    requires Join(rs).Ok?
    ensures Join(rs).value == Concat(Chunks(rs))
    ensures forall k :: 0 <= k < |rs| ==> rs[k].Ok?
  {
    if rs != [] {
      JoinOk(rs[1..]);
      assert Chunks(rs)[1..] == Chunks(rs[1..]);
      forall k | 0 < k < |rs|
        ensures rs[k].Ok?
      {
        assert rs[k] == rs[1..][k - 1];
      }
    }
  }

  /** The search result of each base of `t`, in base order. */
  function BaseResults(arena: Arena, cache: Option<Ty>, t: Ty, isUnlink: bool): (rs: seq<Res<seq<PtrField>>>)
    requires WF(arena)
    ensures |rs| == |Bases(arena, t)|
    ensures forall k :: 0 <= k < |rs| ==> rs[k] == FindPtrs(arena, cache, Bases(arena, t)[k], isUnlink)
  {
    var bs := Bases(arena, t);
    seq(|bs|, k requires 0 <= k < |bs| => FindPtrs(arena, cache, bs[k], isUnlink))
  }

  /** The inherited part from base `i` on joins the results of the bases from `i` on. */
  lemma {:induction false} BasePtrsJoin(arena: Arena, cache: Option<Ty>, t: Ty, i: nat, isUnlink: bool)
    requires WF(arena) && i <= |Bases(arena, t)|
    ensures BasePtrs(arena, cache, t, i, isUnlink) == Join(BaseResults(arena, cache, t, isUnlink)[i..])
    decreases |Bases(arena, t)| - i
  {
    var rs := BaseResults(arena, cache, t, isUnlink);
    if i < |rs| {
      BasePtrsJoin(arena, cache, t, i + 1, isUnlink);
      assert rs[i..][0] == rs[i] && rs[i..][1..] == rs[i + 1..];
    }
  }

  /**
   * The records come in a fixed order: the class's own fields in member
   * order, then, for each base in base order, that base's records.
   */
  lemma FindPtrsOrder(arena: Arena, cache: Option<Ty>, t: Ty, isUnlink: bool)
    requires WF(arena) && FindPtrs(arena, cache, t, isUnlink).Ok?
    ensures var own := if Members(arena, t).Some? then OwnPtrs(arena, cache, Members(arena, t).value, 0, isUnlink) else Ok([]);
      && own.Ok?
      && var rs := BaseResults(arena, cache, t, isUnlink);
      && (forall k :: 0 <= k < |rs| ==> rs[k].Ok?)
      && FindPtrs(arena, cache, t, isUnlink).value == own.value + Concat(Chunks(rs))
  {
    FindPtrsSplit(arena, cache, t, isUnlink);
    BasePtrsJoin(arena, cache, t, 0, isUnlink);
    var rs := BaseResults(arena, cache, t, isUnlink);
    assert rs[0..] == rs;
    JoinOk(rs);
  }

  lemma FindPtrsSplit(arena: Arena, cache: Option<Ty>, t: Ty, isUnlink: bool)
    requires WF(arena) && FindPtrs(arena, cache, t, isUnlink).Ok?
    ensures var own := if Members(arena, t).Some? then OwnPtrs(arena, cache, Members(arena, t).value, 0, isUnlink) else Ok([]);
      && own.Ok? && BasePtrs(arena, cache, t, 0, isUnlink).Ok?
      && FindPtrs(arena, cache, t, isUnlink).value == own.value + BasePtrs(arena, cache, t, 0, isUnlink).value
  {
  }
}
