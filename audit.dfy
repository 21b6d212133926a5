/**
 * The Traverse/Unlink coverage audit: for every Traverse or Unlink method of
 * a cycle-collector helper class, each owning-pointer field of the class the
 * helper serves must be mentioned in the method body, either directly or
 * through a call to a parent class's method of the same name. Fields that
 * are never mentioned are reported, sorted, under the method's name and
 * location.
 */
module TraverseUnlinkAudit {
  import opened TypeModel
  import opened CCBase

  // ---------------------------------------------------------------------
  // Method bodies as trees of items
  // ---------------------------------------------------------------------

  /**
   * One node of a method body's expression tree: its full name (for a field
   * access, the field's qualified name), its short name, whether it is a call,
   * the class declaring the field or method it names, the items of its
   * assignment, the object it is a field of, and the call's arguments.
   */
  datatype Item = Item(
    name: Option<string>,
    shortName: Option<string>,
    isFcall: bool,
    memberOf: Option<Ty>,
    assign: seq<Item>,
    fieldOf: Option<Item>,
    arguments: seq<Item>)

  /** A basic block of a function body. */
  datatype Block = Block(statements: seq<Item>)

  /**
   * The item and everything nested under it, in preorder: the item itself,
   * then its assignment items, the object it is a field of, and its arguments.
   */
  function ItemItems(item: Item): (r: seq<Item>)
    ensures |r| > 0 && r[0] == item
    decreases item, 1
  {
    [item] + ItemsItems(item.assign)
    + (if item.fieldOf.Some? then ItemItems(item.fieldOf.value) else [])
    + ItemsItems(item.arguments)
  }

  function ItemsItems(s: seq<Item>): seq<Item>
    decreases s, 0
  {
    if s == [] then [] else ItemItems(s[0]) + ItemsItems(s[1..])
  }

  /** The flattened items of a whole function body, block by block, statement by statement. */
  function BodyItems(body: seq<Block>): seq<Item> {
    if body == [] then [] else ItemsItems(body[0].statements) + BodyItems(body[1..])
  }

  /** `x` is `item` itself or lies somewhere underneath it. */
  ghost predicate Within(x: Item, item: Item)
    decreases item
  {
    x == item
    || (exists k :: 0 <= k < |item.assign| && Within(x, item.assign[k]))
    || (item.fieldOf.Some? && Within(x, item.fieldOf.value))
    || (exists k :: 0 <= k < |item.arguments| && Within(x, item.arguments[k]))
  }

  ghost predicate WithinSome(x: Item, s: seq<Item>) {
    exists k :: 0 <= k < |s| && Within(x, s[k])
  }

  /** The flattening visits exactly the item and everything under it. */
  lemma {:induction false} ItemItemsExact(item: Item, x: Item)
    ensures x in ItemItems(item) <==> Within(x, item)
    decreases item, 1
  {
    ItemsItemsExact(item.assign, x);
    ItemsItemsExact(item.arguments, x);
    if item.fieldOf.Some? {
      ItemItemsExact(item.fieldOf.value, x);
    }
  }

  lemma {:induction false} ItemsItemsExact(s: seq<Item>, x: Item)
    ensures x in ItemsItems(s) <==> WithinSome(x, s)
    decreases s, 0
  {
    if s != [] {
      ItemItemsExact(s[0], x);
      ItemsItemsExact(s[1..], x);
      if WithinSome(x, s[1..]) {
        var k :| 0 <= k < |s[1..]| && Within(x, s[1..][k]);
        assert Within(x, s[k + 1]);
      }
      if WithinSome(x, s) {
        var k :| 0 <= k < |s| && Within(x, s[k]);
        if k > 0 {
          assert Within(x, s[1..][k - 1]);
        }
      }
    }
  }

  /** Flattening a body is flattening its blocks one after another. */
  lemma {:induction false} BodyItemsAppend(b1: seq<Block>, b2: seq<Block>)
    ensures BodyItems(b1 + b2) == BodyItems(b1) + BodyItems(b2)
  {
    if b1 != [] {
      assert (b1 + b2)[1..] == b1[1..] + b2;
      BodyItemsAppend(b1[1..], b2);
    } else {
      assert b1 + b2 == b2;
    }
  }

  /** The body's items are exactly the statements' items and everything under them. */
  lemma {:induction false} BodyItemsExact(body: seq<Block>, x: Item)
    ensures x in BodyItems(body) <==> exists b :: 0 <= b < |body| && WithinSome(x, body[b].statements)
  {
    if body != [] {
      ItemsItemsExact(body[0].statements, x);
      BodyItemsExact(body[1..], x);
      if exists b :: 0 <= b < |body[1..]| && WithinSome(x, body[1..][b].statements) {
        var b :| 0 <= b < |body[1..]| && WithinSome(x, body[1..][b].statements);
        assert WithinSome(x, body[b + 1].statements);
      }
      if exists b :: 0 <= b < |body| && WithinSome(x, body[b].statements) {
        var b :| 0 <= b < |body| && WithinSome(x, body[b].statements);
        if b > 0 {
          assert WithinSome(x, body[1..][b - 1].statements);
        }
      }
    }
  }

  // ---------------------------------------------------------------------
  // Subtypes and field access
  // ---------------------------------------------------------------------

  /** `t1` is `t2` or reaches it through base-class links, trying the bases in order. */
  function Subtype(arena: Arena, t1: Ty, t2: Ty): bool
    requires WF(arena)
    decreases ClassRank(t1), 1, 0
  {
    t1 == t2 || SubtypeOfBase(arena, t1, 0, t2)
  }

  function SubtypeOfBase(arena: Arena, t1: Ty, i: nat, t2: Ty): bool
    requires WF(arena)
    decreases ClassRank(t1), 0, |Bases(arena, t1)| - i
  {
    i < |Bases(arena, t1)| && (Subtype(arena, Bases(arena, t1)[i], t2) || SubtypeOfBase(arena, t1, i + 1, t2))
  }

  /** Subtyping is membership in the ancestor closure. */
  lemma {:induction false} SubtypeIff(arena: Arena, t1: Ty, t2: Ty)
    requires WF(arena)
    ensures Subtype(arena, t1, t2) <==> t2 in BaseClosure(arena, t1)
    decreases ClassRank(t1), 1, 0
  {
    SubtypeOfBaseIff(arena, t1, 0, t2);
  }

  lemma {:induction false} SubtypeOfBaseIff(arena: Arena, t1: Ty, i: nat, t2: Ty)
    requires WF(arena)
    ensures SubtypeOfBase(arena, t1, i, t2) <==> t2 in BasesClosure(arena, t1, i)
    decreases ClassRank(t1), 0, |Bases(arena, t1)| - i
  {
    if i < |Bases(arena, t1)| {
      SubtypeIff(arena, Bases(arena, t1)[i], t2);
      SubtypeOfBaseIff(arena, t1, i + 1, t2);
    }
  }

  /**
   * Whether a value of type `ty` can be used to reach fields of `cls`: the
   * type is a subtype of `cls`, or a pointer or reference (at any depth) to one.
   */
  method TypeFieldable(arena: Arena, ty: Ty, cls: Ty) returns (b: bool)
    requires WF(arena)
    ensures b <==> cls in BaseClosure(arena, StripRefs(ty))
  {
    var t := ty;
    while t.Pointer? || t.Reference?
      invariant StripRefs(t) == StripRefs(ty)
      decreases t
    {
      t := if t.Pointer? then t.pointee else t.referent;
    }
    b := Subtype(arena, t, cls);
    SubtypeIff(arena, t, cls);
  }

  /**
   * Whether an item names a field of `cls`: the class declaring what it names
   * is `cls` or one of its ancestors, or it is a field of an object whose
   * declaring class is exactly `cls`.
   */
  function ItemIsFieldOf(arena: Arena, item: Item, cls: Ty): bool
    requires WF(arena)
  {
    if item.memberOf.Some? && Subtype(arena, cls, item.memberOf.value) then true
    else if item.fieldOf.None? then false
    else item.fieldOf.value.memberOf == Some(cls)
  }

  lemma ItemIsFieldOfIff(arena: Arena, item: Item, cls: Ty)
    requires WF(arena)
    ensures ItemIsFieldOf(arena, item, cls) <==>
      (item.memberOf.Some? && item.memberOf.value in BaseClosure(arena, cls))
      || (item.fieldOf.Some? && item.fieldOf.value.memberOf == Some(cls))
  {
    if item.memberOf.Some? {
      SubtypeIff(arena, cls, item.memberOf.value);
    }
  }

  // ---------------------------------------------------------------------
  // Recognising helper-class methods
  // ---------------------------------------------------------------------

  /** What the helper-class pattern requires after its non-empty leading part. */
  const HelperMarker := "::cycleCollection"

  /** The characters a regular-expression `.` does not match. */
  predicate IsLineTerminator(c: char) {
    c == '\n' || c == '\r' || c as int == 0x2028 || c as int == 0x2029
  }

  /**
   * The marker occurs at position `p`, and the part before it, which must be
   * non-empty, holds no line terminator.
   */
  ghost predicate MarkerAt(name: string, p: int) {
    1 <= p && p + |HelperMarker| <= |name| && name[p..p + |HelperMarker|] == HelperMarker
    && forall j :: 0 <= j < p ==> !IsLineTerminator(name[j])
  }

  /** The name of a cycle-collector helper class: one or more characters, then the marker. */
  function IsHelperName(name: string): (r: bool) {
    |name| >= 1 && MarkerFrom(name, 1)
  }

  /** Search for the marker at positions `p` onwards; the characters before `p - 1` are known to be plain. */
  function MarkerFrom(name: string, p: nat): bool
    requires 1 <= p <= |name|
    decreases |name| - p
  {
    if p + |HelperMarker| > |name| || IsLineTerminator(name[p - 1]) then false
    else if name[p..p + |HelperMarker|] == HelperMarker then true
    else MarkerFrom(name, p + 1)
  }

  lemma {:induction false} MarkerFromIff(name: string, p: nat)
    requires 1 <= p <= |name|
    requires forall j :: 0 <= j < p - 1 ==> !IsLineTerminator(name[j])
    ensures MarkerFrom(name, p) <==> exists q :: p <= q && MarkerAt(name, q)
    decreases |name| - p
  {
    if p + |HelperMarker| > |name| {
    } else if IsLineTerminator(name[p - 1]) {
    } else if name[p..p + |HelperMarker|] == HelperMarker {
      assert MarkerAt(name, p);
    } else {
      MarkerFromIff(name, p + 1);
      if exists q :: p <= q && MarkerAt(name, q) {
        var q :| p <= q && MarkerAt(name, q);
        assert q != p;
        assert p + 1 <= q;
      }
    }
  }

  /** The helper-name test accepts exactly the names the pattern matches. */
  lemma IsHelperNameIff(name: string)
    ensures IsHelperName(name) <==> exists p :: MarkerAt(name, p)
  {
    if |name| >= 1 {
      MarkerFromIff(name, 1);
    }
  }

  /**
   * A function is audited when it is called Traverse or Unlink and is a
   * method of a class whose name matches the helper-class pattern.
   */
  predicate IsAudited(arena: Arena, decl: FunctionDecl) {
    (decl.shortName == "Traverse" || decl.shortName == "Unlink")
    && decl.memberOf.Some? && decl.memberOf.value.Class?
    && Decl(arena, decl.memberOf.value.id).kind == ClassKind
    && Name(arena, decl.memberOf.value).Some?
    && IsHelperName(Name(arena, decl.memberOf.value).value)
  }

  /** A field's name relative to class `cname`: the short name for the class's own fields. */
  function FieldName(cname: string, m: Member): (r: string)
    ensures r == m.name || r == m.shortName
  {
    if cname + "::" <= m.name then m.shortName else m.name
  }

  /** Prefixing the relative name with the class recovers the full name of an own field. */
  lemma FieldNameRoundTrip(cname: string, m: Member)
    requires m.name == cname + "::" + m.shortName
    ensures cname + "::" + FieldName(cname, m) == m.name
  {
    assert m.name[..|cname + "::"|] == cname + "::";
  }

  /** A field of another class keeps its full name. */
  lemma FieldNameForeign(cname: string, m: Member)
    requires !(cname + "::" <= m.name)
    ensures FieldName(cname, m) == m.name
  {
  }

  // ---------------------------------------------------------------------
  // The table of fields and which of them are mentioned
  // ---------------------------------------------------------------------

  /** A function declaration: full name, short name, enclosing type and source location. */
  datatype FunctionDecl = FunctionDecl(name: string, shortName: string, memberOf: Option<Ty>, loc: string)

  /** The unmentioned fields of one Traverse or Unlink method, sorted. */
  datatype Unrefed = Unrefed(methodName: string, loc: string, fields: seq<string>)

  /** The property key an object lookup uses for a name that may be missing. */
  function KeyOf(name: Option<string>): (r: string)
    ensures name.Some? ==> r == name.value
  {
    if name.Some? then name.value else "undefined"
  }

  /**
   * The key under which a pointer-field record is entered in the table. The
   * corrected audit uses the field's name; as written, the source reads a
   * name property the record does not have, so every record lands on the
   * same key.
   */
  function RecordKey(e: PtrField, asWritten: bool): string {
    if asWritten then KeyOf(None) else e.field.name
  }

  ghost predicate KeyOfSome(recs: seq<PtrField>, asWritten: bool, k: string) {
    exists e :: e in recs && RecordKey(e, asWritten) == k
  }

  /** The table as first built: every record's key, unmentioned. */
  function InitFields(recs: seq<PtrField>, asWritten: bool): (r: map<string, bool>)
    ensures forall k :: k in r <==> KeyOfSome(recs, asWritten, k)
    ensures forall k :: k in r ==> !r[k]
  {
    if recs == [] then map[]
    else
      var r := InitFields(recs[..|recs| - 1], asWritten);
      assert forall e :: e in recs <==> e in recs[..|recs| - 1] || e == recs[|recs| - 1];
      r[RecordKey(recs[|recs| - 1], asWritten) := false]
  }

  /** Marking a key mentioned changes only an entry that is present and unmentioned. */
  function Mark(fields: map<string, bool>, k: string): map<string, bool> {
    if k in fields && !fields[k] then fields[k := true] else fields
  }

  /** Marking the keys of the records one after another. */
  function MarkAll(fields: map<string, bool>, recs: seq<PtrField>, asWritten: bool): map<string, bool>
    decreases |recs|
  {
    if recs == [] then fields else MarkAll(Mark(fields, RecordKey(recs[0], asWritten)), recs[1..], asWritten)
  }

  /** A call to a parent's method of the same name: its declaring class is nested in a class. */
  predicate IsParentCall(arena: Arena, item: Item, trUn: string) {
    item.isFcall && item.shortName == Some(trUn) && item.memberOf.Some?
    && MemberOf(arena, item.memberOf.value).Some?
  }

  /** The class whose method a parent call reaches. */
  function ParentOf(arena: Arena, item: Item, trUn: string): Ty
    requires IsParentCall(arena, item, trUn)
  {
    MemberOf(arena, item.memberOf.value).value
  }

  /** The TypeError raised by reading `indexOf` of a missing name in `field_name`. */
  const NameUndefinedError := "TypeError: name is undefined"

  /**
   * An unnamed field item that hits an unmentioned "undefined" entry: the
   * debug line that reports the hit calls `field_name` on it, which throws.
   */
  predicate UnnamedHit(fields: map<string, bool>, item: Item) {
    item.name.None? && KeyOf(None) in fields && !fields[KeyOf(None)]
  }

  /**
   * What one body item does to the table: a parent call marks every pointer
   * field of the parent class (found in Traverse mode), and an item naming a
   * field of the audited class marks that field.
   */
  function ItemStep(arena: Arena, cache: Option<Ty>, cls: Ty, trUn: string, item: Item,
                    fields: map<string, bool>, asWritten: bool): Res<map<string, bool>>
    requires WF(arena)
  {
    var f1 :=
      if IsParentCall(arena, item, trUn) then
        match FindPtrs(arena, cache, ParentOf(arena, item, trUn), false)
        case Fatal(e) => Fatal(e)
        case Ok(recs) => Ok(MarkAll(fields, recs, asWritten))
      else Ok(fields);
    if f1.Fatal? then f1
    else if ItemIsFieldOf(arena, item, cls) then
      if UnnamedHit(f1.value, item) then Fatal(NameUndefinedError)
      else Ok(Mark(f1.value, KeyOf(item.name)))
    else f1
  }

  /** The table after the items from position `i` on have been seen. */
  function ScanItems(arena: Arena, cache: Option<Ty>, cls: Ty, trUn: string, items: seq<Item>, i: nat,
                     fields: map<string, bool>, asWritten: bool): Res<map<string, bool>>
    requires WF(arena)
    decreases |items| - i
  {
    if i >= |items| then Ok(fields)
    else match ItemStep(arena, cache, cls, trUn, items[i], fields, asWritten)
      case Fatal(e) => Fatal(e)
      case Ok(f) => ScanItems(arena, cache, cls, trUn, items, i + 1, f, asWritten)
  }

  /**
   * The final table of one method of the helper for `cls`: the pointer fields
   * of `cls` (in Unlink mode for an Unlink method), marked by the body. As
   * written, the debug line for the first record calls `field_name` on a
   * record without a name, which throws before any marking.
   */
  function FinalFields(arena: Arena, cache: Option<Ty>, body: seq<Block>, cls: Ty, trUn: string,
                       asWritten: bool): Res<map<string, bool>>
    requires WF(arena)
  {
    match FindPtrs(arena, cache, cls, trUn == "Unlink")
    case Fatal(e) => Fatal(e)
    case Ok(recs) =>
      if asWritten && recs != [] then Fatal(NameUndefinedError)
      else ScanItems(arena, cache, cls, trUn, BodyItems(body), 0, InitFields(recs, asWritten), asWritten)
  }

  /** The keys of the table that were never mentioned. */
  ghost function UnmentionedKeys(fields: map<string, bool>): set<string> {
    set k | k in fields && !fields[k]
  }

  // ---------------------------------------------------------------------
  // What marking does to the table
  // ---------------------------------------------------------------------

  /** Whether an item mentions key `k` of the table, directly or through its parent call. */
  ghost predicate Mentions(arena: Arena, cache: Option<Ty>, cls: Ty, trUn: string, item: Item, k: string,
                           asWritten: bool)
    requires WF(arena)
  {
    (IsParentCall(arena, item, trUn)
     && FindPtrs(arena, cache, ParentOf(arena, item, trUn), false).Ok?
     && KeyOfSome(FindPtrs(arena, cache, ParentOf(arena, item, trUn), false).value, asWritten, k))
    || (ItemIsFieldOf(arena, item, cls) && KeyOf(item.name) == k)
  }

  ghost predicate MentionedFrom(arena: Arena, cache: Option<Ty>, cls: Ty, trUn: string, items: seq<Item>,
                                i: nat, k: string, asWritten: bool)
    requires WF(arena)
  {
    exists j :: i <= j < |items| && Mentions(arena, cache, cls, trUn, items[j], k, asWritten)
  }

  /** Marking never adds keys, and sets exactly the present keys of the records. */
  lemma {:induction false} MarkAllExact(fields: map<string, bool>, recs: seq<PtrField>, asWritten: bool)
    ensures MarkAll(fields, recs, asWritten).Keys == fields.Keys
    ensures forall k :: k in fields ==>
      (MarkAll(fields, recs, asWritten)[k] <==> fields[k] || KeyOfSome(recs, asWritten, k))
    decreases |recs|
  {
    if recs != [] {
      var f := Mark(fields, RecordKey(recs[0], asWritten));
      MarkAllExact(f, recs[1..], asWritten);
      forall k | k in fields
        ensures KeyOfSome(recs, asWritten, k) <==> RecordKey(recs[0], asWritten) == k || KeyOfSome(recs[1..], asWritten, k)
      {
        if KeyOfSome(recs, asWritten, k) {
          var e :| e in recs && RecordKey(e, asWritten) == k;
          if e != recs[0] {
            assert e in recs[1..];
          }
        }
        if KeyOfSome(recs[1..], asWritten, k) {
          var e :| e in recs[1..] && RecordKey(e, asWritten) == k;
          assert e in recs;
        }
      }
    }
  }

  /** One item keeps the keys and sets exactly the present keys it mentions. */
  lemma ItemStepExact(arena: Arena, cache: Option<Ty>, cls: Ty, trUn: string, item: Item,
                      fields: map<string, bool>, asWritten: bool)
    requires WF(arena)
    requires ItemStep(arena, cache, cls, trUn, item, fields, asWritten).Ok?
    ensures ItemStep(arena, cache, cls, trUn, item, fields, asWritten).value.Keys == fields.Keys
    ensures forall k :: k in fields ==>
      (ItemStep(arena, cache, cls, trUn, item, fields, asWritten).value[k]
       <==> fields[k] || Mentions(arena, cache, cls, trUn, item, k, asWritten))
  {
    if IsParentCall(arena, item, trUn) {
      MarkAllExact(fields, FindPtrs(arena, cache, ParentOf(arena, item, trUn), false).value, asWritten);
    }
  }

  /** Scanning keeps the keys and sets exactly the present keys some later item mentions. */
  lemma {:induction false} ScanItemsExact(arena: Arena, cache: Option<Ty>, cls: Ty, trUn: string,
                                          items: seq<Item>, i: nat, fields: map<string, bool>, asWritten: bool)
    requires WF(arena)
    requires ScanItems(arena, cache, cls, trUn, items, i, fields, asWritten).Ok?
    ensures ScanItems(arena, cache, cls, trUn, items, i, fields, asWritten).value.Keys == fields.Keys
    ensures forall k :: k in fields ==>
      (ScanItems(arena, cache, cls, trUn, items, i, fields, asWritten).value[k]
       <==> fields[k] || MentionedFrom(arena, cache, cls, trUn, items, i, k, asWritten))
    decreases |items| - i
  {
    if i < |items| {
      var f := ItemStep(arena, cache, cls, trUn, items[i], fields, asWritten).value;
      ItemStepExact(arena, cache, cls, trUn, items[i], fields, asWritten);
      ScanItemsExact(arena, cache, cls, trUn, items, i + 1, f, asWritten);
      forall k | k in fields
        ensures MentionedFrom(arena, cache, cls, trUn, items, i, k, asWritten) <==>
          Mentions(arena, cache, cls, trUn, items[i], k, asWritten)
          || MentionedFrom(arena, cache, cls, trUn, items, i + 1, k, asWritten)
      {
        if MentionedFrom(arena, cache, cls, trUn, items, i, k, asWritten) {
          var j :| i <= j < |items| && Mentions(arena, cache, cls, trUn, items[j], k, asWritten);
          if j != i {
            assert MentionedFrom(arena, cache, cls, trUn, items, i + 1, k, asWritten);
          }
        }
      }
    }
  }

  /**
   * The audit's verdict: the table holds exactly the keys of the pointer
   * fields of `cls`, and a key is left unmentioned exactly when no body item
   * mentions it.
   */
  lemma FinalFieldsExact(arena: Arena, cache: Option<Ty>, body: seq<Block>, cls: Ty, trUn: string,
                         asWritten: bool, k: string)
    requires WF(arena)
    requires FinalFields(arena, cache, body, cls, trUn, asWritten).Ok?
    ensures FindPtrs(arena, cache, cls, trUn == "Unlink").Ok?
    ensures k in FinalFields(arena, cache, body, cls, trUn, asWritten).value <==>
      KeyOfSome(FindPtrs(arena, cache, cls, trUn == "Unlink").value, asWritten, k)
    ensures k in UnmentionedKeys(FinalFields(arena, cache, body, cls, trUn, asWritten).value) <==>
      KeyOfSome(FindPtrs(arena, cache, cls, trUn == "Unlink").value, asWritten, k)
      && !MentionedFrom(arena, cache, cls, trUn, BodyItems(body), 0, k, asWritten)
  {
    var recs := FindPtrs(arena, cache, cls, trUn == "Unlink").value;
    ScanItemsExact(arena, cache, cls, trUn, BodyItems(body), 0, InitFields(recs, asWritten), asWritten);
  }

  /** Without parent calls nothing can abort the scan. */
  lemma {:induction false} ScanWithoutCallsOk(arena: Arena, cache: Option<Ty>, cls: Ty, trUn: string,
                                              items: seq<Item>, i: nat, fields: map<string, bool>, asWritten: bool)
    requires WF(arena)
    requires forall j :: i <= j < |items| ==> !IsParentCall(arena, items[j], trUn) && items[j].name.Some?
    ensures ScanItems(arena, cache, cls, trUn, items, i, fields, asWritten).Ok?
    decreases |items| - i
  {
    if i < |items| {
      var f := ItemStep(arena, cache, cls, trUn, items[i], fields, asWritten).value;
      ScanWithoutCallsOk(arena, cache, cls, trUn, items, i + 1, f, asWritten);
    }
  }

  /** An item that names field `n` of `cls` directly. */
  function FieldUse(n: string, cls: Ty): Item {
    Item(Some(n), None, false, Some(cls), [], None, [])
  }

  /** A one-block body that names every recorded field of `cls` once. */
  function UsesOfAll(recs: seq<PtrField>, cls: Ty): seq<Block> {
    [Block(seq(|recs|, k requires 0 <= k < |recs| => FieldUse(recs[k].field.name, cls)))]
  }

  lemma {:induction false} LeavesFlatten(s: seq<Item>)
    requires forall k :: 0 <= k < |s| ==> s[k].assign == [] && s[k].fieldOf.None? && s[k].arguments == []
    ensures ItemsItems(s) == s
  {
    if s != [] {
      assert ItemsItems(s[0].assign) == [] && ItemsItems(s[0].arguments) == [];
      assert ItemItems(s[0]) == [s[0]];
      LeavesFlatten(s[1..]);
      assert s == [s[0]] + s[1..];
    }
  }

  /** A direct use of field `n` of `cls` mentions exactly the key `n`. */
  lemma FieldUseMentions(arena: Arena, cache: Option<Ty>, cls: Ty, trUn: string, n: string, k: string, asWritten: bool)
    requires WF(arena)
    ensures Mentions(arena, cache, cls, trUn, FieldUse(n, cls), k, asWritten) <==> k == n
  {
    assert ItemIsFieldOf(arena, FieldUse(n, cls), cls);
  }

  /** The body that names every recorded field flattens to those field uses, in order. */
  lemma UsesOfAllItems(recs: seq<PtrField>, cls: Ty)
    ensures |BodyItems(UsesOfAll(recs, cls))| == |recs|
    ensures forall k :: 0 <= k < |recs| ==> BodyItems(UsesOfAll(recs, cls))[k] == FieldUse(recs[k].field.name, cls)
  {
    var body := UsesOfAll(recs, cls);
    var stmts := body[0].statements;
    assert forall k :: 0 <= k < |stmts| ==> stmts[k] == FieldUse(recs[k].field.name, cls);
    LeavesFlatten(stmts);
    assert body[1..] == [] && BodyItems(body[1..]) == [];
  }

  /** Some record is for a field named `k`. */
  ghost predicate NamedIn(recs: seq<PtrField>, k: string) {
    exists j :: 0 <= j < |recs| && recs[j].field.name == k
  }

  /** The corrected final table is the scan of the body's items over the initial table. */
  lemma FinalFieldsIs(arena: Arena, cache: Option<Ty>, body: seq<Block>, cls: Ty, trUn: string,
                      recs: seq<PtrField>)
    requires WF(arena)
    requires FindPtrs(arena, cache, cls, trUn == "Unlink") == Ok(recs)
    ensures FinalFields(arena, cache, body, cls, trUn, false)
         == ScanItems(arena, cache, cls, trUn, BodyItems(body), 0, InitFields(recs, false), false)
  {
  }

  /** Scanning the body that names every recorded field marks exactly the present keys that are field names. */
  lemma UsesOfAllScan(arena: Arena, cache: Option<Ty>, cls: Ty, trUn: string, recs: seq<PtrField>,
                      init: map<string, bool>, asWritten: bool)
    requires WF(arena)
    ensures var fin := ScanItems(arena, cache, cls, trUn, BodyItems(UsesOfAll(recs, cls)), 0, init, asWritten);
      && fin.Ok? && fin.value.Keys == init.Keys
      && forall k :: k in init ==> (fin.value[k] <==> init[k] || NamedIn(recs, k))
  {
    var items := BodyItems(UsesOfAll(recs, cls));
    UsesOfAllItems(recs, cls);
    ScanWithoutCallsOk(arena, cache, cls, trUn, items, 0, init, asWritten);
    ScanItemsExact(arena, cache, cls, trUn, items, 0, init, asWritten);
    forall k | k in init
      ensures MentionedFrom(arena, cache, cls, trUn, items, 0, k, asWritten) <==> NamedIn(recs, k)
    {
      forall j | 0 <= j < |recs|
        ensures Mentions(arena, cache, cls, trUn, items[j], k, asWritten) <==> recs[j].field.name == k
      {
        FieldUseMentions(arena, cache, cls, trUn, recs[j].field.name, k, asWritten);
      }
    }
  }

  /** With the corrected keys, naming every recorded field leaves nothing unmentioned. */
  lemma CorrectedCoveredBody(arena: Arena, cache: Option<Ty>, cls: Ty, trUn: string, recs: seq<PtrField>)
    requires WF(arena)
    requires FindPtrs(arena, cache, cls, trUn == "Unlink") == Ok(recs)
    ensures FinalFields(arena, cache, UsesOfAll(recs, cls), cls, trUn, false).Ok?
    ensures UnmentionedKeys(FinalFields(arena, cache, UsesOfAll(recs, cls), cls, trUn, false).value) == {}
  {
    var init := InitFields(recs, false);
    FinalFieldsIs(arena, cache, UsesOfAll(recs, cls), cls, trUn, recs);
    UsesOfAllScan(arena, cache, cls, trUn, recs, init, false);
    forall k | KeyOfSome(recs, false, k)
      ensures NamedIn(recs, k)
    {
      var e :| e in recs && RecordKey(e, false) == k;
      var j :| 0 <= j < |recs| && recs[j] == e;
    }
  }

  /** Over an empty table an item does the same whichever key the records use. */
  lemma ItemStepEmpty(arena: Arena, cache: Option<Ty>, cls: Ty, trUn: string, item: Item)
    requires WF(arena)
    ensures ItemStep(arena, cache, cls, trUn, item, map[], true) == ItemStep(arena, cache, cls, trUn, item, map[], false)
    ensures ItemStep(arena, cache, cls, trUn, item, map[], true).Ok? ==>
      ItemStep(arena, cache, cls, trUn, item, map[], true).value == map[]
  {
    if IsParentCall(arena, item, trUn) && FindPtrs(arena, cache, ParentOf(arena, item, trUn), false).Ok? {
      var recs := FindPtrs(arena, cache, ParentOf(arena, item, trUn), false).value;
      MarkAllExact(map[], recs, true);
      MarkAllExact(map[], recs, false);
    }
  }

  /** Over an empty table the scan does the same whichever key the records use, and the table stays empty. */
  lemma {:induction false} ScanEmpty(arena: Arena, cache: Option<Ty>, cls: Ty, trUn: string, items: seq<Item>, i: nat)
    requires WF(arena)
    ensures ScanItems(arena, cache, cls, trUn, items, i, map[], true) == ScanItems(arena, cache, cls, trUn, items, i, map[], false)
    ensures ScanItems(arena, cache, cls, trUn, items, i, map[], true).Ok? ==>
      ScanItems(arena, cache, cls, trUn, items, i, map[], true).value == map[]
    decreases |items| - i
  {
    if i < |items| {
      ItemStepEmpty(arena, cache, cls, trUn, items[i]);
      ScanEmpty(arena, cache, cls, trUn, items, i + 1);
    }
  }

  /**
   * As written, the audit aborts exactly when the corrected one does or when
   * the class has any pointer-field record; when it does not abort, its table
   * is empty, so it never reports an unmentioned field.
   */
  lemma AsWrittenAudit(arena: Arena, cache: Option<Ty>, body: seq<Block>, cls: Ty, trUn: string)
    requires WF(arena)
    ensures var own := FindPtrs(arena, cache, cls, trUn == "Unlink");
      FinalFields(arena, cache, body, cls, trUn, true).Fatal?
      <==> own.Fatal? || own.value != [] || FinalFields(arena, cache, body, cls, trUn, false).Fatal?
    ensures FinalFields(arena, cache, body, cls, trUn, true).Ok? ==>
      FinalFields(arena, cache, body, cls, trUn, true).value == map[]
  {
    var own := FindPtrs(arena, cache, cls, trUn == "Unlink");
    if own == Ok([]) {
      assert InitFields([], true) == map[] == InitFields([], false);
      ScanEmpty(arena, cache, cls, trUn, BodyItems(body), 0);
    }
  }

  /**
   * On the body that names every pointer field, the audit as written aborts
   * as soon as the class has one, where the corrected audit reports nothing.
   */
  lemma AsWrittenAbortsOnCoveredBody(arena: Arena, cache: Option<Ty>, cls: Ty, trUn: string, recs: seq<PtrField>)
    requires WF(arena)
    requires FindPtrs(arena, cache, cls, trUn == "Unlink") == Ok(recs)
    requires |recs| > 0
    ensures FinalFields(arena, cache, UsesOfAll(recs, cls), cls, trUn, true).Fatal?
    ensures FinalFields(arena, cache, UsesOfAll(recs, cls), cls, trUn, false).Ok?
    ensures UnmentionedKeys(FinalFields(arena, cache, UsesOfAll(recs, cls), cls, trUn, false).value) == {}
  {
    CorrectedCoveredBody(arena, cache, cls, trUn, recs);
  }

  // ---------------------------------------------------------------------
  // Sorted reports
  // ---------------------------------------------------------------------

  /** The default string order: character by character, a proper prefix first. */
  predicate StrLess(a: string, b: string) {
    if |a| == 0 then |b| > 0
    else if |b| == 0 then false
    else if a[0] == b[0] then StrLess(a[1..], b[1..])
    else a[0] < b[0]
  }

  lemma {:induction false} StrLessIrreflexive(a: string)
    ensures !StrLess(a, a)
  {
    if |a| > 0 {
      StrLessIrreflexive(a[1..]);
    }
  }

  lemma {:induction false} StrLessTrans(a: string, b: string, c: string)
    requires StrLess(a, b) && StrLess(b, c)
    ensures StrLess(a, c)
  {
    if |a| > 0 && a[0] == b[0] && b[0] == c[0] {
      StrLessTrans(a[1..], b[1..], c[1..]);
    }
  }

  lemma {:induction false} StrLessTotal(a: string, b: string)
    requires a != b
    ensures StrLess(a, b) || StrLess(b, a)
  {
    if |a| > 0 && |b| > 0 && a[0] == b[0] {
      assert a == [a[0]] + a[1..] && b == [b[0]] + b[1..];
      StrLessTotal(a[1..], b[1..]);
    }
  }

  predicate Sorted(s: seq<string>) {
    forall i, j :: 0 <= i < j < |s| ==> StrLess(s[i], s[j])
  }

  /** Insert a new name into its place in a sorted list. */
  function Insert(s: seq<string>, x: string): (r: seq<string>)
    requires Sorted(s) && x !in s
    ensures Sorted(r) && |r| == |s| + 1
    ensures forall y :: y in r <==> y in s || y == x
  {
    if s == [] then [x]
    else if StrLess(x, s[0]) then
      assert forall j :: 0 < j < |s| ==> StrLess(x, s[j]) by {
        forall j | 0 < j < |s| ensures StrLess(x, s[j]) {
          StrLessTrans(x, s[0], s[j]);
        }
      }
      [x] + s
    else
      StrLessTotal(x, s[0]);
      var rest := Insert(s[1..], x);
      assert forall y :: y in s[1..] ==> StrLess(s[0], y);
      [s[0]] + rest
  }

  /** Sort a list of distinct names. */
  method SortNames(xs: seq<string>) returns (r: seq<string>)
    requires NoDup(xs)
    ensures Sorted(r) && |r| == |xs|
    ensures forall y :: y in r <==> y in xs
  {
    r := [];
    for i := 0 to |xs|
      invariant Sorted(r) && |r| == i
      invariant forall y :: y in r <==> y in xs[..i]
    {
      assert xs[..i + 1] == xs[..i] + [xs[i]];
      r := Insert(r, xs[i]);
    }
    assert xs[..|xs|] == xs;
  }

  /** What a report says about a final table: nothing when every key was mentioned, else the rest in order. */
  ghost predicate ReportsOn(decl: FunctionDecl, rep: Option<Unrefed>, fields: map<string, bool>) {
    (rep.None? <==> UnmentionedKeys(fields) == {})
    && (rep.Some? ==>
          rep.value.methodName == decl.name && rep.value.loc == decl.loc && Sorted(rep.value.fields)
          && forall x :: x in rep.value.fields <==> x in UnmentionedKeys(fields))
  }

  /** Gather the unmentioned keys and sort them into a report. */
  method Report(decl: FunctionDecl, fields: map<string, bool>) returns (rep: Option<Unrefed>)
    ensures ReportsOn(decl, rep, fields)
  {
    var keys := fields.Keys;
    var unrefed: seq<string> := [];
    while keys != {}
      invariant keys <= fields.Keys && NoDup(unrefed)
      invariant forall x :: x in unrefed <==> x in fields && !fields[x] && x !in keys
      decreases |keys|
    {
      var k :| k in keys;
      if !fields[k] {
        unrefed := unrefed + [k];
      }
      keys := keys - {k};
    }
    if |unrefed| == 0 {
      rep := None;
      assert forall x :: x in UnmentionedKeys(fields) ==> x in unrefed;
    } else {
      var sorted := SortNames(unrefed);
      rep := Some(Unrefed(decl.name, decl.loc, sorted));
      assert unrefed[0] in UnmentionedKeys(fields);
    }
  }

  // ---------------------------------------------------------------------
  // The audit of one method
  // ---------------------------------------------------------------------

  /**
   * Check one Traverse or Unlink method of the helper for `cls`: build the
   * table, mark it from the body's items in order, and report what is left.
   */
  method CheckFunction(arena: Arena, cache: Option<Ty>, decl: FunctionDecl, body: seq<Block>, cls: Ty,
                       trUn: string) returns (r: Res<Option<Unrefed>>)
    requires WF(arena)
    ensures r.Fatal? <==> FinalFields(arena, cache, body, cls, trUn, false).Fatal?
    ensures r.Ok? ==> ReportsOn(decl, r.value, FinalFields(arena, cache, body, cls, trUn, false).value)
  {
    var own := FindPtrs(arena, cache, cls, trUn == "Unlink");
    if own.Fatal? {
      return Fatal(own.msg);
    }
    var fields := BuildFields(own.value);
    var items := BodyItems(body);
    var res := MarkItems(arena, cache, cls, trUn, items, fields);
    if res.Fatal? {
      return Fatal(res.msg);
    }
    var rep := Report(decl, res.value);
    r := Ok(rep);
  }

  /** Enter every record's field, unmentioned. */
  method BuildFields(recs: seq<PtrField>) returns (fields: map<string, bool>)
    ensures fields == InitFields(recs, false)
  {
    fields := map[];
    for k := 0 to |recs|
      invariant fields == InitFields(recs[..k], false)
    {
      assert recs[..k + 1][..k] == recs[..k];
      fields := fields[recs[k].field.name := false];
    }
    assert recs[..|recs|] == recs;
  }

  /** Walk the body's items in order, marking the table; a failed parent lookup aborts. */
  method MarkItems(arena: Arena, cache: Option<Ty>, cls: Ty, trUn: string, items: seq<Item>,
                   init: map<string, bool>) returns (r: Res<map<string, bool>>)
    requires WF(arena)
    ensures r == ScanItems(arena, cache, cls, trUn, items, 0, init, false)
  {
    var fields := init;
    var i := 0;
    while i < |items|
      invariant i <= |items|
      invariant ScanItems(arena, cache, cls, trUn, items, i, fields, false)
             == ScanItems(arena, cache, cls, trUn, items, 0, init, false)
    {
      var item := items[i];
      if IsParentCall(arena, item, trUn) {
        var pr := FindPtrs(arena, cache, ParentOf(arena, item, trUn), false);
        if pr.Fatal? {
          return Fatal(pr.msg);
        }
        fields := MarkParent(fields, pr.value);
      }
      if ItemIsFieldOf(arena, item, cls) {
        var key := KeyOf(item.name);
        if key in fields && !fields[key] {
          if item.name.None? {
            return Fatal(NameUndefinedError);
          }
          fields := fields[key := true];
        }
      }
      i := i + 1;
    }
    r := Ok(fields);
  }

  /** Mark every field of a parent's records that is present and unmentioned. */
  method MarkParent(init: map<string, bool>, recs: seq<PtrField>) returns (fields: map<string, bool>)
    ensures fields == MarkAll(init, recs, false)
  {
    fields := init;
    for j := 0 to |recs|
      invariant MarkAll(fields, recs[j..], false) == MarkAll(init, recs, false)
    {
      assert recs[j..][1..] == recs[j + 1..];
      var key := recs[j].field.name;
      if key in fields && !fields[key] {
        fields := fields[key := true];
      }
    }
  }

  /**
   * Audit one function: only Traverse and Unlink methods of helper classes
   * are checked, against the class enclosing the helper. A free function of
   * those names, or a helper class not nested in a class, aborts the run.
   */
  method ProcessFunction(arena: Arena, cache: Option<Ty>, decl: FunctionDecl, body: seq<Block>)
    returns (r: Res<Option<Unrefed>>)
    requires WF(arena)
    ensures decl.shortName != "Traverse" && decl.shortName != "Unlink" ==> r == Ok(None)
    ensures (decl.shortName == "Traverse" || decl.shortName == "Unlink") && decl.memberOf.None? ==> r.Fatal?
    ensures decl.memberOf.Some? && !IsAudited(arena, decl) ==> r == Ok(None)
    ensures IsAudited(arena, decl) && MemberOf(arena, decl.memberOf.value).None? ==> r.Fatal?
    ensures IsAudited(arena, decl) && MemberOf(arena, decl.memberOf.value).Some? ==>
      var fin := FinalFields(arena, cache, body, MemberOf(arena, decl.memberOf.value).value, decl.shortName, false);
      (r.Fatal? <==> fin.Fatal?) && (r.Ok? ==> ReportsOn(decl, r.value, fin.value))
  {
    if decl.shortName != "Traverse" && decl.shortName != "Unlink" {
      return Ok(None);
    }
    if decl.memberOf.None? {
      return Fatal("decl.memberOf is undefined");
    }
    var helper := decl.memberOf.value;
    if !helper.Class? || Decl(arena, helper.id).kind != ClassKind {
      return Ok(None);
    }
    var name := Name(arena, helper);
    if name.None? || !IsHelperName(name.value) {
      return Ok(None);
    }
    var cls := MemberOf(arena, helper);
    if cls.None? {
      return Fatal("cls is undefined");
    }
    r := CheckFunction(arena, cache, decl, body, cls.value, decl.shortName);
  }
}
