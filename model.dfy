/**
 * The compiler's type model as the cycle-collection audits see it: type
 * terms, class declarations kept in an arena indexed by class id, and the
 * structural assumption the analyses make of them (inheritance is acyclic).
 */
module TypeModel {

  datatype Option<T> = None | Some(value: T)

  /** Result of an operation that aborts the whole analysis run on failure. */
  datatype Res<T> = Ok(value: T) | Fatal(msg: string)

  /** The `kind` the compiler reports for a record type. */
  datatype Kind = ClassKind | StructKind | UnionKind

  /**
   * A type term. A class (template instances included) is named by its id in
   * the arena; an instance of a class template carries the template's name
   * and its arguments. A `Scalar` is a number, enum or bit-field type, with
   * the metadata the classifier tests (`precision`, `min`, bit-field).
   * A `Literal` is a non-type template argument such as 'true'.
   */
  datatype Ty =
    | Class(id: nat, template: Option<TemplateInst>)
    | Typedef(name: string, target: Ty)
    | ArrayOf(elem: Ty)
    | Pointer(pointee: Ty)
    | Reference(referent: Ty)
    | Scalar(sname: Option<string>, precision: nat, min: int, bitfield: bool)
    | Literal(text: string)

  datatype TemplateInst = TemplateInst(name: string, args: seq<Ty>)

  /**
   * A field or method of a class. For a method, `ty` is its return type;
   * `isPureVirtual` stands for `isVirtual == 'pure'`.
   */
  datatype Member = Member(name: string, shortName: string, ty: Ty, isFunction: bool, isPureVirtual: bool)

  /**
   * A class declaration. `members` is absent for an incomplete class;
   * `memberOf` is the enclosing class of a nested class.
   */
  datatype ClassDecl = ClassDecl(name: Option<string>, kind: Kind, bases: seq<Ty>,
                                 members: Option<seq<Member>>, memberOf: Option<Ty>)

  type Arena = seq<ClassDecl>

  /** The declaration of class `id`; an unknown id reads as an anonymous class with nothing in it. */
  function Decl(arena: Arena, id: nat): ClassDecl {
    if id < |arena| then arena[id] else ClassDecl(None, ClassKind, [], None, None)
  }

  /** The position of a type in the inheritance order: base classes come before derived ones. */
  function ClassRank(t: Ty): nat {
    match t
    case Class(id, _) => id + 1
    case Typedef(_, x) => ClassRank(x)
    case _ => 0
  }

  /** The size of a type term, used with ClassRank to order recursive calls. */
  function Size(t: Ty): nat {
    match t
    case Typedef(_, x) => 1 + Size(x)
    case ArrayOf(x) => 1 + Size(x)
    case Pointer(x) => 1 + Size(x)
    case Reference(x) => 1 + Size(x)
    case _ => 1
  }

  /** Inheritance is acyclic: the arena lists every base class before the classes derived from it. */
  ghost predicate WF(arena: Arena) {
    forall i, j :: 0 <= i < |arena| && 0 <= j < |arena[i].bases| ==> ClassRank(arena[i].bases[j]) <= i
  }

  /** The `name` property of a type: classes, typedefs and scalars may have one. */
  function Name(arena: Arena, t: Ty): Option<string> {
    match t
    case Class(id, _) => Decl(arena, id).name
    case Typedef(n, _) => Some(n)
    case Scalar(n, _, _, _) => n
    case _ => None
  }

  /** The enclosing class of a nested class. */
  function MemberOf(arena: Arena, t: Ty): Option<Ty> {
    if t.Class? then Decl(arena, t.id).memberOf else None
  }

  /** The direct base types of a type; only classes have bases. */
  function Bases(arena: Arena, t: Ty): (r: seq<Ty>)
    ensures WF(arena) ==> forall b :: b in r ==> ClassRank(b) < ClassRank(t)
  {
    match t
    case Class(id, _) => Decl(arena, id).bases
    case _ => []
  }

  /** The member list of a type; only classes have one, and incomplete classes lack it. */
  function Members(arena: Arena, t: Ty): Option<seq<Member>> {
    if t.Class? then Decl(arena, t.id).members else None
  }

  /** The template a type instantiates, if it is a class template instance. */
  function TemplateOf(t: Ty): Option<TemplateInst> {
    if t.Class? then t.template else None
  }

  /** True iff `name` is the given string (an absent name equals no string). */
  predicate NameIs(arena: Arena, t: Ty, s: string) {
    Name(arena, t) == Some(s)
  }

  /** The type and every type term nested in it (typedef targets, elements, pointees, template arguments). */
  function Subterms(t: Ty): (r: set<Ty>)
    ensures t in r
  {
    match t
    case Class(_, tm) => {t} + (if tm.Some? then SubtermsOfArgs(tm.value.args) else {})
    case Typedef(_, x) => {t} + Subterms(x)
    case ArrayOf(x) => {t} + Subterms(x)
    case Pointer(x) => {t} + Subterms(x)
    case Reference(x) => {t} + Subterms(x)
    case _ => {t}
  }

  /** A type with every pointer and reference layer removed. */
  function StripRefs(t: Ty): (r: Ty)
    ensures !r.Pointer? && !r.Reference? && r in Subterms(t)
  {
    match t
    case Pointer(x) => StripRefs(x)
    case Reference(x) => StripRefs(x)
    case _ => t
  }

  function SubtermsOfArgs(args: seq<Ty>): (r: set<Ty>)
    ensures forall a :: a in args ==> Subterms(a) <= r
  {
    if args == [] then {} else Subterms(args[0]) + SubtermsOfArgs(args[1..])
  }

  /** Every type term written in the declared type of some member of some class. */
  ghost function ArenaSubterms(arena: Arena): set<Ty> {
    set i, k, u | 0 <= i < |arena| && arena[i].members.Some? && 0 <= k < |arena[i].members.value|
                  && u in Subterms(arena[i].members.value[k].ty) :: u
  }

  /** A type written in a member of a declared class is one of the arena's subterms. */
  lemma MemberSubterm(arena: Arena, c: Ty, k: nat, u: Ty)
    requires Members(arena, c).Some? && k < |Members(arena, c).value|
    requires u in Subterms(Members(arena, c).value[k].ty)
    ensures u in ArenaSubterms(arena)
  {
    assert c.Class? && c.id < |arena| && arena[c.id].members.Some?;
  }

  /** The type and all of its ancestors through the base-class links. */
  function BaseClosure(arena: Arena, t: Ty): (r: set<Ty>)
    requires WF(arena)
    ensures t in r
    decreases ClassRank(t), 1, 0
  {
    {t} + BasesClosure(arena, t, 0)
  }

  function BasesClosure(arena: Arena, t: Ty, i: nat): set<Ty>
    requires WF(arena)
    decreases ClassRank(t), 0, |Bases(arena, t)| - i
  {
    var bs := Bases(arena, t);
    if i >= |bs| then {} else BaseClosure(arena, bs[i]) + BasesClosure(arena, t, i + 1)
  }

  /** Sequences without repeated elements. */
  predicate NoDup<T(==)>(s: seq<T>) {
    forall i, j :: 0 <= i < j < |s| ==> s[i] != s[j]
  }

  /** `p` is a prefix of `s`. */
  predicate IsPrefix<T(==)>(p: seq<T>, s: seq<T>) {
    |p| <= |s| && s[..|p|] == p
  }
}
