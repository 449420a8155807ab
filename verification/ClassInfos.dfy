/** Descriptions of classes: how they are built and cached, and what depends on what. */
module ClassInfos {
  import opened Options
  import opened Strings

  type ClassId = nat

  /** A type as reflection gives it: a class, or an array of a type. */
  datatype Type = Class(id: ClassId) | ArrayOf(component: Type)

  function Strip(t: Type): ClassId {
    match t
    case Class(id) => id
    case ArrayOf(c) => Strip(c)
  }

  function Dimension(t: Type): nat {
    match t
    case Class(_) => 0
    case ArrayOf(c) => 1 + Dimension(c)
  }

  datatype Field = Field(name: string, ftype: Type, isStatic: bool)

  /** `skipped` is a static method or one that `Object` has. */
  datatype Method = Method(name: string, params: seq<Type>, result: Type, skipped: bool)

  /**
    What reflection says about a class, with its simple name. A `basic` class is
    one described in advance: its name is the one given there, and its members do
    not count.
  */
  datatype ClassDesc = ClassDesc(name: string, basic: bool, isEnum: bool, fields: seq<Field>, methods: seq<Method>)

  type World = map<ClassId, ClassDesc>

  /** Reflection mentions no class it does not know. */
  ghost predicate ClosedWorld(w: World) {
    forall c :: c in w ==>
      && (forall i :: 0 <= i < |w[c].fields| ==> Strip(w[c].fields[i].ftype) in w)
      && (forall i :: 0 <= i < |w[c].methods| ==>
            && Strip(w[c].methods[i].result) in w
            && forall j :: 0 <= j < |w[c].methods[i].params| ==> Strip(w[c].methods[i].params[j]) in w)
  }

  const VOID: ClassId := 0

  // ---------------------------------------------------- what is to be built

  datatype FieldSpec = FieldSpec(ftype: Type, readable: bool, writable: bool)

  type FieldSpecs = map<string, FieldSpec>

  datatype Accessor = NotAccessor | Getter(name: string) | Setter(name: string)

  /** `extractFieldFromGetterOrSetter`. */
  function AccessorOf(m: Method): Accessor {
    if |m.name| < 4 || Upper(m.name[3]) != m.name[3] then NotAccessor
    else
      var name := [Lower(m.name[3])] + m.name[4..];
      if m.params == [] && m.result != Class(VOID) && m.name[..3] == "get" then Getter(name)
      else if |m.params| == 1 && m.result == Class(VOID) && m.name[..3] == "set" then Setter(name)
      else NotAccessor
  }

  function AccessorSpec(m: Method): FieldSpec
    requires !AccessorOf(m).NotAccessor?
  {
    if AccessorOf(m).Getter? then FieldSpec(m.result, true, false) else FieldSpec(m.params[0], false, true)
  }

  /** An accessor met after another of the same name makes the field readable and writable. */
  function Merge(fs: FieldSpecs, name: string, spec: FieldSpec): FieldSpecs {
    if name !in fs then fs[name := spec]
    else if !fs[name].readable || !fs[name].writable then fs[name := FieldSpec(spec.ftype, true, true)]
    else fs
  }

  function AfterFields(d: ClassDesc, n: nat): FieldSpecs
    requires n <= |d.fields|
  {
    if n == 0 then map[]
    else
      var fs, f := AfterFields(d, n - 1), d.fields[n - 1];
      if f.isStatic then fs else fs[f.name := FieldSpec(f.ftype, true, true)]
  }

  function FieldsAlone(d: ClassDesc, n: nat): (FieldSpecs, seq<Method>)
    requires n <= |d.fields|
  {
    (AfterFields(d, n), [])
  }

  function NameOf(w: World, t: Type): string {
    if Strip(t) in w then w[Strip(t)].name else ""
  }

  /** References to these types are equal. */
  predicate SameType(w: World, s: Type, t: Type) {
    NameOf(w, s) == NameOf(w, t) && Dimension(s) == Dimension(t)
  }

  /** Equal references are to classes of one simple name, through as many array types. */
  lemma SameTypeMeans(w: World, a: ClassId, b: ClassId, s: Type, t: Type)
    requires a in w && b in w
    ensures SameType(w, Class(a), Class(b)) <==> w[a].name == w[b].name
    ensures SameType(w, ArrayOf(s), ArrayOf(t)) <==> SameType(w, s, t)
    ensures !SameType(w, Class(a), ArrayOf(t)) && !SameType(w, ArrayOf(s), Class(b))
  {
  }

  /** `MethodInfo.equals`, which sees simple names and dimensions and nothing else of a type. */
  predicate SameMethod(w: World, m: Method, o: Method) {
    && m.name == o.name && |m.params| == |o.params| && SameType(w, m.result, o.result)
    && forall i :: 0 <= i < |m.params| ==> SameType(w, m.params[i], o.params[i])
  }

  /** The set of methods, in the order they joined it: one equal to another does not. */
  function WithMethod(w: World, ms: seq<Method>, m: Method): seq<Method> {
    if exists i :: 0 <= i < |ms| && SameMethod(w, ms[i], m) then ms else ms + [m]
  }

  /** One method more: passed over, a member of the set, or the accessor of a field. */
  function WithMember(w: World, was: (FieldSpecs, seq<Method>), m: Method): (FieldSpecs, seq<Method>) {
    if m.skipped then was
    else if AccessorOf(m).NotAccessor? then (was.0, WithMethod(w, was.1, m))
    else (Merge(was.0, AccessorOf(m).name, AccessorSpec(m)), was.1)
  }

  function AfterMethods(w: World, d: ClassDesc, n: nat): (FieldSpecs, seq<Method>)
    requires n <= |d.methods|
  {
    if n == 0 then (AfterFields(d, |d.fields|), []) else WithMember(w, AfterMethods(w, d, n - 1), d.methods[n - 1])
  }

  /** The fields and methods a class is described by; an enum has neither. */
  function Described(w: World, d: ClassDesc): (FieldSpecs, seq<Method>) {
    if d.isEnum then (map[], []) else AfterMethods(w, d, |d.methods|)
  }

  // ------------------------------------------------------ what members make of it

  /** A getter is named so, takes nothing and gives something; a setter takes one thing and gives nothing. The field's name begins small. */
  lemma AccessorMeans(m: Method)
    ensures AccessorOf(m).Getter? <==>
      |m.name| > 3 && m.name[..3] == "get" && Upper(m.name[3]) == m.name[3] && m.params == [] && m.result != Class(VOID)
    ensures AccessorOf(m).Setter? <==>
      |m.name| > 3 && m.name[..3] == "set" && Upper(m.name[3]) == m.name[3] && |m.params| == 1 && m.result == Class(VOID)
    ensures !AccessorOf(m).NotAccessor? ==> AccessorOf(m).name == [Lower(m.name[3])] + m.name[4..]
  {
  }

  /** A public field that is not static has this name. */
  ghost predicate HasField(d: ClassDesc, n: nat, name: string)
    requires n <= |d.fields|
  {
    exists i :: 0 <= i < n && !d.fields[i].isStatic && d.fields[i].name == name
  }

  /** Method `i` is an accessor of the field. */
  predicate Accesses(d: ClassDesc, i: nat, name: string)
    requires i < |d.methods|
  {
    var m := d.methods[i];
    !m.skipped && (AccessorOf(m) == Getter(name) || AccessorOf(m) == Setter(name))
  }

  /** One of the first `n` methods is an accessor of the field. */
  ghost predicate IsAccessed(d: ClassDesc, n: nat, name: string)
    requires n <= |d.methods|
  {
    exists i :: 0 <= i < n && Accesses(d, i, name)
  }

  ghost predicate IsAccessedTwice(d: ClassDesc, n: nat, name: string)
    requires n <= |d.methods|
  {
    exists i, j :: 0 <= i < j < n && Accesses(d, i, name) && Accesses(d, j, name)
  }

  /** What a getter says of its field, and a setter of its own. */
  ghost predicate SaysOf(m: Method, spec: FieldSpec) {
    if AccessorOf(m).Getter? then spec.readable && !spec.writable && spec.ftype == m.result
    else spec.writable && !spec.readable && |m.params| == 1 && spec.ftype == m.params[0]
  }

  /** What the fields and the first `n` methods have made of one field. */
  ghost predicate FieldMeans(d: ClassDesc, fs: FieldSpecs, n: nat, name: string)
    requires n <= |d.methods|
  {
    && (name in fs <==> HasField(d, |d.fields|, name) || IsAccessed(d, n, name))
    && (HasField(d, |d.fields|, name) || IsAccessedTwice(d, n, name) ==> name in fs && fs[name].readable && fs[name].writable)
    && forall i :: 0 <= i < n && Accesses(d, i, name) && !HasField(d, |d.fields|, name) && !IsAccessedTwice(d, n, name) ==>
         name in fs && SaysOf(d.methods[i], fs[name])
  }

  lemma {:induction false} FieldsMean(d: ClassDesc, n: nat, name: string)
    requires n <= |d.fields|
    ensures name in AfterFields(d, n) <==> HasField(d, n, name)
    ensures name in AfterFields(d, n) ==> AfterFields(d, n)[name].readable && AfterFields(d, n)[name].writable
  {
    if n > 0 {
      FieldsMean(d, n - 1, name);
      if HasField(d, n - 1, name) {
        var i :| 0 <= i < n - 1 && !d.fields[i].isStatic && d.fields[i].name == name;
        assert 0 <= i < n;
      }
    }
  }

  /** One method more. */
  lemma AccessedMore(d: ClassDesc, n: nat, name: string)
    requires n < |d.methods|
    ensures IsAccessed(d, n + 1, name) <==> IsAccessed(d, n, name) || Accesses(d, n, name)
    ensures IsAccessedTwice(d, n + 1, name) <==> IsAccessedTwice(d, n, name) || (IsAccessed(d, n, name) && Accesses(d, n, name))
  {
    hide Accesses;
    if IsAccessed(d, n, name) && Accesses(d, n, name) {
      var i :| 0 <= i < n && Accesses(d, i, name);
      assert 0 <= i < n < n + 1;
    }
  }

  lemma FieldMeansMore(w: World, d: ClassDesc, was: (FieldSpecs, seq<Method>), n: nat, name: string)
    requires n < |d.methods| && FieldMeans(d, was.0, n, name)
    ensures FieldMeans(d, WithMember(w, was, d.methods[n]).0, n + 1, name)
  {
    hide HasField, IsAccessed, IsAccessedTwice, WithMethod;
    AccessedMore(d, n, name);
    forall i | 0 <= i < n && Accesses(d, i, name)
      ensures IsAccessed(d, n, name)
    {
      IsOne(d, n, name, i);
    }
  }

  lemma IsOne(d: ClassDesc, n: nat, name: string, i: nat)
    requires i < n <= |d.methods| && Accesses(d, i, name)
    ensures IsAccessed(d, n, name)
  {
  }

  lemma {:induction false} MembersMean(w: World, d: ClassDesc, n: nat, name: string)
    requires n <= |d.methods|
    ensures FieldMeans(d, AfterMethods(w, d, n).0, n, name)
  {
    if n == 0 {
      FieldsMean(d, |d.fields|, name);
    } else {
      MembersMean(w, d, n - 1, name);
      FieldMeansMore(w, d, AfterMethods(w, d, n - 1), n - 1, name);
    }
  }

  /** The last public field of the name. */
  ghost predicate LastField(d: ClassDesc, n: nat, name: string, i: nat)
    requires i < n <= |d.fields|
  {
    && !d.fields[i].isStatic && d.fields[i].name == name
    && forall k :: i < k < n ==> d.fields[k].isStatic || d.fields[k].name != name
  }

  /** Of the accessors of the name, methods `i` and `j` are the first two. */
  ghost predicate FirstTwo(d: ClassDesc, name: string, i: nat, j: nat)
    requires i < j < |d.methods|
  {
    && Accesses(d, i, name) && Accesses(d, j, name)
    && forall k :: 0 <= k < j && k != i ==> !Accesses(d, k, name)
  }

  /** What a getter gives, or a setter takes. */
  function Accessed(m: Method): Type
    requires |m.params| <= 1
  {
    if m.params == [] then m.result else m.params[0]
  }

  lemma {:induction false} FieldTypes(d: ClassDesc, n: nat, name: string, i: nat)
    requires i < n <= |d.fields| && LastField(d, n, name, i)
    ensures name in AfterFields(d, n) && AfterFields(d, n)[name] == FieldSpec(d.fields[i].ftype, true, true)
  {
    if i < n - 1 {
      FieldTypes(d, n - 1, name, i);
    }
  }

  /** A field keeps the type of its last public field, whatever its accessors are of. */
  lemma {:induction false} PublicTypeStays(w: World, d: ClassDesc, n: nat, name: string, i: nat)
    requires n <= |d.methods| && i < |d.fields| && LastField(d, |d.fields|, name, i)
    ensures var fs := AfterMethods(w, d, n).0; name in fs && fs[name] == FieldSpec(d.fields[i].ftype, true, true)
  {
    if n == 0 {
      FieldTypes(d, |d.fields|, name, i);
    } else {
      PublicTypeStays(w, d, n - 1, name, i);
    }
  }

  /** Without one it gets the type of its second accessor, and keeps that. */
  lemma {:induction false} SecondTypeStays(w: World, d: ClassDesc, n: nat, name: string, i: nat, j: nat)
    requires i < j < n <= |d.methods| && FirstTwo(d, name, i, j) && !HasField(d, |d.fields|, name)
    ensures var fs := AfterMethods(w, d, n).0;
      name in fs && |d.methods[j].params| <= 1 && fs[name] == FieldSpec(Accessed(d.methods[j]), true, true)
  {
    hide HasField;
    if j < n - 1 {
      SecondTypeStays(w, d, n - 1, name, i, j);
    } else {
      MembersMean(w, d, j, name);
      OnlyOnce(d, name, i, j);
    }
  }

  lemma OnlyOnce(d: ClassDesc, name: string, i: nat, j: nat)
    requires i < j < |d.methods| && FirstTwo(d, name, i, j)
    ensures Accesses(d, i, name) && !IsAccessedTwice(d, j, name)
  {
  }

  predicate IsPlainMethod(m: Method) {
    !m.skipped && AccessorOf(m).NotAccessor?
  }

  predicate IsMember(d: ClassDesc, n: nat, m: Method)
    requires n <= |d.methods|
  {
    m in d.methods[..n] && IsPlainMethod(m)
  }

  predicate HasEqual(w: World, ms: seq<Method>, m: Method) {
    exists i :: 0 <= i < |ms| && SameMethod(w, ms[i], m)
  }

  ghost predicate AreApart(w: World, ms: seq<Method>) {
    forall i, j :: 0 <= i < j < |ms| ==> !SameMethod(w, ms[i], ms[j])
  }

  /** The methods left are members that are no accessors; each of those is equal to one left, and no two left are equal. */
  ghost predicate MethodsMean(w: World, d: ClassDesc, n: nat, ms: seq<Method>)
    requires n <= |d.methods|
  {
    && (forall m :: m in ms ==> IsMember(d, n, m))
    && (forall m :: IsMember(d, n, m) ==> HasEqual(w, ms, m))
    && AreApart(w, ms)
  }

  lemma {:induction false} MethodsAreMeant(w: World, d: ClassDesc, n: nat)
    requires n <= |d.methods|
    ensures MethodsMean(w, d, n, AfterMethods(w, d, n).1)
  {
    if n > 0 {
      hide SameMethod, IsPlainMethod, HasEqual, AreApart;
      var was := AfterMethods(w, d, n - 1);
      var m := d.methods[n - 1];
      MethodsAreMeant(w, d, n - 1);
      OneMethodMore(w, was, m);
      assert d.methods[..n] == d.methods[..n - 1] + [m];
      forall o | HasEqual(w, was.1, o)
        ensures HasEqual(w, WithMember(w, was, m).1, o)
      {
        StillEqual(w, was, m, o);
      }
    }
  }

  lemma OneMethodMore(w: World, was: (FieldSpecs, seq<Method>), m: Method)
    requires AreApart(w, was.1)
    ensures var ms := WithMember(w, was, m).1;
      && AreApart(w, ms) && (IsPlainMethod(m) ==> HasEqual(w, ms, m))
      && forall o :: o in ms ==> o in was.1 || (o == m && IsPlainMethod(m))
  {
    var ms := WithMember(w, was, m).1;
    assert SameMethod(w, m, m);
    hide SameMethod;
    if |ms| > |was.1| {
      assert ms[|was.1|] == m;
    }
  }

  lemma StillEqual(w: World, was: (FieldSpecs, seq<Method>), m: Method, o: Method)
    requires HasEqual(w, was.1, o)
    ensures HasEqual(w, WithMember(w, was, m).1, o)
  {
    hide SameMethod;
    var ms := WithMember(w, was, m).1;
    var i :| 0 <= i < |was.1| && SameMethod(w, was.1[i], o);
    assert ms[i] == was.1[i];
  }

  // ------------------------------------------------------ what is on the heap

  datatype ClassRef = ClassRef(info: ClassInfo, dimension: nat)
  datatype FieldInfo = FieldInfo(ftype: ClassRef, readable: bool, writable: bool)
  datatype MethodInfo = MethodInfo(name: string, params: seq<ClassRef>, result: ClassRef)

  class ClassInfo {
    ghost const id: ClassId      // the class it is cached for
    const name: string
    const typeSimple: bool
    const typeEnum: bool
    var fields: map<string, FieldInfo>
    var methods: seq<MethodInfo>

    constructor (ghost id: ClassId, name: string, typeSimple: bool, typeEnum: bool)
      ensures this.id == id && this.name == name && this.typeSimple == typeSimple && this.typeEnum == typeEnum
      ensures fields == map[] && methods == []
    {
      this.id := id;
      this.name := name;
      this.typeSimple := typeSimple;
      this.typeEnum := typeEnum;
      fields := map[];
      methods := [];
    }
  }

  type Cache = map<ClassId, ClassInfo>

  /** No entry of `c` was replaced on the way to `c'`. */
  ghost predicate Extends(c: Cache, c': Cache) {
    forall k :: k in c ==> k in c' && c'[k] == c[k]
  }

  lemma ExtendsOn(a: Cache, b: Cache, c: Cache)
    requires Extends(a, b) && Extends(b, c)
    ensures Extends(a, c)
  {
  }

  /** The reference to a type is the one to the cached description of its class. */
  ghost predicate RefersTo(c: Cache, r: ClassRef, t: Type) {
    Strip(t) in c && r == ClassRef(c[Strip(t)], Dimension(t))
  }

  ghost predicate FieldsLinked(c: Cache, fields: map<string, FieldInfo>, fs: FieldSpecs) {
    && (forall n :: n in fields <==> n in fs)
    && forall n :: n in fs ==>
         && RefersTo(c, fields[n].ftype, fs[n].ftype)
         && fields[n].readable == fs[n].readable && fields[n].writable == fs[n].writable
  }

  ghost predicate ParamsLinked(c: Cache, refs: seq<ClassRef>, types: seq<Type>) {
    |refs| == |types| && forall i :: 0 <= i < |types| ==> RefersTo(c, refs[i], types[i])
  }

  ghost predicate MethodLinked(c: Cache, mi: MethodInfo, m: Method) {
    mi.name == m.name && ParamsLinked(c, mi.params, m.params) && RefersTo(c, mi.result, m.result)
  }

  ghost predicate MethodsLinked(c: Cache, methods: seq<MethodInfo>, ms: seq<Method>) {
    |methods| == |ms| && forall i :: 0 <= i < |ms| ==> MethodLinked(c, methods[i], ms[i])
  }

  ghost predicate Linked(c: Cache, fields: map<string, FieldInfo>, methods: seq<MethodInfo>, d: (FieldSpecs, seq<Method>)) {
    FieldsLinked(c, fields, d.0) && MethodsLinked(c, methods, d.1)
  }

  lemma EmptyIsLinked(c: Cache)
    ensures Linked(c, map[], [], (map[], []))
  {
  }

  lemma ParamsStay(c: Cache, c': Cache, refs: seq<ClassRef>, types: seq<Type>)
    requires Extends(c, c') && ParamsLinked(c, refs, types)
    ensures ParamsLinked(c', refs, types)
  {
    forall i | 0 <= i < |types|
      ensures RefersTo(c', refs[i], types[i])
    {
      assert RefersTo(c, refs[i], types[i]);
    }
  }

  lemma LinkedStays(c: Cache, c': Cache, fields: map<string, FieldInfo>, methods: seq<MethodInfo>, d: (FieldSpecs, seq<Method>))
    requires Extends(c, c') && Linked(c, fields, methods, d)
    ensures Linked(c', fields, methods, d)
  {
    forall i | 0 <= i < |d.1|
      ensures MethodLinked(c', methods[i], d.1[i])
    {
      assert MethodLinked(c, methods[i], d.1[i]);
    }
  }

  lemma FieldMerges(c: Cache, fields: map<string, FieldInfo>, fs: FieldSpecs, name: string, spec: FieldSpec, r: ClassRef)
    requires FieldsLinked(c, fields, fs) && RefersTo(c, r, spec.ftype)
    ensures name !in fields ==>
      FieldsLinked(c, fields[name := FieldInfo(r, spec.readable, spec.writable)], Merge(fs, name, spec))
    ensures name in fields && (!fields[name].readable || !fields[name].writable) ==>
      FieldsLinked(c, fields[name := FieldInfo(r, true, true)], Merge(fs, name, spec))
    ensures name in fields && fields[name].readable && fields[name].writable ==> Merge(fs, name, spec) == fs
  {
  }

  lemma FieldSets(c: Cache, fields: map<string, FieldInfo>, fs: FieldSpecs, name: string, t: Type, r: ClassRef)
    requires FieldsLinked(c, fields, fs) && RefersTo(c, r, t)
    ensures FieldsLinked(c, fields[name := FieldInfo(r, true, true)], fs[name := FieldSpec(t, true, true)])
  {
  }

  predicate EqualRefs(r: ClassRef, q: ClassRef) {
    r.info.name == q.info.name && r.dimension == q.dimension
  }

  /** `MethodInfo.equals`. */
  predicate EqualMethods(m: MethodInfo, o: MethodInfo) {
    && m.name == o.name && |m.params| == |o.params| && EqualRefs(m.result, o.result)
    && forall i :: 0 <= i < |m.params| ==> EqualRefs(m.params[i], o.params[i])
  }

  /** `HashSet.add`, on a set kept in the order of its elements' coming. */
  function WithMethodInfo(methods: seq<MethodInfo>, m: MethodInfo): seq<MethodInfo> {
    if exists i :: 0 <= i < |methods| && EqualMethods(methods[i], m) then methods else methods + [m]
  }

  ghost predicate NamedAs(w: World, c: Cache) {
    forall k :: k in c ==> k in w && c[k].name == w[k].name
  }

  lemma EqualAsSame(w: World, c: Cache, a: MethodInfo, m: Method, b: MethodInfo, o: Method)
    requires NamedAs(w, c) && MethodLinked(c, a, m) && MethodLinked(c, b, o)
    ensures EqualMethods(a, b) <==> SameMethod(w, m, o)
  {
    forall i | 0 <= i < |m.params| == |o.params|
      ensures EqualRefs(a.params[i], b.params[i]) <==> SameType(w, m.params[i], o.params[i])
    {
      assert RefersTo(c, a.params[i], m.params[i]) && RefersTo(c, b.params[i], o.params[i]);
    }
  }

  lemma MethodsGrow(w: World, c: Cache, methods: seq<MethodInfo>, ms: seq<Method>, mi: MethodInfo, m: Method)
    requires NamedAs(w, c) && MethodsLinked(c, methods, ms) && MethodLinked(c, mi, m)
    ensures MethodsLinked(c, WithMethodInfo(methods, mi), WithMethod(w, ms, m))
  {
    hide NamedAs, MethodLinked, EqualMethods, SameMethod;
    forall i | 0 <= i < |ms|
      ensures EqualMethods(methods[i], mi) <==> SameMethod(w, ms[i], m)
    {
      EqualAsSame(w, c, methods[i], ms[i], mi, m);
    }
    if exists i :: 0 <= i < |ms| && SameMethod(w, ms[i], m) {
      var i :| 0 <= i < |ms| && SameMethod(w, ms[i], m);
      assert EqualMethods(methods[i], mi);
    }
  }

  class ClassCache {
    const world: World   // what reflection knows
    var infos: Cache

    constructor (world: World, basics: Cache)
      requires forall k :: k in basics <==> k in world && world[k].basic
      requires forall k :: k in basics ==>
        && basics[k].id == k && basics[k].name == world[k].name && basics[k].typeSimple
        && basics[k].fields == map[] && basics[k].methods == []
      ensures this.world == world && infos == basics
      ensures Valid({})
    {
      this.world := world;
      infos := basics;
    }

    /** The description of `k` is complete: it says what the class says, in references to cached descriptions. */
    ghost predicate Filled(k: ClassId)
      reads this, infos.Values
      requires k in infos && k in world
    {
      Linked(infos, infos[k].fields, infos[k].methods, Described(world, world[k]))
    }

    /** A description made in advance mentions nothing. */
    ghost predicate Bare(k: ClassId)
      reads this, infos.Values
    {
      k in infos && infos[k].fields == map[] && infos[k].methods == []
    }

    /** What is cached goes by the name of its class, and is simple just when it was described in advance. */
    ghost predicate IsNamed(k: ClassId)
      reads this
      requires k in infos
    {
      k in world && infos[k].id == k && infos[k].name == world[k].name && infos[k].typeSimple == world[k].basic
    }

    /** Everything cached is known, and complete unless it is one of the basic descriptions or still pending. */
    ghost predicate Valid(pending: set<ClassId>)
      reads this, infos.Values
    {
      && (forall k :: k in infos ==> IsNamed(k))
      && (forall k :: k in pending ==> k in infos && !world[k].basic)
      && (forall k :: k in world && world[k].basic ==> Bare(k))
      && (forall k {:trigger Filled(k)} :: k in infos && !world[k].basic && k !in pending ==> Filled(k))
    }

    /**
      `getClassRef`: strips the array dimensions, and describes the class unless
      it is cached. The new description is cached before it is filled, so that
      cyclic classes find it.
    */
    method GetClassRef(t: Type, ghost pending: set<ClassId>) returns (r: ClassRef)
      requires ClosedWorld(world)
      requires Valid(pending) && Strip(t) in world
      modifies this
      ensures Valid(pending) && Extends(old(infos), infos) && RefersTo(infos, r, t)
      decreases world.Keys - pending, 1
    {
      var cls, arrayDimension := t, 0;
      while cls.ArrayOf?
        invariant Strip(cls) == Strip(t) && arrayDimension + Dimension(cls) == Dimension(t)
        decreases cls
      {
        cls := cls.component;
        arrayDimension := arrayDimension + 1;
      }
      var k := cls.id;
      if k !in infos {
        Describe(k, pending);
      }
      r := ClassRef(infos[k], arrayDimension);
    }

    method Describe(k: ClassId, ghost pending: set<ClassId>)
      requires ClosedWorld(world)
      requires Valid(pending) && k in world && k !in infos
      modifies this
      ensures Valid(pending) && Extends(old(infos), infos) && k in infos
      decreases world.Keys - pending, 0
    {
      assert k in world.Keys - pending && k !in world.Keys - (pending + {k}) && Extends(infos, infos);
      hide Valid, Extends, ClosedWorld;
      var info := Publish(k, pending);
      ghost var before := infos;
      FillClass(k, info, pending);
      ExtendsOn(old(infos), before, infos);
    }

    /** The new description is cached while it is still empty. */
    method Publish(k: ClassId, ghost pending: set<ClassId>) returns (info: ClassInfo)
      requires Valid(pending) && k in world && k !in infos
      modifies this
      ensures Valid(pending + {k}) && Extends(old(infos), infos) && k in infos && infos[k] == info && fresh(info)
      ensures info.fields == map[] && info.methods == []
    {
      hide Linked, Described, Strip;
      info := new ClassInfo(k, world[k].name, false, world[k].isEnum);
      infos := infos[k := info];
      assert Extends(old(infos), infos);
      hide Extends;
      forall j | j in infos && !world[j].basic && j !in pending + {k}
        ensures Filled(j)
      {
        assert old(Filled(j));
        LinkedStays(old(infos), infos, infos[j].fields, infos[j].methods, Described(world, world[j]));
      }
    }

    method FillClass(k: ClassId, info: ClassInfo, ghost pending: set<ClassId>)
      requires ClosedWorld(world)
      requires Valid(pending + {k}) && k in infos && infos[k] == info
      requires info.fields == map[] && info.methods == []
      modifies this, info
      ensures Valid(pending) && Extends(old(infos), infos)
      decreases world.Keys - (pending + {k}), 7
    {
      assert k in world && Extends(infos, infos) && Pending(k, info, pending + {k});
      assert FieldsAlone(world[k], 0) == (map[], []) && !world[k].isEnum ==> WithFields(k, info, pending + {k}, 0);
      hide Valid, Extends, WithFields, WithMethods, ClosedWorld, Pending;
      if !world[k].isEnum {
        InspectFields(k, info, pending + {k});
        ghost var before := infos;
        FieldsComeFirst(k, info, pending + {k});
        InspectMethods(k, info, pending + {k});
        ExtendsOn(old(infos), before, infos);
      }
      IsComplete(k, info, pending);
    }

    lemma FieldsComeFirst(k: ClassId, info: ClassInfo, pending: set<ClassId>)
      requires k in world && WithFields(k, info, pending, |world[k].fields|)
      ensures WithMethods(k, info, pending, 0)
    {
    }

    /** A description with all its members is no longer pending. */
    lemma IsComplete(k: ClassId, info: ClassInfo, pending: set<ClassId>)
      requires k in world && Pending(k, info, pending + {k})
      requires if world[k].isEnum then info.fields == map[] && info.methods == [] else WithMethods(k, info, pending + {k}, |world[k].methods|)
      ensures Valid(pending)
    {
      hide AfterMethods, FieldsLinked, MethodsLinked;
      assert world[k].isEnum ==> Linked(infos, info.fields, info.methods, (map[], [])) by {
        EmptyIsLinked(infos);
      }
      assert Filled(k);
    }

    ghost predicate Pending(k: ClassId, info: ClassInfo, pending: set<ClassId>)
      reads this, infos.Values
    {
      Valid(pending) && k in pending && k in infos && infos[k] == info
    }

    /** `k` is being described, with its first `n` fields. */
    ghost predicate WithFields(k: ClassId, info: ClassInfo, pending: set<ClassId>, n: nat)
      reads this, infos.Values, info
    {
      && Pending(k, info, pending) && n <= |world[k].fields|
      && Linked(infos, info.fields, info.methods, FieldsAlone(world[k], n))
    }

    /** `k` is being described, with all its fields and its first `n` methods. */
    ghost predicate WithMethods(k: ClassId, info: ClassInfo, pending: set<ClassId>, n: nat)
      reads this, infos.Values, info
    {
      && Pending(k, info, pending) && n <= |world[k].methods|
      && Linked(infos, info.fields, info.methods, AfterMethods(world, world[k], n))
    }

    /** The fields, in order; static ones are passed over. */
    method InspectFields(k: ClassId, info: ClassInfo, ghost pending: set<ClassId>)
      requires ClosedWorld(world) && k in world && WithFields(k, info, pending, 0)
      modifies this, info
      ensures WithFields(k, info, pending, |world[k].fields|) && Extends(old(infos), infos)
      decreases world.Keys - pending, 4
    {
      assert Extends(infos, infos);
      hide WithFields, Extends, ClosedWorld;
      ghost var first := infos;
      for i := 0 to |world[k].fields|
        invariant WithFields(k, info, pending, i) && Extends(first, infos)
      {
        ghost var before := infos;
        InspectField(k, i, info, pending);
        ExtendsOn(first, before, infos);
      }
    }

    method InspectField(k: ClassId, i: nat, info: ClassInfo, ghost pending: set<ClassId>)
      requires ClosedWorld(world) && k in world && i < |world[k].fields|
      requires WithFields(k, info, pending, i)
      modifies this, info
      ensures WithFields(k, info, pending, i + 1) && Extends(old(infos), infos)
      decreases world.Keys - pending, 3
    {
      var f := world[k].fields[i];
      if !f.isStatic {
        var r := GetClassRef(f.ftype, pending);
        LinkedStays(old(infos), infos, info.fields, info.methods, FieldsAlone(world[k], i));
        FieldSets(infos, info.fields, AfterFields(world[k], i), f.name, f.ftype, r);
        SetField(k, info, f.name, FieldInfo(r, true, true), pending);
      }
    }

    /** The methods, in order: accessors become fields, the others are described. */
    method InspectMethods(k: ClassId, info: ClassInfo, ghost pending: set<ClassId>)
      requires ClosedWorld(world) && k in world && WithMethods(k, info, pending, 0)
      modifies this, info
      ensures WithMethods(k, info, pending, |world[k].methods|) && Extends(old(infos), infos)
      decreases world.Keys - pending, 6
    {
      assert Extends(infos, infos);
      hide WithMethods, Extends, ClosedWorld;
      for i := 0 to |world[k].methods|
        invariant WithMethods(k, info, pending, i) && Extends(old(infos), infos)
      {
        ghost var before := infos;
        InspectNext(k, i, info, pending);
        ExtendsOn(old(infos), before, infos);
      }
    }

    method InspectNext(k: ClassId, i: nat, info: ClassInfo, ghost pending: set<ClassId>)
      requires ClosedWorld(world) && k in world && i < |world[k].methods|
      requires WithMethods(k, info, pending, i)
      modifies this, info
      ensures WithMethods(k, info, pending, i + 1) && Extends(old(infos), infos)
      decreases world.Keys - pending, 5
    {
      var m := world[k].methods[i];
      assert Extends(infos, infos);
      hide WithMethods, ClosedWorld, Extends;
      if !m.skipped {
        if AccessorOf(m).NotAccessor? {
          InspectMethod(k, i, info, pending);
        } else {
          InspectAccessor(k, i, info, pending);
        }
      }
    }

    method InspectMethod(k: ClassId, i: nat, info: ClassInfo, ghost pending: set<ClassId>)
      requires ClosedWorld(world) && k in world && i < |world[k].methods|
      requires !world[k].methods[i].skipped && AccessorOf(world[k].methods[i]).NotAccessor?
      requires WithMethods(k, info, pending, i)
      modifies this, info
      ensures WithMethods(k, info, pending, i + 1) && Extends(old(infos), infos)
      decreases world.Keys - pending, 4
    {
      var m := world[k].methods[i];
      ghost var d := AfterMethods(world, world[k], i);
      assert AfterMethods(world, world[k], i + 1) == (d.0, WithMethod(world, d.1, m));
      hide AfterMethods, WithMember, WithMethod, WithMethodInfo, MethodLinked, MethodsLinked, FieldsLinked, Filled, Bare, AccessorOf;
      var mi := DescribeMethod(m, pending);
      LinkedStays(old(infos), infos, info.fields, info.methods, d);
      MethodsGrow(world, infos, info.methods, d.1, mi, m);
      AddMethod(k, info, mi, pending);
    }

    method DescribeMethod(m: Method, ghost pending: set<ClassId>) returns (mi: MethodInfo)
      requires ClosedWorld(world) && Valid(pending)
      requires Strip(m.result) in world && forall j :: 0 <= j < |m.params| ==> Strip(m.params[j]) in world
      modifies this
      ensures Valid(pending) && Extends(old(infos), infos) && MethodLinked(infos, mi, m)
      decreases world.Keys - pending, 3
    {
      hide ClosedWorld, Valid, ParamsLinked;
      var params := ParameterRefs(m.params, pending);
      ghost var before := infos;
      var result := GetClassRef(m.result, pending);
      ParamsStay(before, infos, params, m.params);
      mi := MethodInfo(m.name, params, result);
    }

    method ParameterRefs(types: seq<Type>, ghost pending: set<ClassId>) returns (refs: seq<ClassRef>)
      requires ClosedWorld(world)
      requires Valid(pending) && forall j :: 0 <= j < |types| ==> Strip(types[j]) in world
      modifies this
      ensures Valid(pending) && Extends(old(infos), infos) && ParamsLinked(infos, refs, types)
      decreases world.Keys - pending, 2
    {
      refs := [];
      for j := 0 to |types|
        invariant Valid(pending) && Extends(old(infos), infos) && |refs| == j
        invariant forall i :: 0 <= i < j ==> RefersTo(infos, refs[i], types[i])
      {
        var p := GetClassRef(types[j], pending);
        refs := refs + [p];
      }
    }

    /** Changing a pending description leaves every other one complete. */
    method SetField(ghost k: ClassId, info: ClassInfo, name: string, f: FieldInfo, ghost pending: set<ClassId>)
      requires Valid(pending) && k in pending && k in infos && infos[k] == info
      modifies info`fields
      ensures Valid(pending) && info.fields == old(info.fields)[name := f]
    {
      info.fields := info.fields[name := f];
      assert forall j :: j in infos && !world[j].basic && j !in pending ==> old(Filled(j));
    }

    method AddMethod(ghost k: ClassId, info: ClassInfo, m: MethodInfo, ghost pending: set<ClassId>)
      requires Valid(pending) && k in pending && k in infos && infos[k] == info
      modifies info`methods
      ensures Valid(pending) && info.methods == WithMethodInfo(old(info.methods), m)
    {
      if !exists i :: 0 <= i < |info.methods| && EqualMethods(info.methods[i], m) {
        info.methods := info.methods + [m];
      }
      assert forall j :: j in infos && !world[j].basic && j !in pending ==> old(Filled(j));
    }

    method InspectAccessor(k: ClassId, i: nat, info: ClassInfo, ghost pending: set<ClassId>)
      requires ClosedWorld(world) && k in world && i < |world[k].methods|
      requires !world[k].methods[i].skipped && !AccessorOf(world[k].methods[i]).NotAccessor?
      requires WithMethods(k, info, pending, i)
      modifies this, info
      ensures WithMethods(k, info, pending, i + 1) && Extends(old(infos), infos)
      decreases world.Keys - pending, 2
    {
      var m := world[k].methods[i];
      var spec := AccessorSpec(m);
      var name := AccessorOf(m).name;
      ghost var d := AfterMethods(world, world[k], i);
      assert AfterMethods(world, world[k], i + 1) == (Merge(d.0, name, spec), d.1);
      hide AfterMethods, WithMember, Merge, MethodsLinked, FieldsLinked, Filled, Bare, AccessorOf, AccessorSpec, Described;
      var r := GetClassRef(spec.ftype, pending);
      LinkedStays(old(infos), infos, info.fields, info.methods, d);
      MergeField(k, info, name, spec, r, pending, d.0);
    }

    /** Adds the field of an accessor, or makes the field that is there readable and writable. */
    method MergeField(ghost k: ClassId, info: ClassInfo, name: string, spec: FieldSpec, r: ClassRef,
                      ghost pending: set<ClassId>, ghost fs: FieldSpecs)
      requires Pending(k, info, pending) && FieldsLinked(infos, info.fields, fs) && RefersTo(infos, r, spec.ftype)
      modifies info`fields
      ensures Pending(k, info, pending) && FieldsLinked(infos, info.fields, Merge(fs, name, spec))
    {
      FieldMerges(infos, info.fields, fs, name, spec, r);
      hide FieldsLinked, Merge, RefersTo, IsNamed, Filled, Bare;
      if name !in info.fields {
        SetField(k, info, name, FieldInfo(r, spec.readable, spec.writable), pending);
      } else if !info.fields[name].readable {
        SetField(k, info, name, FieldInfo(r, true, true), pending);
      } else if !info.fields[name].writable {
        SetField(k, info, name, FieldInfo(r, true, true), pending);
      }
    }

    /** Once no description is pending, every reference in one leads to the description cached for its class. */
    lemma ReferencesAreCanonical(k: ClassId)
      requires Valid({}) && k in infos && !world[k].basic
      ensures forall n :: n in infos[k].fields ==> Canonical(infos[k].fields[n].ftype.info)
      ensures forall i :: 0 <= i < |infos[k].methods| ==>
        && Canonical(infos[k].methods[i].result.info)
        && forall j :: 0 <= j < |infos[k].methods[i].params| ==> Canonical(infos[k].methods[i].params[j].info)
    {
      assert Filled(k);
      var ms := Described(world, world[k]).1;
      forall i | 0 <= i < |infos[k].methods|
        ensures Canonical(infos[k].methods[i].result.info)
        ensures forall j :: 0 <= j < |infos[k].methods[i].params| ==> Canonical(infos[k].methods[i].params[j].info)
      {
        assert MethodLinked(infos, infos[k].methods[i], ms[i]);
      }
    }

    /**
      A description has a field for each name that a public field or an accessor
      makes. It is readable and writable if a public field or two accessors do;
      a single accessor makes it one of the two.
    */
    lemma FieldsAreMeant(k: ClassId, name: string)
      requires Valid({}) && k in infos && !world[k].basic && !world[k].isEnum
      ensures var d, fields := world[k], infos[k].fields;
        && (name in fields <==> HasField(d, |d.fields|, name) || IsAccessed(d, |d.methods|, name))
        && (HasField(d, |d.fields|, name) || IsAccessedTwice(d, |d.methods|, name) ==>
              name in fields && fields[name].readable && fields[name].writable)
        && (forall i :: 0 <= i < |d.methods| && Accesses(d, i, name) && !HasField(d, |d.fields|, name) && !IsAccessedTwice(d, |d.methods|, name) ==>
              && name in fields
              && RefersTo(infos, fields[name].ftype, if AccessorOf(d.methods[i]).Getter? then d.methods[i].result else d.methods[i].params[0])
              && (fields[name].readable <==> AccessorOf(d.methods[i]).Getter?)
              && (fields[name].writable <==> AccessorOf(d.methods[i]).Setter?))
    {
      assert Filled(k);
      MembersMean(world, world[k], |world[k].methods|, name);
    }

    /** It is of the type of the last public field of its name, or else of its second accessor. */
    lemma FieldTypesAreMeant(k: ClassId, name: string)
      requires Valid({}) && k in infos && !world[k].basic && !world[k].isEnum
      ensures var d, fields := world[k], infos[k].fields;
        && (forall i :: 0 <= i < |d.fields| && LastField(d, |d.fields|, name, i) ==>
              name in fields && RefersTo(infos, fields[name].ftype, d.fields[i].ftype))
        && (forall i, j :: 0 <= i < j < |d.methods| && !HasField(d, |d.fields|, name) && FirstTwo(d, name, i, j) ==>
              name in fields && |d.methods[j].params| <= 1 && RefersTo(infos, fields[name].ftype, Accessed(d.methods[j])))
    {
      var d, fields := world[k], infos[k].fields;
      assert Filled(k);
      assert FieldsLinked(infos, fields, AfterMethods(world, d, |d.methods|).0);
      hide AfterMethods, LastField, FirstTwo, HasField, RefersTo;
      forall i | 0 <= i < |d.fields| && LastField(d, |d.fields|, name, i)
        ensures name in fields && RefersTo(infos, fields[name].ftype, d.fields[i].ftype)
      {
        PublicTypeStays(world, d, |d.methods|, name, i);
      }
      forall i, j | 0 <= i < j < |d.methods| && !HasField(d, |d.fields|, name) && FirstTwo(d, name, i, j)
        ensures name in fields && |d.methods[j].params| <= 1 && RefersTo(infos, fields[name].ftype, Accessed(d.methods[j]))
      {
        SecondTypeStays(world, d, |d.methods|, name, i, j);
      }
    }

    /** The methods described are the members that are no accessors, one of each kind that is equal. */
    lemma MethodsAreDescribed(k: ClassId)
      requires Valid({}) && k in infos && !world[k].basic && !world[k].isEnum
      ensures exists ms :: MethodsMean(world, world[k], |world[k].methods|, ms) && MethodsLinked(infos, infos[k].methods, ms)
    {
      var d := world[k];
      assert Filled(k);
      MethodsAreMeant(world, d, |d.methods|);
      assert MethodsLinked(infos, infos[k].methods, AfterMethods(world, d, |d.methods|).1);
    }

    ghost predicate Canonical(info: ClassInfo)
      reads this
    {
      info.id in infos && infos[info.id] == info
    }
  }
}
