/**
  A flat context whose private names share objects through links that are
  counted. Tables are keyed by the components of names; `Names.ParsePrint` shows
  that for names that come from text this is the same as keying them by the text.
*/
module SharedContexts {
  import opened Names

  type ObjectId = nat

  /** What a name is bound to: an object, or a link to another name. */
  datatype Value = Obj(id: ObjectId) | LinkRef(linkName: Path)

  type Table = map<Path, Value>
  type Referrers = map<Path, set<Path>>

  datatype Failure = NameNotFound | NameAlreadyBound | NoPermission | OperationNotSupported | IllegalState | ClassCast
  datatype Outcome = Done | Failed(failure: Failure)
  datatype Result = Ok(value: Value) | Error(failure: Failure)

  /** `PlainContext`, the root of one: bindings under their full names. */
  class PlainContext {
    var context: Table

    constructor ()
      ensures context == map[]
    {
      context := map[];
    }

    method Lookup(name: Path) returns (r: Result)
      ensures r == if name in context then Ok(context[name]) else Error(NameNotFound)
    {
      if name !in context {
        return Error(NameNotFound);
      }
      return Ok(context[name]);
    }

    method Bind(name: Path, obj: Value) returns (r: Outcome)
      modifies this
      ensures r == if name in old(context) then Failed(NameAlreadyBound) else Done
      ensures context == if r.Done? then old(context)[name := obj] else old(context)
    {
      if name in context {
        return Failed(NameAlreadyBound);
      }
      context := context[name := obj];
      return Done;
    }

    method Unbind(name: Path) returns (r: Outcome)
      modifies this
      ensures r == if name in old(context) then Done else Failed(NameNotFound)
      ensures context == old(context) - {name}
    {
      if name !in context {
        return Failed(NameNotFound);
      }
      context := context - {name};
      return Done;
    }

    method Rename(oldName: Path, newName: Path) returns (r: Outcome)
      modifies this
      ensures r == Renaming(old(context), oldName, newName).0
      ensures context == Renaming(old(context), oldName, newName).1
    {
      if oldName !in context {
        return Failed(NameNotFound);
      }
      if newName in context {
        return Failed(NameAlreadyBound);
      }
      var binding := context[oldName];
      context := context - {oldName};
      context := context[newName := binding];
      return Done;
    }

    /** Follows one link. */
    method LookupLink(name: Path) returns (r: Result)
      ensures r == Followed(context, name)
    {
      var result := Lookup(name);
      if result.Ok? && result.value.LinkRef? {
        result := Lookup(result.value.linkName);
      }
      return result;
    }
  }

  function Followed(context: Table, name: Path): Result {
    if name !in context then Error(NameNotFound)
    else if context[name].Obj? then Ok(context[name])
    else if context[name].linkName in context then Ok(context[context[name].linkName])
    else Error(NameNotFound)
  }

  /** What moving a binding to another name comes to, in any table. */
  function Renaming<K, V>(m: map<K, V>, a: K, b: K): (Outcome, map<K, V>) {
    if a !in m then (Failed(NameNotFound), m)
    else if b in m then (Failed(NameAlreadyBound), m)
    else (Done, (m - {a})[b := m[a]])
  }

  // ------------------------------------------------------- what it looks like

  /** Where the private names and the shared objects are, and how an object is named: by its class and hash code. */
  datatype Layout = Layout(privatePath: Path, sharedPath: Path, component: ObjectId -> string) {

    predicate IsShared(n: Path) {
      sharedPath <= n
    }

    predicate IsPrivate(n: Path) {
      privatePath <= n && !IsShared(n)
    }

    /** `getUniqueObjectName`. */
    function Key(o: ObjectId): (k: Path)
      ensures IsShared(k)
    {
      sharedPath + [component(o)]
    }
  }

  /** The objects bound, by the names a client gave them. */
  type Bound = map<Path, ObjectId>

  datatype Operation = Bind(name: Path, obj: ObjectId) | Unbind(name: Path) | Rename(from: Path, to: Path)

  /** What an operation does, told without links and counts. */
  function Effect(l: Layout, bound: Bound, op: Operation): (Outcome, Bound) {
    match op
    case Bind(name, obj) =>
      if l.IsShared(name) then (Failed(NoPermission), bound)
      else if name in bound then (Failed(NameAlreadyBound), bound)
      else (Done, bound[name := obj])
    case Unbind(name) =>
      if l.IsShared(name) then (Failed(NoPermission), bound)
      else if name !in bound then (Failed(NameNotFound), bound)
      else (Done, bound - {name})
    case Rename(from, to) =>
      if l.IsShared(from) || l.IsShared(to) then (Failed(NoPermission), bound)
      else if l.IsPrivate(from) != l.IsPrivate(to) then (Failed(OperationNotSupported), bound)
      else Renaming(bound, from, to)
  }

  /** The tables agree but for these names. */
  ghost predicate AgreeBut<V>(m: map<Path, V>, m': map<Path, V>, names: set<Path>) {
    forall n :: n !in names ==> (n in m <==> n in m') && (n in m ==> m[n] == m'[n])
  }

  /**
    What an operation comes to, told from the names: what may not be touched, what
    has to be bound or free, and which names change. What fails changes none.
  */
  ghost predicate ComesTo(l: Layout, bound: Bound, op: Operation, r: Outcome, after: Bound) {
    && (r.Failed? ==> after == bound)
    && (r == Failed(NoPermission) <==> if op.Rename? then l.sharedPath <= op.from || l.sharedPath <= op.to else l.sharedPath <= op.name)
    && match op
       case Bind(n, o) =>
         && (r.Done? <==> !(l.sharedPath <= n) && n !in bound)
         && (r.Done? ==> n in after && after[n] == o && AgreeBut(bound, after, {n}))
       case Unbind(n) =>
         && (r.Done? <==> !(l.sharedPath <= n) && n in bound)
         && (r.Done? ==> n !in after && AgreeBut(bound, after, {n}))
       case Rename(a, b) =>
         && (r == Failed(OperationNotSupported) <==>
               !(l.sharedPath <= a) && !(l.sharedPath <= b) && (l.privatePath <= a <==> !(l.privatePath <= b)))
         && (r.Done? ==> a in bound && b !in bound && a !in after && b in after && after[b] == bound[a] && AgreeBut(bound, after, {a, b}))
         && (r == Failed(NameNotFound) ==> a !in bound) && (r == Failed(NameAlreadyBound) ==> a in bound && b in bound)
         && r != Failed(IllegalState) && r != Failed(ClassCast)
  }

  lemma EffectMeans(l: Layout, bound: Bound, op: Operation)
    ensures ComesTo(l, bound, op, Effect(l, bound, op).0, Effect(l, bound, op).1)
  {
  }

  // ---------------------------------------------------------------- invariant

  function Refs(referrers: Referrers, k: Path): set<Path> {
    if k in referrers then referrers[k] else {}
  }

  /** `n` is a private name bound to an object that is shared under `k`. */
  predicate Refers(l: Layout, bound: Bound, n: Path, k: Path) {
    n in bound && l.IsPrivate(n) && l.Key(bound[n]) == k
  }

  /** The table holds `bound`, each private name as a link to its object. */
  ghost predicate HoldsBound(l: Layout, context: Table, bound: Bound) {
    forall n :: n in bound ==>
      && !l.IsShared(n) && n in context
      && context[n] == (if l.IsPrivate(n) then LinkRef(l.Key(bound[n])) else Obj(bound[n]))
      && (l.IsPrivate(n) ==> l.Key(bound[n]) in context && context[l.Key(bound[n])] == Obj(bound[n]))
  }

  /** It holds nothing else: a shared entry exists if and only if it has referrers. */
  ghost predicate HoldsNothingElse(l: Layout, context: Table, referrers: Referrers, bound: Bound) {
    forall k :: k in context ==> if l.IsShared(k) then Refs(referrers, k) != {} else k in bound
  }

  /** The recorded referrers of a shared name are the private names linked to it. */
  ghost predicate CountsReferrers(l: Layout, referrers: Referrers, bound: Bound) {
    forall k, n :: n in Refs(referrers, k) <==> Refers(l, bound, n, k)
  }

  ghost predicate Sound(l: Layout, context: Table, referrers: Referrers, bound: Bound) {
    && HoldsBound(l, context, bound)
    && HoldsNothingElse(l, context, referrers, bound)
    && CountsReferrers(l, referrers, bound)
  }

  /** A shared object is in the table exactly while a private name is bound to an object of that unique name. */
  lemma SharedIffReferred(l: Layout, context: Table, referrers: Referrers, bound: Bound, o: ObjectId)
    requires Sound(l, context, referrers, bound)
    ensures l.Key(o) in context <==> exists n :: Refers(l, bound, n, l.Key(o))
  {
    var k := l.Key(o);
    if k in context {
      var n :| n in Refs(referrers, k);
      assert Refers(l, bound, n, k);
    }
  }

  /** A private name is a link to the one entry its object is shared under; any other name holds its object; and nothing else is shared. */
  lemma PrivateNamesAreLinks(l: Layout, context: Table, referrers: Referrers, bound: Bound, name: Path)
    requires Sound(l, context, referrers, bound)
    ensures name in bound && l.privatePath <= name ==>
      var shared := l.sharedPath + [l.component(bound[name])];
      name in context && context[name] == LinkRef(shared) && shared in context && context[shared] == Obj(bound[name])
    ensures name in bound && !(l.privatePath <= name) ==> name in context && context[name] == Obj(bound[name])
    ensures name in context && l.sharedPath <= name ==>
      exists n :: n in bound && l.privatePath <= n && name == l.sharedPath + [l.component(bound[n])]
    ensures name in context && !(l.sharedPath <= name) ==> name in bound
  {
    if name in context && l.sharedPath <= name {
      var n :| n in Refs(referrers, name);
      assert Refers(l, bound, n, name);
    }
  }

  lemma NamesAreBound(l: Layout, context: Table, referrers: Referrers, bound: Bound, name: Path)
    requires Sound(l, context, referrers, bound) && !l.IsShared(name)
    ensures name in context <==> name in bound
    ensures name in bound && l.IsPrivate(name) ==>
      context[name] == LinkRef(l.Key(bound[name])) && l.Key(bound[name]) in context
  {
  }

  // -------------------------------------------------------------------- steps

  function WithReferrer(referrers: Referrers, k: Path, n: Path): Referrers {
    referrers[k := Refs(referrers, k) + {n}]
  }

  function WithoutReferrer(referrers: Referrers, k: Path, n: Path): Referrers {
    if k in referrers then referrers[k := referrers[k] - {n}] else referrers
  }

  lemma CountedAnother(l: Layout, referrers: Referrers, bound: Bound, name: Path, obj: ObjectId)
    requires CountsReferrers(l, referrers, bound) && l.IsPrivate(name) && name !in bound
    ensures CountsReferrers(l, WithReferrer(referrers, l.Key(obj), name), bound[name := obj])
  {
    forall k, n
      ensures n in Refs(WithReferrer(referrers, l.Key(obj), name), k) <==> Refers(l, bound[name := obj], n, k)
    {
      assert n in Refs(referrers, k) <==> Refers(l, bound, n, k);
    }
  }

  lemma CountedFewer(l: Layout, referrers: Referrers, bound: Bound, name: Path)
    requires CountsReferrers(l, referrers, bound) && name in bound
    ensures CountsReferrers(l, WithoutReferrer(referrers, l.Key(bound[name]), name), bound - {name})
  {
    forall k, n
      ensures n in Refs(WithoutReferrer(referrers, l.Key(bound[name]), name), k) <==> Refers(l, bound - {name}, n, k)
    {
      assert n in Refs(referrers, k) <==> Refers(l, bound, n, k);
    }
  }

  /** Some private name is bound to another object of the same unique name. */
  ghost predicate Collides(l: Layout, bound: Bound, obj: ObjectId) {
    exists n :: Refers(l, bound, n, l.Key(obj)) && bound[n] != obj
  }

  lemma CollisionIsSeen(l: Layout, context: Table, referrers: Referrers, bound: Bound, obj: ObjectId)
    requires Sound(l, context, referrers, bound)
    ensures Collides(l, bound, obj) <==> l.Key(obj) in context && context[l.Key(obj)] != Obj(obj)
  {
    SharedIffReferred(l, context, referrers, bound, obj);
  }

  lemma BoundOtherwise(l: Layout, context: Table, referrers: Referrers, bound: Bound, name: Path, obj: ObjectId)
    requires Sound(l, context, referrers, bound)
    requires !l.IsShared(name) && !l.IsPrivate(name) && name !in bound
    ensures Sound(l, context[name := Obj(obj)], referrers, bound[name := obj])
  {
  }

  /** The table with a link for `name` and the object shared. */
  function WithLink(l: Layout, context: Table, name: Path, obj: ObjectId): Table {
    context[name := LinkRef(l.Key(obj))][l.Key(obj) := Obj(obj)]
  }

  lemma HeldWithLink(l: Layout, context: Table, bound: Bound, name: Path, obj: ObjectId)
    requires HoldsBound(l, context, bound) && l.IsPrivate(name) && name !in bound
    requires l.Key(obj) in context ==> context[l.Key(obj)] == Obj(obj)
    ensures HoldsBound(l, WithLink(l, context, name, obj), bound[name := obj])
  {
    forall n | n in bound[name := obj] && n != name
      ensures !l.IsShared(n) && n in context && n != l.Key(obj)
    {
      assert n in bound && l.IsShared(l.Key(obj));
    }
  }

  lemma NothingElseWithLink(l: Layout, context: Table, referrers: Referrers, bound: Bound, name: Path, obj: ObjectId)
    requires HoldsNothingElse(l, context, referrers, bound) && l.IsPrivate(name)
    ensures HoldsNothingElse(l, WithLink(l, context, name, obj), WithReferrer(referrers, l.Key(obj), name), bound[name := obj])
  {
    assert name in Refs(WithReferrer(referrers, l.Key(obj), name), l.Key(obj));
  }

  lemma BoundPrivately(l: Layout, context: Table, referrers: Referrers, bound: Bound, name: Path, obj: ObjectId)
    requires Sound(l, context, referrers, bound)
    requires l.IsPrivate(name) && name !in bound
    requires l.Key(obj) in context ==> context[l.Key(obj)] == Obj(obj)
    ensures Sound(l, WithLink(l, context, name, obj), WithReferrer(referrers, l.Key(obj), name), bound[name := obj])
  {
    hide HoldsBound, HoldsNothingElse, CountsReferrers;
    HeldWithLink(l, context, bound, name, obj);
    NothingElseWithLink(l, context, referrers, bound, name, obj);
    CountedAnother(l, referrers, bound, name, obj);
  }

  lemma CountedWithout(l: Layout, referrers: Referrers, bound: Bound, name: Path)
    requires CountsReferrers(l, referrers, bound) && !l.IsPrivate(name)
    ensures CountsReferrers(l, referrers, bound - {name})
  {
    forall k, n
      ensures n in Refs(referrers, k) <==> Refers(l, bound - {name}, n, k)
    {
      assert n in Refs(referrers, k) <==> Refers(l, bound, n, k);
    }
  }

  lemma HeldWithout(l: Layout, context: Table, bound: Bound, name: Path)
    requires HoldsBound(l, context, bound) && name in bound
    ensures HoldsBound(l, context - {name}, bound - {name})
  {
    assert !l.IsShared(name);
  }

  lemma NothingElseWithout(l: Layout, context: Table, referrers: Referrers, bound: Bound, name: Path)
    requires HoldsNothingElse(l, context, referrers, bound)
    ensures HoldsNothingElse(l, context - {name}, referrers, bound - {name})
  {
  }

  lemma UnboundOtherwise(l: Layout, context: Table, referrers: Referrers, bound: Bound, name: Path)
    requires Sound(l, context, referrers, bound)
    requires name in bound && !l.IsPrivate(name)
    ensures Sound(l, context - {name}, referrers, bound - {name})
  {
    hide HoldsBound, HoldsNothingElse, CountsReferrers;
    HeldWithout(l, context, bound, name);
    NothingElseWithout(l, context, referrers, bound, name);
    CountedWithout(l, referrers, bound, name);
  }

  lemma UnboundPrivately(l: Layout, context: Table, referrers: Referrers, bound: Bound, name: Path)
    requires Sound(l, context, referrers, bound)
    requires name in bound && l.IsPrivate(name)
    ensures var k := l.Key(bound[name]); var left := WithoutReferrer(referrers, k, name);
      Sound(l, (if Refs(left, k) == {} then context - {k} else context) - {name}, left, bound - {name})
  {
    var k := l.Key(bound[name]);
    var left := WithoutReferrer(referrers, k, name);
    CountedFewer(l, referrers, bound, name);
    StillHeld(l, context, left, bound, name);
    var context' := (if Refs(left, k) == {} then context - {k} else context) - {name};
    forall q | q in context'
      ensures if l.IsShared(q) then Refs(left, q) != {} else q in bound - {name}
    {
      if q != k {
        assert Refs(left, q) == Refs(referrers, q);
      }
    }
  }

  lemma StillHeld(l: Layout, context: Table, left: Referrers, bound: Bound, name: Path)
    requires name in bound && l.IsPrivate(name)
    requires HoldsBound(l, context, bound) && CountsReferrers(l, left, bound - {name})
    ensures var k := l.Key(bound[name]);
      HoldsBound(l, (if Refs(left, k) == {} then context - {k} else context) - {name}, bound - {name})
  {
    forall n | n in bound && n != name && l.IsPrivate(n)
      ensures n in Refs(left, l.Key(bound[n]))
    {
      assert Refers(l, bound - {name}, n, l.Key(bound[n]));
    }
  }

  lemma MovedLink(context: Table, from: Path, to: Path, k: Path, o: ObjectId, dropped: bool)
    requires from in context && to !in context && k in context && from != k
    requires context[from] == LinkRef(k) && context[k] == Obj(o)
    ensures Renaming(context, from, to).1 == ((if dropped then context - {k} else context) - {from})[to := LinkRef(k)][k := Obj(o)]
  {
  }

  lemma RenamedPrivately(l: Layout, context: Table, referrers: Referrers, bound: Bound, from: Path, to: Path)
    requires Sound(l, context, referrers, bound)
    requires from in bound && l.IsPrivate(from) && l.IsPrivate(to) && to !in bound
    ensures var k := l.Key(bound[from]);
      Sound(l, Renaming(context, from, to).1, WithReferrer(WithoutReferrer(referrers, k, from), k, to), Renaming(bound, from, to).1)
  {
    var o, k := bound[from], l.Key(bound[from]);
    var left := WithoutReferrer(referrers, k, from);
    UnboundPrivately(l, context, referrers, bound, from);
    var context' := (if Refs(left, k) == {} then context - {k} else context) - {from};
    BoundPrivately(l, context', left, bound - {from}, to, o);
    MovedLink(context, from, to, k, o, Refs(left, k) == {});
  }

  lemma RenamedOtherwise(l: Layout, context: Table, referrers: Referrers, bound: Bound, from: Path, to: Path)
    requires Sound(l, context, referrers, bound)
    requires from in bound && !l.IsPrivate(from) && !l.IsPrivate(to) && !l.IsShared(to) && to !in bound
    ensures Sound(l, Renaming(context, from, to).1, referrers, Renaming(bound, from, to).1)
  {
    UnboundOtherwise(l, context, referrers, bound, from);
    BoundOtherwise(l, context - {from}, referrers, bound - {from}, to, bound[from]);
  }

  /** A link left behind by a collision is counted nowhere: the table then holds no set of bindings soundly. */
  lemma LeftLinkIsUncounted(l: Layout, context: Table, referrers: Referrers, bound: Bound, name: Path, obj: ObjectId, other: Bound)
    requires Sound(l, context, referrers, bound)
    requires l.IsPrivate(name) && name !in bound
    ensures !Sound(l, context[name := LinkRef(l.Key(obj))], referrers, other)
  {
    assert !Refers(l, bound, name, l.Key(obj)) && name !in Refs(referrers, l.Key(obj));
    assert name in context[name := LinkRef(l.Key(obj))];
  }

  /** The link left behind leads to the other object. */
  lemma LeftLinkMisleads(l: Layout, context: Table, referrers: Referrers, bound: Bound, name: Path, obj: ObjectId) returns (other: ObjectId)
    requires Sound(l, context, referrers, bound) && Collides(l, bound, obj)
    requires l.IsPrivate(name) && name !in bound
    ensures other != obj && Followed(context[name := LinkRef(l.Key(obj))], name) == Ok(Obj(other))
  {
    var n :| Refers(l, bound, n, l.Key(obj)) && bound[n] != obj;
    other := bound[n];
  }

  /** Two objects that hash alike: binding the second, under a name of its own, leaves that name leading to the first. */
  lemma CollisionMisleads()
    ensures var l := Layout(["p"], ["s"], (o: ObjectId) => "c"); var key := ["s", "c"];
      var context: Table := map[["p", "a"] := LinkRef(key), key := Obj(0)];
      && Sound(l, context, map[key := {["p", "a"]}], map[["p", "a"] := 0]) && Collides(l, map[["p", "a"] := 0], 1)
      && Followed(context[["p", "b"] := LinkRef(l.Key(1))], ["p", "b"]) == Ok(Obj(0))
  {
    var l := Layout(["p"], ["s"], (o: ObjectId) => "c");
    var key, a := ["s", "c"], ["p", "a"];
    assert a[0] != ["s"][0] && l.IsPrivate(a) && l.Key(0) == l.Key(1) == key;
    var bound: Bound := map[a := 0];
    assert Refers(l, bound, a, key) && bound[a] != 1;
  }

  ghost predicate DistinctNames(l: Layout) {
    forall o, p :: l.component(o) == l.component(p) ==> o == p
  }

  lemma NoCollision(l: Layout, bound: Bound, obj: ObjectId)
    requires DistinctNames(l)
    ensures !Collides(l, bound, obj)
  {
    forall o | l.Key(o) == l.Key(obj)
      ensures o == obj
    {
      assert l.Key(o)[|l.sharedPath|] == l.component(o) && l.Key(obj)[|l.sharedPath|] == l.component(obj);
    }
  }

  // --------------------------------------------------------------- operations

  class SharedContext {
    const layout: Layout
    const context: PlainContext
    var referrers: Referrers
    ghost var bound: Bound

    /** Over a context that holds nothing yet. */
    constructor (layout: Layout, context: PlainContext)
      requires context.context == map[]
      ensures this.layout == layout && this.context == context
      ensures Valid() && bound == map[]
    {
      this.layout := layout;
      this.context := context;
      referrers := map[];
      bound := map[];
    }

    ghost predicate Valid()
      reads this, context
    {
      Sound(layout, context.context, referrers, bound)
    }

    method AddReferrer(referred: Path, referrer: Path)
      modifies this`referrers
      ensures referrers == WithReferrer(old(referrers), referred, referrer)
    {
      var refs := {};
      if referred in referrers {
        refs := referrers[referred];
      }
      refs := refs + {referrer};
      referrers := referrers[referred := refs];
    }

    method RemoveReferrer(referred: Path, referrer: Path) returns (count: nat)
      modifies this`referrers
      ensures referrers == WithoutReferrer(old(referrers), referred, referrer)
      ensures count == |Refs(referrers, referred)|
    {
      if referred in referrers {
        referrers := referrers[referred := referrers[referred] - {referrer}];
        return |referrers[referred]|;
      }
      return 0;
    }

    /**
      Binds a link under a private name, the object under its unique name unless
      it is there, and counts the referrer. Finding another object there is the
      one way it leaves the binding half done.
    */
    method Bind(name: Path, obj: ObjectId) returns (r: Outcome)
      requires Valid()
      modifies this, context
      ensures r == Failed(IllegalState) <==> layout.IsPrivate(name) && name !in old(bound) && Collides(layout, old(bound), obj)
      ensures r != Failed(IllegalState) ==> Valid() && (r, bound) == Effect(layout, old(bound), Operation.Bind(name, obj))
      ensures r == Failed(IllegalState) ==> !Valid() && bound == old(bound) && referrers == old(referrers)
      ensures r == Failed(IllegalState) ==> context.context == old(context.context)[name := LinkRef(layout.Key(obj))]
      ensures r == Failed(IllegalState) ==> exists other :: other != obj && Followed(context.context, name) == Ok(Obj(other))
    {
      if layout.IsShared(name) {
        return Failed(NoPermission);
      }
      if layout.privatePath <= name {
        var uniqueName := layout.Key(obj);
        r := context.Bind(name, LinkRef(uniqueName));
        if r.Failed? {
          return;
        }
        CollisionIsSeen(layout, old(context.context), referrers, bound, obj);
        var found := context.Lookup(uniqueName);
        if found.Ok? {
          if found.value != Obj(obj) {
            LeftLinkIsUncounted(layout, old(context.context), referrers, bound, name, obj, bound);
            ghost var other := LeftLinkMisleads(layout, old(context.context), referrers, bound, name, obj);
            return Failed(IllegalState);
          }
        } else {
          r := context.Bind(uniqueName, Obj(obj));
          assert r.Done?;
        }
        AddReferrer(uniqueName, name);
        BoundPrivately(layout, old(context.context), old(referrers), bound, name, obj);
        assert context.context == old(context.context)[name := LinkRef(uniqueName)][uniqueName := Obj(obj)];
        bound := bound[name := obj];
      } else {
        r := context.Bind(name, Obj(obj));
        if r.Done? {
          BoundOtherwise(layout, old(context.context), referrers, bound, name, obj);
          bound := bound[name := obj];
        }
      }
    }

    /** Unbinds the shared object too when the last private name linked to it goes. */
    method Unbind(name: Path) returns (r: Outcome)
      requires Valid()
      modifies this, context
      ensures Valid() && (r, bound) == Effect(layout, old(bound), Operation.Unbind(name))
    {
      if layout.IsShared(name) {
        return Failed(NoPermission);
      }
      NamesAreBound(layout, context.context, referrers, bound, name);
      hide HoldsBound, HoldsNothingElse, CountsReferrers;
      if layout.privatePath <= name {
        var link := context.Lookup(name);
        if link.Error? {
          return Failed(link.failure);
        }
        if !link.value.LinkRef? {
          return Failed(ClassCast);
        }
        UnboundPrivately(layout, context.context, referrers, bound, name);
        var count := RemoveReferrer(link.value.linkName, name);
        assert count == 0 <==> Refs(referrers, link.value.linkName) == {};
        if count == 0 {
          r := context.Unbind(link.value.linkName);
          assert r.Done?;
        }
      } else if name in bound {
        UnboundOtherwise(layout, context.context, referrers, bound, name);
      }
      r := context.Unbind(name);
      assert name !in bound ==> context.context == old(context.context);
      bound := if name in bound then bound - {name} else bound;
    }

    /** Moves a binding; a private name takes its place among the referrers along. */
    method Rename(oldName: Path, newName: Path) returns (r: Outcome)
      requires Valid()
      modifies this, context
      ensures Valid() && (r, bound) == Effect(layout, old(bound), Operation.Rename(oldName, newName))
    {
      var oldChecked, newChecked := layout.privatePath <= oldName, layout.privatePath <= newName;
      if layout.IsShared(oldName) || layout.IsShared(newName) {
        return Failed(NoPermission);
      }
      if (oldChecked && !newChecked) || (!oldChecked && newChecked) {
        return Failed(OperationNotSupported);
      }
      r := context.Rename(oldName, newName);
      if r.Failed? {
        return;
      }
      if oldChecked && newChecked {
        RenamedPrivately(layout, old(context.context), referrers, bound, oldName, newName);
        var link := context.Lookup(newName);
        var count := RemoveReferrer(link.value.linkName, oldName);
        AddReferrer(link.value.linkName, newName);
      } else {
        RenamedOtherwise(layout, old(context.context), referrers, bound, oldName, newName);
      }
      bound := Renaming(bound, oldName, newName).1;
    }

    /** Any name a client may bind leads, through its link if it has one, to the object last bound there. */
    method LookupLink(name: Path) returns (r: Result)
      requires Valid() && !layout.IsShared(name)
      ensures r == if name in bound then Ok(Obj(bound[name])) else Error(NameNotFound)
    {
      r := context.LookupLink(name);
    }

    /** One operation of a run. */
    method Perform(op: Operation) returns (r: Outcome)
      requires Valid() && DistinctNames(layout)
      modifies this, context
      ensures Valid() && (r, bound) == Effect(layout, old(bound), op)
    {
      match op
      case Bind(name, obj) =>
        NoCollision(layout, bound, obj);
        r := Bind(name, obj);
      case Unbind(name) => r := Unbind(name);
      case Rename(from, to) => r := Rename(from, to);
    }

    /**
      Any run, if distinct objects have distinct unique names: it answers as a
      plain table without links would, and ends with the links, the shared objects
      and the counts in step with that table.
    */
    method Run(ops: seq<Operation>) returns (outcomes: seq<Outcome>)
      requires Valid() && DistinctNames(layout)
      modifies this, context
      ensures Valid() && (outcomes, bound) == Effects(layout, old(bound), ops)
      ensures exists tables :: StepByStep(layout, ops, outcomes, tables) && tables[0] == old(bound) && tables[|ops|] == bound
    {
      outcomes := [];
      for i := 0 to |ops|
        invariant Valid() && (outcomes, bound) == Effects(layout, old(bound), ops[..i])
      {
        var r := Perform(ops[i]);
        assert ops[..i + 1][..i] == ops[..i];
        outcomes := outcomes + [r];
      }
      assert ops[..|ops|] == ops;
      ghost var tables := RunMeans(layout, old(bound), ops);
    }
  }

  /** Each outcome of a run is what its operation comes to on the table the ones before it left. */
  ghost predicate StepByStep(l: Layout, ops: seq<Operation>, outcomes: seq<Outcome>, tables: seq<Bound>) {
    && |outcomes| == |ops| && |tables| == |ops| + 1
    && forall i :: 0 <= i < |ops| ==> ComesTo(l, tables[i], ops[i], outcomes[i], tables[i + 1])
  }

  lemma {:induction false} RunMeans(l: Layout, bound: Bound, ops: seq<Operation>) returns (tables: seq<Bound>)
    ensures StepByStep(l, ops, Effects(l, bound, ops).0, tables)
    ensures tables[0] == bound && tables[|ops|] == Effects(l, bound, ops).1
  {
    if ops == [] {
      tables := [bound];
    } else {
      hide ComesTo, Effect;
      var k := |ops| - 1;
      var front := RunMeans(l, bound, ops[..k]);
      EffectMeans(l, front[k], ops[k]);
      tables := front + [Effects(l, bound, ops).1];
    }
  }

  function Effects(l: Layout, bound: Bound, ops: seq<Operation>): (seq<Outcome>, Bound) {
    if ops == [] then ([], bound)
    else
      var (outcomes, before) := Effects(l, bound, ops[..|ops| - 1]);
      var (r, after) := Effect(l, before, ops[|ops| - 1]);
      (outcomes + [r], after)
  }
}
