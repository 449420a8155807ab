/** What a description depends on, taken together over any number of steps. */
module Dependencies {
  import opened ClassInfos

  datatype Signature = Signature(params: seq<ClassId>, result: ClassId)

  /** A description: its name, by which sets tell descriptions apart, and what it refers to. */
  datatype Info = Info(name: string, typeSimple: bool, fields: set<ClassId>, methods: set<Signature>)

  type Universe = map<ClassId, Info>

  /** `x` is mentioned by `c` as the type of a field, a parameter or a result. */
  ghost predicate Mentions(u: Universe, c: ClassId, x: ClassId) {
    && c in u
    && (x in u[c].fields
        || exists m :: m in u[c].methods && (x == m.result || x in m.params))
  }

  /** Everything mentioned is described: what `getClassRef` leaves behind. */
  ghost predicate ClosedUniverse(u: Universe) {
    forall c, x :: Mentions(u, c, x) ==> x in u
  }

  ghost function SignatureOf(m: MethodInfo): Signature {
    Signature(seq(|m.params|, i requires 0 <= i < |m.params| => m.params[i].info.id), m.result.info.id)
  }

  /** The descriptions in a cache, as values. */
  ghost function UniverseOf(cache: ClassCache): Universe
    reads cache, cache.infos.Values
  {
    map k | k in cache.infos ::
      Info(cache.infos[k].name, cache.infos[k].typeSimple,
           set n | n in cache.infos[k].fields :: cache.infos[k].fields[n].ftype.info.id,
           set i | 0 <= i < |cache.infos[k].methods| :: SignatureOf(cache.infos[k].methods[i]))
  }

  /** What `getClassRef` leaves behind is closed, so the closures below are those of its descriptions. */
  lemma CacheIsClosed(cache: ClassCache)
    requires cache.Valid({})
    ensures ClosedUniverse(UniverseOf(cache))
  {
    var u := UniverseOf(cache);
    forall c, x | Mentions(u, c, x)
      ensures x in u
    {
      if !cache.world[c].basic {
        cache.ReferencesAreCanonical(c);
      }
    }
  }

  /** One step of dependency: simple types are passed over. */
  ghost predicate DependsOn(u: Universe, c: ClassId, x: ClassId) {
    Mentions(u, c, x) && x in u && !u[x].typeSimple
  }

  ghost predicate IsPath(u: Universe, p: seq<ClassId>) {
    forall i :: 0 <= i < |p| - 1 ==> DependsOn(u, p[i], p[i + 1])
  }

  /** `x` is reached from `c` in one step or more. */
  ghost predicate Reaches(u: Universe, c: ClassId, x: ClassId) {
    exists p :: |p| > 1 && p[0] == c && p[|p| - 1] == x && IsPath(u, p)
  }

  lemma ReachesNext(u: Universe, c: ClassId, x: ClassId)
    requires DependsOn(u, c, x)
    ensures Reaches(u, c, x)
  {
    var p := [c, x];
    assert p[0] == c && p[|p| - 1] == x && IsPath(u, p);
  }

  lemma ReachesVia(u: Universe, c: ClassId, x: ClassId, y: ClassId)
    requires DependsOn(u, c, x) && Reaches(u, x, y)
    ensures Reaches(u, c, y)
  {
    var p :| |p| > 1 && p[0] == x && p[|p| - 1] == y && IsPath(u, p);
    var q := [c] + p;
    assert forall i :: 0 < i < |q| ==> q[i] == p[i - 1];
    assert q[0] == c && q[|q| - 1] == y && IsPath(u, q);
  }

  /** A set that holds what `c` and its own members depend on holds all that `c` reaches. */
  lemma {:induction false} ClosedHoldsReached(u: Universe, c: ClassId, s: set<ClassId>, p: seq<ClassId>)
    requires forall x :: DependsOn(u, c, x) ==> x in s
    requires forall d, x :: d in s && DependsOn(u, d, x) ==> x in s
    requires |p| > 1 && p[0] == c && IsPath(u, p)
    ensures p[|p| - 1] in s
    decreases |p|
  {
    if |p| > 2 {
      var q := p[..|p| - 1];
      ClosedHoldsReached(u, c, s, q);
      assert DependsOn(u, p[|p| - 2], p[|p| - 1]);
    } else {
      assert DependsOn(u, p[0], p[1]);
    }
  }

  /** No two of these descriptions have the same name. */
  ghost predicate DistinctNames(u: Universe, s: set<ClassId>) {
    forall a, b :: a in s && b in s && a in u && b in u && u[a].name == u[b].name ==> a == b
  }

  /** A hash set holds a description when it holds one of the same name. */
  predicate Holds(u: Universe, s: set<ClassId>, x: ClassId) {
    x in u && exists a :: a in s && a in u && u[a].name == u[x].name
  }

  /** `x` has been dealt with: it is simple, or its equal is in the set. */
  predicate Settled(u: Universe, s: set<ClassId>, x: ClassId) {
    x in u && (u[x].typeSimple || Holds(u, s, x))
  }

  ghost predicate Covered(u: Universe, s: set<ClassId>, c: ClassId) {
    forall x :: Mentions(u, c, x) ==> Settled(u, s, x)
  }

  /** What a walk from `c`, in depth or of one step, may add: what `c` reaches and nothing half done, or what it depends on. */
  ghost predicate MayAdd(u: Universe, deep: bool, c: ClassId, after: set<ClassId>, d: ClassId) {
    if deep then Reaches(u, c, d) && Covered(u, after, d) else DependsOn(u, c, d)
  }

  /** What a walk from `c` does to a set: nothing lost, nothing added that it may not add. */
  ghost predicate Walked(u: Universe, deep: bool, c: ClassId, before: set<ClassId>, after: set<ClassId>) {
    && before <= after && after <= u.Keys && (DistinctNames(u, before) ==> DistinctNames(u, after))
    && forall d :: d in after && d !in before ==> MayAdd(u, deep, c, after, d)
  }

  lemma SettledStays(u: Universe, s: set<ClassId>, t: set<ClassId>, x: ClassId)
    requires s <= t && Settled(u, s, x)
    ensures Settled(u, t, x)
  {
  }

  lemma CoveredStays(u: Universe, s: set<ClassId>, t: set<ClassId>, c: ClassId)
    requires s <= t && Covered(u, s, c)
    ensures Covered(u, t, c)
  {
  }

  lemma WalkedOn(u: Universe, deep: bool, c: ClassId, s: set<ClassId>, t: set<ClassId>, v: set<ClassId>)
    requires Walked(u, deep, c, s, t) && Walked(u, deep, c, t, v)
    ensures Walked(u, deep, c, s, v)
  {
    forall d | d in v && d !in s
      ensures MayAdd(u, deep, c, v, d)
    {
      if deep && d in t {
        CoveredStays(u, t, v, d);
      }
    }
  }

  /** Adding a dependency and walking on from it is a walk. */
  lemma WalkedInto(u: Universe, c: ClassId, x: ClassId, s: set<ClassId>, t: set<ClassId>)
    requires DependsOn(u, c, x) && !Holds(u, s, x)
    requires Walked(u, true, x, s + {x}, t) && Covered(u, t, x)
    ensures Walked(u, true, c, s, t) && Settled(u, t, x)
  {
    forall d | d in t && d !in s
      ensures MayAdd(u, true, c, t, d)
    {
      if d == x {
        ReachesNext(u, c, x);
      } else {
        ReachesVia(u, c, x, d);
      }
    }
  }

  /** A set of descriptions, changed in place. */
  class InfoSet {
    const u: Universe
    var items: set<ClassId>

    constructor (u: Universe)
      ensures this.u == u && items == {}
    {
      this.u := u;
      items := {};
    }

    /** `HashSet.add`. */
    method Add(x: ClassId)
      requires x in u
      modifies this
      ensures items == if Holds(u, old(items), x) then old(items) else old(items) + {x}
    {
      if !Holds(u, items, x) {
        items := items + {x};
      }
    }

    /** `fillDependencies` of `c`: fields first, then each method's parameters and result. */
    method FillDependencies(c: ClassId, recursive: bool)
      requires ClosedUniverse(u) && c in u && items <= u.Keys
      modifies this
      ensures Walked(u, recursive, c, old(items), items) && Covered(u, items, c)
      decreases u.Keys - items, 3
    {
      VisitFields(c, recursive);
      ghost var t := items;
      var left := u[c].methods;
      while left != {}
        invariant left <= u[c].methods && t <= items && Walked(u, recursive, c, old(items), items)
        invariant forall m :: m in u[c].methods && m !in left ==> SignatureSettled(u, items, m)
        decreases left
      {
        var m :| m in left;
        ghost var before := items;
        VisitMethod(c, m, recursive);
        left := left - {m};
        WalkedOn(u, recursive, c, old(items), before, items);
        forall o | SignatureSettled(u, before, o) ensures SignatureSettled(u, items, o) {
          SignatureStays(u, before, items, o);
        }
      }
      forall x | Mentions(u, c, x)
        ensures Settled(u, items, x)
      {
        if x in u[c].fields {
          SettledStays(u, t, items, x);
        } else {
          var m :| m in u[c].methods && (x == m.result || x in m.params);
          assert SignatureSettled(u, items, m);
        }
      }
    }

    /** The fields, in whatever order the map has them. */
    method VisitFields(c: ClassId, recursive: bool)
      requires ClosedUniverse(u) && c in u && items <= u.Keys
      modifies this
      ensures Walked(u, recursive, c, old(items), items) && forall x :: x in u[c].fields ==> Settled(u, items, x)
      decreases u.Keys - items, 1
    {
      var left := u[c].fields;
      while left != {}
        invariant left <= u[c].fields && Walked(u, recursive, c, old(items), items)
        invariant forall x :: x in u[c].fields && x !in left ==> Settled(u, items, x)
        decreases left
      {
        var x :| x in left;
        ghost var before := items;
        Visit(c, x, recursive);
        left := left - {x};
        WalkedOn(u, recursive, c, old(items), before, items);
        forall y | Settled(u, before, y) ensures Settled(u, items, y) {
          SettledStays(u, before, items, y);
        }
      }
    }

    method VisitMethod(c: ClassId, m: Signature, recursive: bool)
      requires ClosedUniverse(u) && c in u && items <= u.Keys && m in u[c].methods
      modifies this
      ensures Walked(u, recursive, c, old(items), items) && SignatureSettled(u, items, m)
      decreases u.Keys - items, 2
    {
      VisitAll(c, m.params, recursive);
      ghost var between := items;
      Visit(c, m.result, recursive);
      WalkedOn(u, recursive, c, old(items), between, items);
      forall x | x in m.params ensures Settled(u, items, x) {
        SettledStays(u, between, items, x);
      }
    }

    method VisitAll(c: ClassId, xs: seq<ClassId>, recursive: bool)
      requires ClosedUniverse(u) && c in u && items <= u.Keys && forall x :: x in xs ==> Mentions(u, c, x)
      modifies this
      ensures Walked(u, recursive, c, old(items), items) && forall x :: x in xs ==> Settled(u, items, x)
      decreases u.Keys - items, 1
    {
      for i := 0 to |xs|
        invariant Walked(u, recursive, c, old(items), items)
        invariant forall j :: 0 <= j < i ==> Settled(u, items, xs[j])
      {
        ghost var before := items;
        Visit(c, xs[i], recursive);
        WalkedOn(u, recursive, c, old(items), before, items);
        forall j | 0 <= j < i ensures Settled(u, items, xs[j]) {
          SettledStays(u, before, items, xs[j]);
        }
      }
    }

    /** One mentioned class: added, and walked in its turn, unless it is simple or its equal is there. */
    method Visit(c: ClassId, x: ClassId, recursive: bool)
      requires ClosedUniverse(u) && c in u && items <= u.Keys && Mentions(u, c, x)
      modifies this
      ensures Walked(u, recursive, c, old(items), items) && Settled(u, items, x)
      decreases u.Keys - items, 0
    {
      if !u[x].typeSimple && !Holds(u, items, x) {
        assert x !in items;
        Add(x);
        assert x in u.Keys - old(items);
        if recursive {
          FillDependencies(x, true);
          WalkedInto(u, c, x, old(items), items);
        }
      }
    }
  }

  ghost predicate SignatureSettled(u: Universe, s: set<ClassId>, m: Signature) {
    Settled(u, s, m.result) && forall x :: x in m.params ==> Settled(u, s, x)
  }

  lemma SignatureStays(u: Universe, s: set<ClassId>, t: set<ClassId>, m: Signature)
    requires s <= t && SignatureSettled(u, s, m)
    ensures SignatureSettled(u, t, m)
  {
  }

  // ------------------------------------------------------------ the closures

  /** `x` is one of the seeds, or some root reaches it. */
  ghost predicate Wanted(u: Universe, roots: seq<ClassId>, seeds: seq<ClassId>, x: ClassId) {
    x in u && (x in seeds || exists r :: r in roots && Reaches(u, r, x))
  }

  /** No two of the classes wanted have the same name. */
  ghost predicate NamesApart(u: Universe, roots: seq<ClassId>, seeds: seq<ClassId>) {
    forall a, b :: Wanted(u, roots, seeds, a) && Wanted(u, roots, seeds, b) && u[a].name == u[b].name ==> a == b
  }

  lemma WantedOn(u: Universe, roots: seq<ClassId>, seeds: seq<ClassId>, d: ClassId, x: ClassId)
    requires forall r :: r in seeds ==> r in roots
    requires Wanted(u, roots, seeds, d) && DependsOn(u, d, x)
    ensures Wanted(u, roots, seeds, x)
  {
    if d in seeds {
      ReachesNext(u, d, x);
    } else {
      var r :| r in roots && Reaches(u, r, d);
      var p :| |p| > 1 && p[0] == r && p[|p| - 1] == d && IsPath(u, p);
      var q := p + [x];
      assert forall i :: 0 <= i < |p| ==> q[i] == p[i];
      assert q[0] == r && q[|q| - 1] == x && IsPath(u, q);
    }
  }

  /** Sets that tell classes apart by name hold the closure exactly when names tell its members apart. */
  lemma HoldsAllIffNamesApart(u: Universe, roots: seq<ClassId>, seeds: seq<ClassId>, s: set<ClassId>)
    requires forall r :: r in seeds ==> r in roots && Holds(u, s, r)
    requires forall r :: r in roots ==> Covered(u, s, r)
    requires forall d :: d in s ==> Wanted(u, roots, seeds, d) && Covered(u, s, d)
    requires DistinctNames(u, s)
    ensures (forall x :: Wanted(u, roots, seeds, x) ==> x in s) <==> NamesApart(u, roots, seeds)
  {
    if NamesApart(u, roots, seeds) {
      forall d, x | (d in roots || d in s) && DependsOn(u, d, x)
        ensures x in s
      {
        if d in s {
          WantedOn(u, roots, seeds, d, x);
        } else {
          ReachesNext(u, d, x);
        }
        assert Settled(u, s, x);
      }
      forall x | Wanted(u, roots, seeds, x)
        ensures x in s
      {
        if x !in seeds {
          var r :| r in roots && Reaches(u, r, x);
          var p :| |p| > 1 && p[0] == r && p[|p| - 1] == x && IsPath(u, p);
          ClosedHoldsReached(u, r, s, p);
        }
      }
    }
  }

  /** A class with fields of two classes of the same simple name, from different packages. */
  function TwoOfAName(): Universe {
    map[0 := Info("Root", false, {1, 2}, {}), 1 := Info("A", false, {}, {}), 2 := Info("A", false, {}, {})]
  }

  /** Whatever set tells classes apart by name, one of the two is lost. */
  lemma EqualNamesLoseOne(s: set<ClassId>)
    requires DistinctNames(TwoOfAName(), s)
    ensures ClosedUniverse(TwoOfAName())
    ensures exists x :: Wanted(TwoOfAName(), [0], [], x) && x !in s
  {
    var u := TwoOfAName();
    assert DependsOn(u, 0, 1) && DependsOn(u, 0, 2);
    ReachesNext(u, 0, 1);
    ReachesNext(u, 0, 2);
    assert 0 in [0];
    assert Wanted(u, [0], [], 1) && Wanted(u, [0], [], 2);
  }

  // ------------------------------------------- what reflection says, and what is kept

  /** What a class is described by: nothing, if it is described in advance. */
  function Shown(w: World, k: ClassId): (FieldSpecs, seq<Method>)
    requires k in w
  {
    if w[k].basic then (map[], []) else Described(w, w[k])
  }

  function SignatureFor(m: Method): Signature {
    Signature(seq(|m.params|, i requires 0 <= i < |m.params| => Strip(m.params[i])), Strip(m.result))
  }

  function KeptInfo(w: World, k: ClassId): Info
    requires k in w
  {
    var (fs, ms) := Shown(w, k);
    Info(w[k].name, w[k].basic, set n | n in fs :: Strip(fs[n].ftype), set i | 0 <= i < |ms| :: SignatureFor(ms[i]))
  }

  /** The descriptions that `getClassRef` makes, with the methods that joined the set and the last type of each field. */
  function Kept(w: World): (u: Universe)
    ensures u.Keys == w.Keys
  {
    map k | k in w :: KeptInfo(w, k)
  }

  /** All that reflection says of a class that has members to describe. */
  function ReflectedInfo(w: World, k: ClassId): Info
    requires k in w
  {
    var d := w[k];
    if d.basic || d.isEnum then Info(d.name, d.basic, {}, {})
    else
      Info(d.name, d.basic,
           set i | 0 <= i < |d.fields| && !d.fields[i].isStatic :: Strip(d.fields[i].ftype),
           set i | 0 <= i < |d.methods| && !d.methods[i].skipped :: SignatureFor(d.methods[i]))
  }

  function Reflected(w: World): (u: Universe)
    ensures u.Keys == w.Keys
  {
    map k | k in w :: ReflectedInfo(w, k)
  }

  /** Both go by the same name and are passed over alike. */
  lemma InfoOf(w: World, x: ClassId)
    requires x in w
    ensures Kept(w)[x].name == Reflected(w)[x].name == w[x].name
    ensures Kept(w)[x].typeSimple == Reflected(w)[x].typeSimple == w[x].basic
  {
  }

  /** A settled cache holds what is kept of its classes. */
  lemma CacheHoldsKept(cache: ClassCache, k: ClassId)
    requires cache.Valid({}) && k in cache.infos
    ensures UniverseOf(cache)[k] == KeptInfo(cache.world, k)
  {
    var info := cache.infos[k];
    assert cache.IsNamed(k);
    if !cache.world[k].basic {
      assert cache.Filled(k);
      var ms := Shown(cache.world, k).1;
      forall i | 0 <= i < |ms|
        ensures SignatureOf(info.methods[i]) == SignatureFor(ms[i])
      {
        SignaturesAgree(cache, info.methods[i], ms[i]);
      }
      FieldTypesAgree(cache, info.fields, Shown(cache.world, k).0);
    }
  }

  lemma SignaturesAgree(cache: ClassCache, mi: MethodInfo, m: Method)
    requires cache.Valid({}) && MethodLinked(cache.infos, mi, m)
    ensures SignatureOf(mi) == SignatureFor(m)
  {
    assert cache.IsNamed(Strip(m.result));
    forall i | 0 <= i < |m.params|
      ensures SignatureOf(mi).params[i] == SignatureFor(m).params[i]
    {
      assert RefersTo(cache.infos, mi.params[i], m.params[i]) && cache.IsNamed(Strip(m.params[i]));
    }
  }

  lemma FieldTypesAgree(cache: ClassCache, fields: map<string, FieldInfo>, fs: FieldSpecs)
    requires cache.Valid({}) && FieldsLinked(cache.infos, fields, fs)
    ensures (set n | n in fields :: fields[n].ftype.info.id) == set n | n in fs :: Strip(fs[n].ftype)
  {
    var ids, types := (set n | n in fields :: fields[n].ftype.info.id), (set n | n in fs :: Strip(fs[n].ftype));
    forall n | n in fs
      ensures fields[n].ftype.info.id == Strip(fs[n].ftype) && Strip(fs[n].ftype) in ids && fields[n].ftype.info.id in types
    {
      assert cache.IsNamed(Strip(fs[n].ftype));
      assert n in fields;
    }
  }

  /** So what a description in the cache reaches is what its class reaches through what is kept. */
  lemma CacheReachesKept(cache: ClassCache, c: ClassId, x: ClassId)
    requires cache.Valid({}) && c in cache.infos
    ensures Reaches(UniverseOf(cache), c, x) <==> Reaches(Kept(cache.world), c, x)
  {
    var u, v := UniverseOf(cache), Kept(cache.world);
    forall k | k in cache.infos
      ensures k in v && u[k] == v[k]
    {
      assert cache.IsNamed(k);
      CacheHoldsKept(cache, k);
    }
    CacheIsClosed(cache);
    hide Kept, UniverseOf;
    SameReach(u, v, c, x);
  }

  lemma SameReach(u: Universe, v: Universe, c: ClassId, x: ClassId)
    requires ClosedUniverse(u) && c in u && forall k :: k in u ==> k in v && u[k] == v[k]
    ensures Reaches(u, c, x) <==> Reaches(v, c, x)
  {
    forall p | |p| > 1 && p[0] == c
      ensures IsPath(u, p) <==> IsPath(v, p)
    {
      SamePath(u, v, p);
    }
  }

  lemma {:induction false} SamePath(u: Universe, v: Universe, p: seq<ClassId>)
    requires ClosedUniverse(u) && (forall k :: k in u ==> k in v && u[k] == v[k])
    requires |p| > 0 && p[0] in u
    ensures IsPath(u, p) <==> IsPath(v, p)
    ensures IsPath(u, p) ==> p[|p| - 1] in u
  {
    if |p| > 1 {
      var q := p[..|p| - 1];
      SamePath(u, v, q);
      PathGrows(u, p);
      PathGrows(v, p);
      if IsPath(u, q) {
        assert Mentions(u, p[|p| - 2], p[|p| - 1]) <==> Mentions(v, p[|p| - 2], p[|p| - 1]);
      }
    }
  }

  lemma PathGrows(u: Universe, p: seq<ClassId>)
    requires |p| > 1
    ensures IsPath(u, p) <==> IsPath(u, p[..|p| - 1]) && DependsOn(u, p[|p| - 2], p[|p| - 1])
  {
    var q := p[..|p| - 1];
    if IsPath(u, q) && DependsOn(u, p[|p| - 2], p[|p| - 1]) {
      forall i | 0 <= i < |p| - 1
        ensures DependsOn(u, p[i], p[i + 1])
      {
        assert i < |p| - 2 ==> DependsOn(u, q[i], q[i + 1]);
      }
    }
    if IsPath(u, p) {
      assert DependsOn(u, p[|p| - 2], p[|p| - 2 + 1]);
      forall i | 0 <= i < |q| - 1
        ensures DependsOn(u, q[i], q[i + 1])
      {
        assert DependsOn(u, p[i], p[i + 1]);
      }
    }
  }

  /** The type is one of the method's. */
  ghost predicate NamesType(m: Method, x: ClassId) {
    Strip(m.result) == x || exists j :: 0 <= j < |m.params| && Strip(m.params[j]) == x
  }

  lemma SignatureNames(m: Method, x: ClassId)
    ensures x == SignatureFor(m).result || x in SignatureFor(m).params <==> NamesType(m, x)
  {
    if j :| 0 <= j < |m.params| && Strip(m.params[j]) == x {
      assert SignatureFor(m).params[j] == x;
    }
  }

  /** What a description mentions, read off the fields and methods it keeps. */
  ghost predicate KeepsMention(w: World, k: ClassId, x: ClassId)
    requires k in w
  {
    var (fs, ms) := Shown(w, k);
    (exists n :: n in fs && Strip(fs[n].ftype) == x) || exists i :: 0 <= i < |ms| && NamesType(ms[i], x)
  }

  lemma MentionsKept(w: World, k: ClassId, x: ClassId)
    requires k in w
    ensures Mentions(Kept(w), k, x) <==> KeepsMention(w, k, x)
  {
    var ms := Shown(w, k).1;
    forall i | 0 <= i < |ms|
      ensures SignatureFor(ms[i]) in KeptInfo(w, k).methods
      ensures x == SignatureFor(ms[i]).result || x in SignatureFor(ms[i]).params <==> NamesType(ms[i], x)
    {
      SignatureNames(ms[i], x);
    }
  }

  /** What reflection mentions, read off the members. */
  ghost predicate Declares(d: ClassDesc, x: ClassId) {
    || (exists i :: 0 <= i < |d.fields| && !d.fields[i].isStatic && Strip(d.fields[i].ftype) == x)
    || exists i :: 0 <= i < |d.methods| && !d.methods[i].skipped && NamesType(d.methods[i], x)
  }

  lemma MentionsReflected(w: World, k: ClassId, x: ClassId)
    requires k in w
    ensures Mentions(Reflected(w), k, x) <==> !w[k].basic && !w[k].isEnum && Declares(w[k], x)
  {
    var d := w[k];
    forall i | 0 <= i < |d.methods|
      ensures !d.basic && !d.isEnum && !d.methods[i].skipped ==> SignatureFor(d.methods[i]) in ReflectedInfo(w, k).methods
      ensures x == SignatureFor(d.methods[i]).result || x in SignatureFor(d.methods[i]).params <==> NamesType(d.methods[i], x)
    {
      SignatureNames(d.methods[i], x);
    }
  }

  /** Fields and methods kept so far come from members. */
  ghost predicate ComeFromMembers(d: ClassDesc, fs: FieldSpecs, ms: seq<Method>) {
    && (forall n :: n in fs ==> Declares(d, Strip(fs[n].ftype)))
    && forall m :: m in ms ==> m in d.methods && !m.skipped
  }

  lemma {:induction false} FieldsCome(d: ClassDesc, n: nat)
    requires n <= |d.fields|
    ensures ComeFromMembers(d, AfterFields(d, n), [])
  {
    if n > 0 {
      FieldsCome(d, n - 1);
      assert !d.fields[n - 1].isStatic ==> Declares(d, Strip(d.fields[n - 1].ftype));
    }
  }

  lemma {:induction false} MembersCome(w: World, d: ClassDesc, n: nat)
    requires n <= |d.methods|
    ensures var (fs, ms) := AfterMethods(w, d, n); ComeFromMembers(d, fs, ms)
  {
    if n == 0 {
      FieldsCome(d, |d.fields|);
    } else {
      MembersCome(w, d, n - 1);
      var m := d.methods[n - 1];
      if !m.skipped && !AccessorOf(m).NotAccessor? {
        assert NamesType(m, Strip(AccessorSpec(m).ftype));
      }
    }
  }

  /** Nothing is kept that reflection does not say. */
  lemma KeptIsReflected(w: World, c: ClassId, x: ClassId)
    ensures DependsOn(Kept(w), c, x) ==> DependsOn(Reflected(w), c, x)
  {
    if DependsOn(Kept(w), c, x) {
      MentionsKept(w, c, x);
      MentionsReflected(w, c, x);
      var d := w[c];
      MembersCome(w, d, |d.methods|);
      var (fs, ms) := Shown(w, c);
      if i :| 0 <= i < |ms| && NamesType(ms[i], x) {
        assert ms[i] in d.methods;
      }
    }
  }

  lemma ReflectedIsClosed(w: World)
    requires ClosedWorld(w)
    ensures ClosedUniverse(Reflected(w)) && ClosedUniverse(Kept(w))
  {
    forall c, x | Mentions(Reflected(w), c, x) || Mentions(Kept(w), c, x)
      ensures x in w
    {
      MentionsReflected(w, c, x);
      MentionsKept(w, c, x);
      MembersCome(w, w[c], |w[c].methods|);
      var (fs, ms) := Shown(w, c);
      if i :| KeepsMention(w, c, x) && 0 <= i < |ms| && NamesType(ms[i], x) {
        assert ms[i] in w[c].methods;
      }
      assert Declares(w[c], x);
    }
  }

  // ------------------------------------------------------- what goes missing

  /** `d` depends on `x`, and its description does not say so. */
  ghost predicate Hides(w: World, d: ClassId, x: ClassId) {
    DependsOn(Reflected(w), d, x) && !DependsOn(Kept(w), d, x)
  }

  /** The descriptions a walk expands. */
  ghost predicate Expands(w: World, roots: seq<ClassId>, seeds: seq<ClassId>, d: ClassId) {
    d in roots || Wanted(Kept(w), roots, seeds, d)
  }

  /** Whatever one of the descriptions expanded hides, another mentions. */
  ghost predicate NothingMissing(w: World, roots: seq<ClassId>, seeds: seq<ClassId>) {
    forall d, x :: Expands(w, roots, seeds, d) && Hides(w, d, x) ==>
      x in seeds || exists e :: Expands(w, roots, seeds, e) && DependsOn(Kept(w), e, x)
  }

  lemma {:induction false} KeptPath(w: World, p: seq<ClassId>)
    requires IsPath(Kept(w), p)
    ensures IsPath(Reflected(w), p)
  {
    forall i | 0 <= i < |p| - 1
      ensures DependsOn(Reflected(w), p[i], p[i + 1])
    {
      KeptIsReflected(w, p[i], p[i + 1]);
    }
  }

  lemma WantedKeptIsWanted(w: World, roots: seq<ClassId>, seeds: seq<ClassId>, x: ClassId)
    ensures Wanted(Kept(w), roots, seeds, x) ==> Wanted(Reflected(w), roots, seeds, x)
  {
    if Wanted(Kept(w), roots, seeds, x) && x !in seeds {
      var r :| r in roots && Reaches(Kept(w), r, x);
      var p :| |p| > 1 && p[0] == r && p[|p| - 1] == x && IsPath(Kept(w), p);
      KeptPath(w, p);
    }
  }

  lemma ExpandsOn(u: Universe, roots: seq<ClassId>, seeds: seq<ClassId>, d: ClassId, x: ClassId)
    requires forall r :: r in seeds ==> r in roots
    requires d in roots || Wanted(u, roots, seeds, d)
    requires DependsOn(u, d, x)
    ensures Wanted(u, roots, seeds, x)
  {
    if d in roots {
      ReachesNext(u, d, x);
    } else {
      WantedOn(u, roots, seeds, d, x);
    }
  }

  lemma StepIsKept(w: World, roots: seq<ClassId>, seeds: seq<ClassId>, d: ClassId, x: ClassId)
    requires (forall r :: r in seeds ==> r in roots && r in w) && NothingMissing(w, roots, seeds)
    requires Expands(w, roots, seeds, d) && DependsOn(Reflected(w), d, x)
    ensures Wanted(Kept(w), roots, seeds, x)
  {
    hide DependsOn, Reflected;
    if DependsOn(Kept(w), d, x) {
      ExpandsOn(Kept(w), roots, seeds, d, x);
    } else if x !in seeds {
      assert Hides(w, d, x);
      var e :| Expands(w, roots, seeds, e) && DependsOn(Kept(w), e, x);
      ExpandsOn(Kept(w), roots, seeds, e, x);
    }
  }

  lemma {:induction false} PathIsKept(w: World, roots: seq<ClassId>, seeds: seq<ClassId>, p: seq<ClassId>)
    requires (forall r :: r in seeds ==> r in roots && r in w) && NothingMissing(w, roots, seeds)
    requires |p| > 0 && p[0] in roots && IsPath(Reflected(w), p)
    ensures Expands(w, roots, seeds, p[|p| - 1])
    ensures |p| > 1 ==> Wanted(Kept(w), roots, seeds, p[|p| - 1])
    decreases |p|
  {
    hide NothingMissing, DependsOn, Wanted;
    if |p| > 1 {
      var q := p[..|p| - 1];
      PathIsKept(w, roots, seeds, q);
      assert DependsOn(Reflected(w), p[|p| - 2], p[|p| - 1]);
      StepIsKept(w, roots, seeds, q[|q| - 1], p[|p| - 1]);
    }
  }

  lemma LastStep(u: Universe, roots: seq<ClassId>, seeds: seq<ClassId>, x: ClassId)
    requires Wanted(u, roots, seeds, x) && x !in seeds
    ensures exists e :: (e in roots || Wanted(u, roots, seeds, e)) && DependsOn(u, e, x)
  {
    var r :| r in roots && Reaches(u, r, x);
    var p :| |p| > 1 && p[0] == r && p[|p| - 1] == x && IsPath(u, p);
    var q := p[..|p| - 1];
    var e := q[|q| - 1];
    assert DependsOn(u, p[|p| - 2], p[|p| - 1]) && e == p[|p| - 2];
    if |q| > 1 {
      assert DependsOn(u, p[|p| - 3], p[|p| - 2]);
      assert q[0] == r && IsPath(u, q) && Reaches(u, r, e);
    }
  }

  /** All that is wanted is reached through what is kept exactly when nothing goes missing. */
  lemma AllKeptIff(w: World, roots: seq<ClassId>, seeds: seq<ClassId>)
    requires forall r :: r in seeds ==> r in roots && r in w
    ensures (forall x :: Wanted(Reflected(w), roots, seeds, x) ==> Wanted(Kept(w), roots, seeds, x)) <==>
      NothingMissing(w, roots, seeds)
  {
    if NothingMissing(w, roots, seeds) {
      forall x | Wanted(Reflected(w), roots, seeds, x)
        ensures Wanted(Kept(w), roots, seeds, x)
      {
        if x !in seeds {
          var r :| r in roots && Reaches(Reflected(w), r, x);
          var p :| |p| > 1 && p[0] == r && p[|p| - 1] == x && IsPath(Reflected(w), p);
          PathIsKept(w, roots, seeds, p);
        }
      }
    }
    if forall x :: Wanted(Reflected(w), roots, seeds, x) ==> Wanted(Kept(w), roots, seeds, x) {
      forall d, x | Expands(w, roots, seeds, d) && Hides(w, d, x) && x !in seeds
        ensures exists e :: Expands(w, roots, seeds, e) && DependsOn(Kept(w), e, x)
      {
        WantedKeptIsWanted(w, roots, seeds, d);
        ExpandsOn(Reflected(w), roots, seeds, d, x);
        LastStep(Kept(w), roots, seeds, x);
        var e :| (e in roots || Wanted(Kept(w), roots, seeds, e)) && DependsOn(Kept(w), e, x);
        assert Expands(w, roots, seeds, e);
      }
    }
  }

  /** No two of the classes wanted have the same name, and each is mentioned by what is kept. */
  ghost predicate Complete(w: World, roots: seq<ClassId>, seeds: seq<ClassId>) {
    NothingMissing(w, roots, seeds) && NamesApart(Reflected(w), roots, seeds)
  }

  /** A walk over what is kept collects what reflection wants exactly when nothing goes missing and names are apart. */
  lemma HoldsAllIffComplete(w: World, roots: seq<ClassId>, seeds: seq<ClassId>, s: set<ClassId>)
    requires forall r :: r in seeds ==> r in roots && r in w
    requires forall x :: x in s ==> Wanted(Kept(w), roots, seeds, x)
    requires (forall x :: Wanted(Kept(w), roots, seeds, x) ==> x in s) <==> NamesApart(Kept(w), roots, seeds)
    requires DistinctNames(Kept(w), s)
    ensures forall x :: x in s ==> Wanted(Reflected(w), roots, seeds, x)
    ensures (forall x :: Wanted(Reflected(w), roots, seeds, x) ==> x in s) <==> Complete(w, roots, seeds)
  {
    AllKeptIff(w, roots, seeds);
    hide NothingMissing, Reaches, Kept, Reflected;
    forall x
      ensures Wanted(Kept(w), roots, seeds, x) ==> Wanted(Reflected(w), roots, seeds, x)
      ensures x in w ==> Kept(w)[x].name == Reflected(w)[x].name
    {
      WantedKeptIsWanted(w, roots, seeds, x);
      if x in w {
        InfoOf(w, x);
      }
    }
  }

  // ------------------------------------------- when a description hides nothing

  /** The two types are of one class, or of two that are passed over. */
  predicate TypesAgree(w: World, s: Type, t: Type) {
    Strip(s) == Strip(t) || (Strip(s) in w && w[Strip(s)].basic && Strip(t) in w && w[Strip(t)].basic)
  }

  predicate MethodsAgree(w: World, m: Method, o: Method) {
    && |m.params| == |o.params| && TypesAgree(w, m.result, o.result)
    && forall i :: 0 <= i < |m.params| ==> TypesAgree(w, m.params[i], o.params[i])
  }

  /** A public field or an accessor makes a field of this name and type. */
  ghost predicate Makes(d: ClassDesc, n: string, t: Type) {
    || (exists i :: 0 <= i < |d.fields| && !d.fields[i].isStatic && d.fields[i].name == n && d.fields[i].ftype == t)
    || exists i :: 0 <= i < |d.methods| && IsAccessor(d.methods[i]) && AccessorOf(d.methods[i]).name == n && AccessorSpec(d.methods[i]).ftype == t
  }

  predicate IsAccessor(m: Method) {
    !m.skipped && !AccessorOf(m).NotAccessor?
  }

  predicate IsPlain(m: Method) {
    !m.skipped && AccessorOf(m).NotAccessor?
  }

  /** Methods equal by simple names agree in their classes, and so do all that makes a field of one name. */
  ghost predicate Agrees(w: World, d: ClassDesc) {
    && (forall m, o :: m in d.methods && o in d.methods && IsPlain(m) && IsPlain(o) && SameMethod(w, m, o) ==> MethodsAgree(w, m, o))
    && forall n, s, t :: Makes(d, n, s) && Makes(d, n, t) ==> TypesAgree(w, s, t)
  }

  /** The fields so far have the types of something that makes them, and none made so far is missing. */
  ghost predicate FieldsMade(d: ClassDesc, fs: FieldSpecs, fields: nat, methods: nat)
    requires fields <= |d.fields| && methods <= |d.methods|
  {
    && (forall n :: n in fs ==> Makes(d, n, fs[n].ftype))
    && (forall i :: 0 <= i < fields && !d.fields[i].isStatic ==> d.fields[i].name in fs)
    && forall i :: 0 <= i < methods && IsAccessor(d.methods[i]) ==> AccessorOf(d.methods[i]).name in fs
  }

  lemma {:induction false} FieldsAreMade(d: ClassDesc, n: nat)
    requires n <= |d.fields|
    ensures FieldsMade(d, AfterFields(d, n), n, 0)
  {
    if n > 0 {
      FieldsAreMade(d, n - 1);
      var f := d.fields[n - 1];
      assert !f.isStatic ==> Makes(d, f.name, f.ftype);
    }
  }

  /** Each plain method so far is in the set, or one equal to it is. */
  ghost predicate MethodsJoined(w: World, d: ClassDesc, ms: seq<Method>, n: nat)
    requires n <= |d.methods|
  {
    && (forall m :: m in ms ==> m in d.methods && IsPlain(m))
    && forall i :: 0 <= i < n && IsPlain(d.methods[i]) ==> exists m :: m in ms && SameMethod(w, m, d.methods[i])
  }

  lemma JoinsMore(w: World, d: ClassDesc, ms: seq<Method>, n: nat)
    requires n < |d.methods| && MethodsJoined(w, d, ms, n)
    ensures MethodsJoined(w, d, if IsPlain(d.methods[n]) then WithMethod(w, ms, d.methods[n]) else ms, n + 1)
  {
    var m := d.methods[n];
    var after := if IsPlain(m) then WithMethod(w, ms, m) else ms;
    forall i | 0 <= i < n + 1 && IsPlain(d.methods[i])
      ensures exists o :: o in after && SameMethod(w, o, d.methods[i])
    {
      if i < n {
        var o :| o in ms && SameMethod(w, o, d.methods[i]);
        assert o in after;
      } else if j :| 0 <= j < |ms| && SameMethod(w, ms[j], m) {
        assert ms[j] in after;
      } else {
        assert after[|ms|] == m && SameMethod(w, m, m);
      }
    }
  }

  lemma MakesMore(d: ClassDesc, fs: FieldSpecs, n: nat)
    requires n < |d.methods| && FieldsMade(d, fs, |d.fields|, n)
    ensures var m := d.methods[n];
      FieldsMade(d, if IsAccessor(m) then Merge(fs, AccessorOf(m).name, AccessorSpec(m)) else fs, |d.fields|, n + 1)
  {
    hide AccessorOf, AccessorSpec;
    var m := d.methods[n];
    assert IsAccessor(m) ==> Makes(d, AccessorOf(m).name, AccessorSpec(m).ftype);
  }

  lemma MembersGrow(w: World, d: ClassDesc, was: (FieldSpecs, seq<Method>), n: nat)
    requires n < |d.methods| && FieldsMade(d, was.0, |d.fields|, n) && MethodsJoined(w, d, was.1, n)
    ensures var now := WithMember(w, was, d.methods[n]);
      FieldsMade(d, now.0, |d.fields|, n + 1) && MethodsJoined(w, d, now.1, n + 1)
  {
    hide FieldsMade, MethodsJoined, WithMethod, Merge, AccessorOf, AccessorSpec;
    JoinsMore(w, d, was.1, n);
    MakesMore(d, was.0, n);
  }

  lemma {:induction false} MembersAreMade(w: World, d: ClassDesc, n: nat)
    requires n <= |d.methods|
    ensures var (fs, ms) := AfterMethods(w, d, n);
      FieldsMade(d, fs, |d.fields|, n) && MethodsJoined(w, d, ms, n)
  {
    hide FieldsMade, WithMember;
    if n == 0 {
      FieldsAreMade(d, |d.fields|);
    } else {
      MembersAreMade(w, d, n - 1);
      MembersGrow(w, d, AfterMethods(w, d, n - 1), n - 1);
    }
  }

  lemma MethodIsKept(w: World, m: Method, o: Method, x: ClassId)
    requires MethodsAgree(w, o, m) && NamesType(m, x) && !PassedOver(w, x)
    ensures NamesType(o, x)
  {
    if j :| 0 <= j < |m.params| && Strip(m.params[j]) == x {
      assert Strip(o.params[j]) == x;
    }
  }

  ghost predicate PassedOver(w: World, x: ClassId) {
    x in w && w[x].basic
  }

  /** A field made with a type of this class is kept with one. */
  lemma FieldIsKept(w: World, d: ClassDesc, fs: FieldSpecs, n: string, t: Type)
    requires Agrees(w, d) && Makes(d, n, t) && n in fs && Makes(d, n, fs[n].ftype) && !PassedOver(w, Strip(t))
    ensures Strip(fs[n].ftype) == Strip(t)
  {
    hide Makes;
  }

  /** What an accessor mentions is the type of its field, but for `void`. */
  lemma AccessorNames(w: World, m: Method, x: ClassId)
    requires IsAccessor(m) && NamesType(m, x) && PassedOver(w, VOID) && !PassedOver(w, x)
    ensures Strip(AccessorSpec(m).ftype) == x
  {
  }

  lemma KeepsWhatIsDeclared(w: World, d: ClassDesc, fs: FieldSpecs, ms: seq<Method>, x: ClassId)
    requires Agrees(w, d) && PassedOver(w, VOID) && Declares(d, x) && !PassedOver(w, x)
    requires FieldsMade(d, fs, |d.fields|, |d.methods|) && MethodsJoined(w, d, ms, |d.methods|)
    ensures (exists n :: n in fs && Strip(fs[n].ftype) == x) || exists i :: 0 <= i < |ms| && NamesType(ms[i], x)
  {
    hide AccessorOf, AccessorSpec, PassedOver, SameMethod, MethodsAgree, NamesType;
    if i :| 0 <= i < |d.fields| && !d.fields[i].isStatic && Strip(d.fields[i].ftype) == x {
      FieldIsKept(w, d, fs, d.fields[i].name, d.fields[i].ftype);
    } else {
      var i :| 0 <= i < |d.methods| && !d.methods[i].skipped && NamesType(d.methods[i], x);
      var m := d.methods[i];
      if IsPlain(m) {
        var o :| o in ms && SameMethod(w, o, m);
        MethodIsKept(w, m, o, x);
      } else {
        AccessorNames(w, m, x);
        FieldIsKept(w, d, fs, AccessorOf(m).name, AccessorSpec(m).ftype);
      }
    }
  }

  /** A class whose members agree hides nothing: only what is equal by simple names and not in its classes can be lost. */
  lemma HidesNothing(w: World, c: ClassId, x: ClassId)
    requires c in w && Agrees(w, w[c]) && PassedOver(w, VOID)
    ensures !Hides(w, c, x)
  {
    hide Agrees, AfterMethods, Declares, FieldsMade, MethodsJoined, Mentions, NamesType;
    if DependsOn(Reflected(w), c, x) {
      var (fs, ms) := Shown(w, c);
      MentionsReflected(w, c, x);
      MentionsKept(w, c, x);
      MembersAreMade(w, w[c], |w[c].methods|);
      KeepsWhatIsDeclared(w, w[c], fs, ms, x);
    }
  }

  /** The closure is complete where the classes reached agree in themselves and their names are apart. */
  lemma CompleteWhereAgreed(w: World, roots: seq<ClassId>, seeds: seq<ClassId>)
    requires PassedOver(w, VOID) && NamesApart(Reflected(w), roots, seeds)
    requires forall d :: Expands(w, roots, seeds, d) ==> d in w && Agrees(w, w[d])
    ensures Complete(w, roots, seeds)
  {
    forall d, x | Expands(w, roots, seeds, d)
      ensures !Hides(w, d, x)
    {
      HidesNothing(w, d, x);
    }
  }

  /** `void f(int)` and `void f(java.lang.Number)`: both parameters are described as "Number". */
  function Overloads(): World {
    map[
      0 := ClassDesc("void", true, false, [], []),
      1 := ClassDesc("Number", true, false, [], []),
      2 := ClassDesc("Number", false, false, [], []),
      3 := ClassDesc("Root", false, false, [], [Method("f", [Class(1)], Class(0), false), Method("f", [Class(2)], Class(0), false)])
    ]
  }

  lemma SecondOverloadIsDropped()
    ensures Shown(Overloads(), 3) == (map[], [Overloads()[3].methods[0]])
  {
    var w, d := Overloads(), Overloads()[3];
    var m, o := d.methods[0], d.methods[1];
    assert IsPlain(m) && IsPlain(o) && SameMethod(w, m, o);
    assert AfterFields(d, 0) == map[] && AfterMethods(w, d, 0) == (map[], []);
    assert WithMethod(w, [], m) == [m] && AfterMethods(w, d, 1) == (map[], [m]);
    assert [m][0] == m && WithMethod(w, [m], o) == [m];
  }

  lemma OverloadMentions(x: ClassId)
    ensures DependsOn(Reflected(Overloads()), 3, x) <==> x == 2
    ensures !DependsOn(Kept(Overloads()), 3, x)
    ensures forall c :: c != 3 ==> !DependsOn(Reflected(Overloads()), c, x)
  {
    hide Shown, Reflected, Kept;
    var w := Overloads();
    MentionsReflected(w, 3, x);
    MentionsKept(w, 3, x);
    SecondOverloadIsDropped();
    if x in w {
      InfoOf(w, x);
    }
    var d := w[3];
    assert NamesType(d.methods[0], x) <==> x == 1 || x == 0 by {
      assert Strip(d.methods[0].params[0]) == 1;
    }
    assert NamesType(d.methods[1], x) <==> x == 2 || x == 0 by {
      assert Strip(d.methods[1].params[0]) == 2;
    }
    forall c | c in w && c != 3
      ensures !DependsOn(Reflected(w), c, x)
    {
      MentionsReflected(w, c, x);
    }
  }

  lemma OverloadsAreClosed()
    ensures ClosedWorld(Overloads())
  {
  }

  lemma OverloadIsWanted(x: ClassId)
    ensures Wanted(Reflected(Overloads()), [3], [], x) <==> x == 2
  {
    hide Reflected, DependsOn;
    OverloadMentions(2);
    ReachesNext(Reflected(Overloads()), 3, 2);
    assert 3 in [3] && 2 in Overloads();
    if Wanted(Reflected(Overloads()), [3], [], x) {
      LastStep(Reflected(Overloads()), [3], [], x);
      OverloadMentions(x);
    }
  }

  lemma NothingKeptIsWanted(x: ClassId)
    ensures !Wanted(Kept(Overloads()), [3], [], x)
  {
    hide Kept, DependsOn;
    if Wanted(Kept(Overloads()), [3], [], x) {
      var p :| |p| > 1 && p[0] == 3 && p[|p| - 1] == x && IsPath(Kept(Overloads()), p);
      assert DependsOn(Kept(Overloads()), p[0], p[1]);
      OverloadMentions(p[1]);
    }
  }

  /** The one class reached is lost with the second method, although its name is like no other's that is wanted. */
  lemma OverloadLosesOne()
    ensures ClosedWorld(Overloads())
    ensures Wanted(Reflected(Overloads()), [3], [], 2) && NamesApart(Reflected(Overloads()), [3], [])
    ensures forall x :: !Wanted(Kept(Overloads()), [3], [], x)
  {
    hide Wanted, Reflected, Kept, Overloads, ClosedWorld;
    OverloadsAreClosed();
    forall x
      ensures Wanted(Reflected(Overloads()), [3], [], x) <==> x == 2
      ensures !Wanted(Kept(Overloads()), [3], [], x)
    {
      OverloadIsWanted(x);
      NothingKeptIsWanted(x);
    }
  }

  /** `A getX()` and `void setX(B)`: the field has the type of whichever is inspected last. */
  function Accessors(): World {
    map[
      0 := ClassDesc("void", true, false, [], []),
      1 := ClassDesc("A", false, false, [], []),
      2 := ClassDesc("B", false, false, [], []),
      3 := ClassDesc("Root", false, false, [], [Method("getX", [], Class(1), false), Method("setX", [Class(2)], Class(0), false)])
    ]
  }

  lemma SetterTakesOver()
    ensures Shown(Accessors(), 3) == (map["x" := FieldSpec(Class(2), true, true)], [])
  {
    var w, d := Accessors(), Accessors()[3];
    var m, o := d.methods[0], d.methods[1];
    assert AccessorOf(m) == Getter("x") && AccessorOf(o) == Setter("x");
    var fs := map["x" := FieldSpec(Class(1), true, false)];
    assert AccessorSpec(m) == fs["x"] && AccessorSpec(o) == FieldSpec(Class(2), false, true);
    hide AccessorSpec;
    assert AfterFields(d, 0) == map[] && AfterMethods(w, d, 0) == (map[], []);
    assert Merge(map[], "x", AccessorSpec(m)) == fs && AfterMethods(w, d, 1) == (fs, []);
    assert Merge(fs, "x", AccessorSpec(o)) == map["x" := FieldSpec(Class(2), true, true)];
    assert AfterMethods(w, d, 2) == (Merge(fs, "x", AccessorSpec(o)), []);
  }

  lemma AccessorsAreClosed()
    ensures ClosedWorld(Accessors())
  {
  }

  lemma AccessorsMention()
    ensures DependsOn(Reflected(Accessors()), 3, 1) && !DependsOn(Kept(Accessors()), 3, 1)
    ensures !DependsOn(Kept(Accessors()), 2, 1)
  {
    hide Shown, Reflected, Kept, AfterMethods;
    var w := Accessors();
    SetterTakesOver();
    MentionsReflected(w, 3, 1);
    MentionsKept(w, 3, 1);
    assert NamesType(w[3].methods[0], 1);
    InfoOf(w, 1);
    KeptIsReflected(w, 2, 1);
    MentionsReflected(w, 2, 1);
  }

  /** The class of the getter is mentioned by nothing that is kept. */
  lemma AccessorsLoseOne()
    ensures ClosedWorld(Accessors()) && Hides(Accessors(), 3, 1) && !DependsOn(Kept(Accessors()), 2, 1)
  {
    hide Reflected, Kept, ClosedWorld, DependsOn, Accessors;
    AccessorsAreClosed();
    AccessorsMention();
  }

  // ------------------------------------------------------------ the operations

  /** What `getDependencies` is meant to return: all that `c` reaches, or all it depends on directly. */
  ghost predicate WantedOf(w: World, c: ClassId, recursive: bool, x: ClassId) {
    if recursive then Wanted(Reflected(w), [c], [], x) else DependsOn(Reflected(w), c, x)
  }

  /** The descriptions hide nothing that matters, and the names of what is wanted are apart. */
  ghost predicate CompleteOf(w: World, c: ClassId, recursive: bool) {
    if recursive then Complete(w, [c], [])
    else
      && (forall x :: !Hides(w, c, x))
      && forall a, b :: DependsOn(Reflected(w), c, a) && DependsOn(Reflected(w), c, b) && w[a].name == w[b].name ==> a == b
  }

  /**
    `getDependencies`: terminates on any classes and returns only what the class
    reaches, or depends on directly; it returns all of that if and only if nothing
    goes missing with what the descriptions do not keep and no two of these
    classes have the same name.
  */
  method GetDependencies(w: World, c: ClassId, recursive: bool) returns (dependencies: set<ClassId>)
    requires ClosedWorld(w) && c in w
    ensures forall x :: x in dependencies ==> WantedOf(w, c, recursive, x)
    ensures DistinctNames(Reflected(w), dependencies)
    ensures (forall x :: WantedOf(w, c, recursive, x) ==> x in dependencies) <==> CompleteOf(w, c, recursive)
  {
    ReflectedIsClosed(w);
    var s := new InfoSet(Kept(w));
    s.FillDependencies(c, recursive);
    dependencies := s.items;
    SameNames(w, dependencies);
    assert c in [c];
    if recursive {
      HoldsAllIffNamesApart(Kept(w), [c], [], dependencies);
      HoldsAllIffComplete(w, [c], [], dependencies);
    } else {
      DirectIff(w, c, dependencies);
    }
  }

  lemma SameNames(w: World, s: set<ClassId>)
    ensures DistinctNames(Kept(w), s) <==> DistinctNames(Reflected(w), s)
  {
    assert forall x :: x in w ==> Kept(w)[x].name == Reflected(w)[x].name;
  }

  lemma DirectIff(w: World, c: ClassId, s: set<ClassId>)
    requires c in w && Covered(Kept(w), s, c) && DistinctNames(Kept(w), s)
    requires forall x :: x in s ==> DependsOn(Kept(w), c, x)
    ensures forall x :: x in s ==> DependsOn(Reflected(w), c, x)
    ensures (forall x :: DependsOn(Reflected(w), c, x) ==> x in s) <==> CompleteOf(w, c, false)
  {
    hide Reflected, Kept;
    forall x
      ensures DependsOn(Kept(w), c, x) ==> DependsOn(Reflected(w), c, x) && Holds(Kept(w), s, x)
    {
      KeptIsReflected(w, c, x);
    }
    SameNames(w, s);
    if CompleteOf(w, c, false) {
      forall x | DependsOn(Reflected(w), c, x)
        ensures x in s
      {
        assert !Hides(w, c, x);
        var a :| a in s && a in Kept(w) && Kept(w)[a].name == Kept(w)[x].name;
        assert DependsOn(Reflected(w), c, a);
        InfoOf(w, a);
        InfoOf(w, x);
      }
    } else if forall x :: DependsOn(Reflected(w), c, x) ==> x in s {
      forall a, b | DependsOn(Reflected(w), c, a) && DependsOn(Reflected(w), c, b) && w[a].name == w[b].name
        ensures a == b
      {
        InfoOf(w, a);
        InfoOf(w, b);
      }
    }
  }

  /**
    The start of `generateJSClient`: the set is seeded with all the roots, then
    each is expanded in turn. It ends with only the roots and what they reach;
    with all of that if and only if no two of these have the same name.
  */
  method ClientDependencies(w: World, roots: seq<ClassId>) returns (dependencies: set<ClassId>)
    requires ClosedWorld(w) && forall r :: r in roots ==> r in w
    ensures forall x :: x in dependencies ==> Wanted(Reflected(w), roots, roots, x)
    ensures DistinctNames(Reflected(w), dependencies)
    ensures (forall x :: Wanted(Reflected(w), roots, roots, x) ==> x in dependencies) <==> Complete(w, roots, roots)
  {
    ReflectedIsClosed(w);
    hide Kept, Reflected, Wanted, Complete, ClosedUniverse, Covered, Expanded, DistinctNames, Holds;
    var u := Kept(w);
    var s := new InfoSet(u);
    SeededNone(u, roots);
    for i := 0 to |roots|
      invariant s.u == u && Seeded(u, roots, s.items, i)
    {
      SeededNext(u, roots, s.items, i);
      s.Add(roots[i]);
    }
    ExpandedNone(u, roots, s.items);
    for i := 0 to |roots|
      invariant s.u == u && s.items <= u.Keys && Expanded(u, roots, s.items, i)
    {
      ghost var before := s.items;
      s.FillDependencies(roots[i], true);
      ExpandedNext(u, roots, before, s.items, i);
    }
    dependencies := s.items;
    AllExpanded(w, roots, dependencies);
  }

  /** The first `n` roots have been added. */
  ghost predicate Seeded(u: Universe, roots: seq<ClassId>, s: set<ClassId>, n: nat)
    requires n <= |roots|
  {
    DistinctNames(u, s) && (forall x :: x in s ==> x in roots) && forall j :: 0 <= j < n ==> Holds(u, s, roots[j])
  }

  lemma SeededNone(u: Universe, roots: seq<ClassId>)
    ensures Seeded(u, roots, {}, 0)
  {
  }

  lemma SeededNext(u: Universe, roots: seq<ClassId>, s: set<ClassId>, n: nat)
    requires n < |roots| && roots[n] in u && Seeded(u, roots, s, n)
    ensures Seeded(u, roots, if Holds(u, s, roots[n]) then s else s + {roots[n]}, n + 1)
  {
  }

  lemma ExpandedNone(u: Universe, roots: seq<ClassId>, s: set<ClassId>)
    requires Seeded(u, roots, s, |roots|) && forall r :: r in roots ==> r in u
    ensures Expanded(u, roots, s, 0) && s <= u.Keys
  {
    assert forall r :: r in roots ==> Holds(u, s, r);
  }

  lemma AllExpanded(w: World, roots: seq<ClassId>, s: set<ClassId>)
    requires Expanded(Kept(w), roots, s, |roots|) && forall r :: r in roots ==> r in w
    ensures forall x :: x in s ==> Wanted(Reflected(w), roots, roots, x)
    ensures DistinctNames(Reflected(w), s)
    ensures (forall x :: Wanted(Reflected(w), roots, roots, x) ==> x in s) <==> Complete(w, roots, roots)
  {
    hide Kept, Reflected, Wanted, Complete, DistinctNames, Covered, NamesApart;
    forall r | r in roots
      ensures Covered(Kept(w), s, r)
    {
    }
    SameNames(w, s);
    HoldsAllIffNamesApart(Kept(w), roots, roots, s);
    HoldsAllIffComplete(w, roots, roots, s);
  }

  /** The first `n` roots have been expanded. */
  ghost predicate Expanded(u: Universe, roots: seq<ClassId>, s: set<ClassId>, n: nat)
    requires n <= |roots|
  {
    && DistinctNames(u, s) && (forall r :: r in roots ==> Holds(u, s, r))
    && (forall j :: 0 <= j < n ==> Covered(u, s, roots[j]))
    && forall d :: d in s ==> Wanted(u, roots, roots, d) && (d in roots || Covered(u, s, d))
  }

  lemma ExpandedNext(u: Universe, roots: seq<ClassId>, s: set<ClassId>, t: set<ClassId>, n: nat)
    requires n < |roots| && Expanded(u, roots, s, n)
    requires Walked(u, true, roots[n], s, t) && Covered(u, t, roots[n])
    ensures Expanded(u, roots, t, n + 1)
  {
    forall c | Covered(u, s, c) ensures Covered(u, t, c) {
      CoveredStays(u, s, t, c);
    }
  }
}
