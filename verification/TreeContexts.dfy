/** What a naming context holds and how it fails. */
module Bindings {
  import opened Names

  /** A bound object: a service, or a link to another name. */
  datatype Object = Service(id: nat) | LinkRef(target: string)

  datatype NamingError =
    | NameNotFound(at: Path)
    | NotContext(at: Path)
    | NameAlreadyBound
    | OperationNotSupported
    | NoPermission

  datatype Result<+T> = Ok(value: T) | Error(error: NamingError)
}

/**
  A naming tree as a flat map: every bound path, contexts included, and what it
  is bound to. This is what a `TreeContext` is proved to be.
*/
module NameSpaces {
  import opened Options
  import opened Names
  import opened Bindings

  datatype Entry = Leaf(obj: Object) | Context

  type Space = map<Path, Entry>

  function Front(n: Path): Path requires n != [] { n[..|n| - 1] }
  function Last(n: Path): string requires n != [] { n[|n| - 1] }

  /** Everything above a bound name is a context. */
  ghost predicate PrefixClosed(t: Space) {
    [] !in t && forall n {:trigger Front(n)} :: n in t && |n| > 1 ==> Front(n) in t && t[Front(n)] == Context
  }

  lemma {:induction false} ParentsAreContexts(t: Space, n: Path, i: nat)
    requires PrefixClosed(t) && n in t && 0 < i < |n|
    ensures n[..i] in t && t[n[..i]] == Context
    decreases |n| - i
  {
    assert Front(n[..i + 1]) == n[..i];
    if i < |n| - 1 {
      ParentsAreContexts(t, n, i + 1);
    } else {
      assert n[..i + 1] == n;
    }
  }

  /** Nothing is bound below a name that is not bound. */
  lemma NothingBelow(t: Space, n: Path, p: Path)
    requires PrefixClosed(t) && n != [] && n !in t && n <= p
    ensures p !in t
  {
    if p != n && p in t {
      assert p[..|n|] == n && |p| > |n|;
      ParentsAreContexts(t, p, |n|);
    }
  }

  /**
    What stops the walk to the table that holds `n`, from its `k`th component on:
    a leaf in the way, or, in strict mode, a missing context.
  */
  function WalkError(t: Space, n: Path, k: nat, strict: bool): (e: Result<()>)
    requires n != []
    ensures e.Error? ==> e.error.NameNotFound? || e.error.NotContext?
    decreases |n| - k
  {
    if k >= |n| - 1 then Ok(())
    else if n[..k + 1] !in t then if strict then Error(NameNotFound(n[..k + 1])) else Ok(())
    else if t[n[..k + 1]] != Context then Error(NotContext(n[..k + 1]))
    else WalkError(t, n, k + 1, strict)
  }

  /** The walk succeeds exactly when no proper prefix is a leaf and, in strict mode, none is missing. */
  lemma {:induction false} WalkSucceeds(t: Space, n: Path, k: nat, strict: bool)
    requires PrefixClosed(t) && k < |n|
    requires forall i :: 0 < i <= k ==> n[..i] in t && t[n[..i]] == Context
    ensures WalkError(t, n, k, strict).Ok? <==>
      forall i :: k < i < |n| ==> if n[..i] in t then t[n[..i]] == Context else !strict
    decreases |n| - k
  {
    if k < |n| - 1 {
      if n[..k + 1] in t {
        if t[n[..k + 1]] == Context {
          WalkSucceeds(t, n, k + 1, strict);
        }
      } else if !strict {
        forall i | k < i < |n| ensures n[..i] !in t {
          NothingBelow(t, n[..k + 1], n[..i]);
        }
      }
    }
  }

  /** The space with the missing contexts above `n` created. */
  ghost function Grown(t: Space, n: Path): Space {
    if |n| <= 1 then t
    else
      var g := Grown(t, Front(n));
      if Front(n) in g then g else g[Front(n) := Context]
  }

  /** Exactly the missing proper prefixes are added, as contexts, and nothing else changes. */
  lemma {:induction false} GrownAdds(t: Space, n: Path, p: Path)
    ensures p in Grown(t, n) <==> p in t || (0 < |p| < |n| && p <= n)
    ensures p in t ==> Grown(t, n)[p] == t[p]
    ensures p in Grown(t, n) && p !in t ==> Grown(t, n)[p] == Context
    decreases |n|
  {
    if |n| > 1 {
      GrownAdds(t, Front(n), p);
      GrownAdds(t, Front(n), Front(n));
      if 0 < |p| < |n| {
        assert p <= n <==> p == Front(n) || (|p| < |n| - 1 && p <= Front(n));
      }
    }
  }

  /** The space without `n` and everything below it. */
  ghost function Dropped(t: Space, n: Path): Space {
    map p | p in t && !(n <= p) :: t[p]
  }

  /** What `bind` does to the space and what it reports. */
  ghost predicate Binds(t: Space, n: Path, obj: Object, strict: bool, r: Result<()>, t': Space) {
    if n == [] || n in t then r == Error(NameAlreadyBound) && t' == t
    else if WalkError(t, n, 0, strict).Error? then r == WalkError(t, n, 0, strict) && t' == t
    else r == Ok(()) && t' == Grown(t, n)[n := Leaf(obj)]
  }

  /** What `unbind` does: a missing parent is not an error, a missing name is. */
  ghost predicate Unbinds(t: Space, n: Path, r: Result<()>, t': Space) {
    if n == [] then r == Error(OperationNotSupported) && t' == t
    else if WalkError(t, n, 0, true).Error? then r == Ok(()) && t' == t
    else if n !in t then r == Error(NameNotFound(n)) && t' == t
    else r == Ok(()) && t' == Dropped(t, n)
  }

  /** What `destroySubcontext` does: like `unbind`, but complains after it removed a leaf. */
  ghost predicate Destroys(t: Space, n: Path, r: Result<()>, t': Space) {
    if n != [] && n in t && WalkError(t, n, 0, true).Ok? && t[n] != Context
    then r == Error(NotContext(n)) && t' == Dropped(t, n)
    else Unbinds(t, n, r, t')
  }

  /** What `lookup` finds. */
  function Find(t: Space, n: Path): Result<Entry> {
    if n == [] then Ok(Context)
    else if WalkError(t, n, 0, true).Error? then Error(WalkError(t, n, 0, true).error)
    else if n !in t then Error(NameNotFound(n))
    else Ok(t[n])
  }

  /** What `lookupLink` finds: it follows one link, wherever that leads. */
  function FindLink(t: Space, n: Path): Result<Entry> {
    var r := Find(t, n);
    if r.Ok? && r.value.Leaf? && r.value.obj.LinkRef? then Find(t, Parse(r.value.obj.target)) else r
  }

  /** Below a context that was just created nothing stops the walk. */
  lemma WalkBelowNew(t: Space, n: Path, i: nat)
    requires PrefixClosed(t) && i < |n| - 1 && n[..i + 1] !in t
    ensures WalkError(t[n[..i + 1] := Context], n, i + 1, false) == Ok(())
  {
    if i + 1 < |n| - 1 {
      NothingBelow(t, n[..i + 1], n[..i + 2]);
    }
  }

  lemma GrownStep(t: Space, u: Space, n: Path, i: nat)
    requires i < |n| - 1 && u == Grown(t, n[..i + 1])
    ensures Grown(t, n[..i + 2]) == if n[..i + 1] in u then u else u[n[..i + 1] := Context]
  {
    assert Front(n[..i + 2]) == n[..i + 1];
  }

  /** A walk in mid-run: from space `t` it has made `u`, and what stops it is still ahead. */
  ghost predicate Walked(t: Space, u: Space, n: Path, i: nat, strict: bool) {
    && n != [] && i < |n| && u == Grown(t, n[..i + 1])
    && WalkError(t, n, 0, strict) == WalkError(u, n, i, strict)
    && (strict || WalkError(u, n, i, strict).Error? ==> u == t)
  }

  /** One step of the walk leaves the space as it is, or adds the one context that was missing. */
  ghost predicate Descends(t: Space, n: Path, i: nat, strict: bool, t': Space) {
    && i < |n| - 1
    && if n[..i + 1] in t then t[n[..i + 1]] == Context && t' == t else !strict && t' == t[n[..i + 1] := Context]
  }

  lemma StartOfWalk(t: Space, n: Path, strict: bool)
    requires n != []
    ensures n[..0] == [] && Walked(t, t, n, 0, strict)
  {
    assert |n[..1]| == 1;
  }

  /** A finished walk has created exactly what was missing. */
  lemma EndOfWalk(t: Space, u: Space, n: Path, strict: bool)
    requires n != [] && Walked(t, u, n, |n| - 1, strict)
    ensures WalkError(t, n, 0, strict).Ok? && u == Grown(t, n) && (strict ==> u == t)
  {
    assert n[..|n|] == n;
  }

  lemma WalkedStep(t: Space, u: Space, n: Path, i: nat, strict: bool, u': Space)
    requires PrefixClosed(u) && Walked(t, u, n, i, strict) && Descends(u, n, i, strict, u')
    ensures Walked(t, u', n, i + 1, strict)
  {
    GrownStep(t, u, n, i);
    if n[..i + 1] !in u {
      WalkBelowNew(u, n, i);
    }
  }

  /** A bound name is found, and nothing else is. */
  lemma FindBound(t: Space, n: Path)
    requires PrefixClosed(t) && n != []
    ensures n in t ==> Find(t, n) == Ok(t[n])
    ensures n !in t ==> Find(t, n).Error?
  {
    WalkSucceeds(t, n, 0, true);
    if n in t {
      forall i | 0 < i < |n| ensures n[..i] in t && t[n[..i]] == Context {
        ParentsAreContexts(t, n, i);
      }
    }
  }

  /** A link leads on to what is bound under the name it holds, but only once; anything else is found itself. */
  lemma LinkLeadsOn(t: Space, n: Path)
    requires PrefixClosed(t)
    ensures n == [] ==> FindLink(t, n) == Ok(Context)
    ensures n != [] && n !in t ==> FindLink(t, n).Error?
    ensures n in t && (t[n] == Context || !t[n].obj.LinkRef?) ==> FindLink(t, n) == Ok(t[n])
    ensures n in t && t[n].Leaf? && t[n].obj.LinkRef? ==>
      var target := Parse(t[n].obj.target);
      if target == [] then FindLink(t, n) == Ok(Context)
      else if target in t then FindLink(t, n) == Ok(t[target])
      else FindLink(t, n).Error?
  {
    if n != [] {
      FindBound(t, n);
      if n in t && t[n].Leaf? && t[n].obj.LinkRef? && Parse(t[n].obj.target) != [] {
        FindBound(t, Parse(t[n].obj.target));
      }
    }
  }

  /** The first `i` components of `n` name the first leaf above it, or in strict mode the first that is missing. */
  ghost predicate StopsAt(t: Space, n: Path, k: nat, strict: bool, i: nat) {
    && k < i < |n| && (forall j :: k < j < i ==> n[..j] in t && t[n[..j]] == Context)
    && (if n[..i] in t then t[n[..i]] != Context else strict)
  }

  /** That is what stops a walk, and what the exception says. */
  lemma {:induction false} FirstObstacle(t: Space, n: Path, k: nat, strict: bool) returns (i: nat)
    requires k < |n| && WalkError(t, n, k, strict).Error?
    ensures StopsAt(t, n, k, strict, i)
    ensures WalkError(t, n, k, strict) == Error(if n[..i] in t then NotContext(n[..i]) else NameNotFound(n[..i]))
    decreases |n| - k
  {
    i := k + 1;
    if n[..k + 1] in t && t[n[..k + 1]] == Context {
      i := FirstObstacle(t, n, k + 1, strict);
    }
  }

  /** What `rebind` does: the old binding, with everything below it, makes way for the new. */
  ghost predicate Rebinds(t: Space, n: Path, obj: Object, strict: bool, r: Result<()>, t': Space) {
    if n == [] then r == Error(NameAlreadyBound) && t' == t
    else if WalkError(t, n, 0, strict).Error? then r == WalkError(t, n, 0, strict) && t' == t
    else r == Ok(()) && t' == Dropped(Grown(t, n), n)[n := Leaf(obj)]
  }

  lemma NothingGrown(t: Space, n: Path)
    requires PrefixClosed(t) && n != []
    ensures n in t ==> Grown(t, n) == t
    ensures n !in t ==> n !in Grown(t, n) && Dropped(Grown(t, n), n) == Grown(t, n)
  {
    if n in t {
      forall p
        ensures p in Grown(t, n) <==> p in t
        ensures p in t ==> Grown(t, n)[p] == t[p]
      {
        GrownAdds(t, n, p);
        if 0 < |p| < |n| && p <= n {
          ParentsAreContexts(t, n, |p|);
        }
      }
    } else {
      forall p | p in Grown(t, n) ensures !(n <= p) {
        GrownAdds(t, n, p);
        if n <= p && p in t {
          NothingBelow(t, n, p);
        }
      }
    }
  }

  /** Nothing stops the walk to a name that is bound. */
  lemma BoundNeverBlocked(t: Space, n: Path, strict: bool)
    requires PrefixClosed(t) && n != []
    ensures n in t ==> WalkError(t, n, 0, strict).Ok?
  {
    WalkSucceeds(t, n, 0, strict);
    if n in t {
      forall i | 0 < i < |n| ensures n[..i] in t && t[n[..i]] == Context {
        ParentsAreContexts(t, n, i);
      }
    }
  }

  /** Nothing hangs below a leaf. */
  lemma LeafDropped(t: Space, n: Path)
    requires PrefixClosed(t) && n in t && t[n] != Context
    ensures forall obj :: t[n := Leaf(obj)] == Dropped(t, n)[n := Leaf(obj)]
  {
    forall p | p in t && n <= p ensures p == n {
      if p != n {
        assert p[..|n|] == n && |p| > |n|;
        ParentsAreContexts(t, p, |n|);
      }
    }
  }

  /** What is known when the table for `n` has been found, or not, and `bound` is what it holds. */
  ghost predicate Located(t: Space, n: Path, strict: bool, t': Space, e: Result<()>, bound: Option<Entry>) {
    && n != [] && WalkError(t, n, 0, strict) == e
    && (if e.Error? then t' == t
        else
          && t' == Grown(t, n) && (strict || n in t ==> t' == t)
          && (n in t' <==> n in t) && (bound == if n in t then Some(t[n]) else None))
  }

  lemma WalkLocates(t: Space, t': Space, n: Path, strict: bool)
    requires PrefixClosed(t) && n != [] && Walked(t, t', n, |n| - 1, strict)
    ensures Located(t, n, strict, t', Ok(()), if n in t' then Some(t'[n]) else None)
  {
    EndOfWalk(t, t', n, strict);
    NothingGrown(t, n);
  }

  /** Dropping what was bound, if it was a context, and putting the new leaf is a rebind. */
  lemma RebindDone(t: Space, n: Path, strict: bool, t': Space, bound: Option<Entry>, obj: Object)
    requires PrefixClosed(t) && Located(t, n, strict, t', Ok(()), bound)
    ensures Rebinds(t, n, obj, strict, Ok(()), (if bound == Some(Context) then Dropped(t', n) else t')[n := Leaf(obj)])
  {
    NothingGrown(t, n);
    if n in t && t[n] != Context {
      LeafDropped(t, n);
    }
  }

  /** After a walk that nothing stopped, everything above the name is a context. */
  lemma GrownParent(t: Space, n: Path, i: nat)
    requires PrefixClosed(t) && 0 < i < |n| && WalkError(t, n, 0, false).Ok?
    ensures n[..i] in Grown(t, n) && Grown(t, n)[n[..i]] == Context
  {
    WalkSucceeds(t, n, 0, false);
    GrownAdds(t, n, n[..i]);
  }

  lemma GrownFront(t: Space, n: Path, p: Path)
    requires PrefixClosed(t) && n != [] && n !in t && WalkError(t, n, 0, false).Ok?
    requires |p| > 1 && (p == n || p in Grown(t, n))
    ensures Front(p) != n && Front(p) in Grown(t, n) && Grown(t, n)[Front(p)] == Context
  {
    GrownAdds(t, n, p);
    GrownAdds(t, n, Front(p));
    if p in t {
      if Front(p) == n {
        NothingBelow(t, n, p);
      }
    } else {
      assert Front(p) == n[..|p| - 1];
      GrownParent(t, n, |p| - 1);
    }
  }

  lemma GrownIsClosed(t: Space, n: Path, obj: Object)
    requires PrefixClosed(t) && n != [] && n !in t && WalkError(t, n, 0, false).Ok?
    ensures PrefixClosed(Grown(t, n)[n := Leaf(obj)])
  {
    var g := Grown(t, n);
    GrownAdds(t, n, []);
    forall p | p in g[n := Leaf(obj)] && |p| > 1
      ensures Front(p) in g[n := Leaf(obj)] && g[n := Leaf(obj)][Front(p)] == Context
    {
      GrownFront(t, n, p);
    }
  }

  lemma DroppedIsClosed(t: Space, n: Path)
    requires PrefixClosed(t)
    ensures PrefixClosed(Dropped(t, n))
  {
    forall p | p in Dropped(t, n) && |p| > 1
      ensures Front(p) in Dropped(t, n)
    {
      assert Front(p) <= p;
    }
  }

  lemma GrownAddsAll(t: Space, n: Path)
    ensures forall p :: p in Grown(t, n) <==> p in t || (0 < |p| < |n| && p <= n)
    ensures forall p :: p in t ==> Grown(t, n)[p] == t[p]
    ensures forall p :: p in Grown(t, n) && p !in t ==> Grown(t, n)[p] == Context
  {
    forall p: Path
      ensures p in Grown(t, n) <==> p in t || (0 < |p| < |n| && p <= n)
      ensures p in t ==> Grown(t, n)[p] == t[p]
      ensures p in Grown(t, n) && p !in t ==> Grown(t, n)[p] == Context
    {
      GrownAdds(t, n, p);
    }
  }

  /** Every bind keeps the space closed; names other than the target and its missing parents are as they were. */
  lemma BindKeeps(t: Space, n: Path, obj: Object, strict: bool, r: Result<()>, t': Space)
    requires PrefixClosed(t) && Binds(t, n, obj, strict, r, t')
    ensures PrefixClosed(t')
    ensures forall p :: p in t ==> p in t' && t'[p] == t[p]
    ensures forall p :: p in t' && p !in t ==> r.Ok? && p <= n && t'[p] == if p == n then Leaf(obj) else Context
    ensures r.Ok? <==>
      n != [] && n !in t && forall i :: 0 < i < |n| ==> if n[..i] in t then t[n[..i]] == Context else !strict
  {
    if n != [] {
      WalkSucceeds(t, n, 0, strict);
      if r.Ok? {
        WalkSucceeds(t, n, 0, false);
        GrownIsClosed(t, n, obj);
        GrownAddsAll(t, n);
      }
    }
  }

  /** A bind that succeeds makes the name lead to the object, through contexts only; one that fails changes nothing. */
  lemma BindLeadsThere(t: Space, n: Path, obj: Object, strict: bool, r: Result<()>, t': Space)
    requires PrefixClosed(t) && Binds(t, n, obj, strict, r, t')
    ensures r.Error? ==> t' == t && (n == [] || n in t <==> r == Error(NameAlreadyBound))
    ensures r.Ok? ==> n in t' && t'[n] == Leaf(obj) && forall i :: 0 < i < |n| ==> n[..i] in t' && t'[n[..i]] == Context
  {
    if n != [] && n !in t && r.Error? {
      var i := FirstObstacle(t, n, 0, strict);
    } else if r.Ok? {
      forall i | 0 < i < |n|
        ensures n[..i] in Grown(t, n) && Grown(t, n)[n[..i]] == Context && n[..i] != n
      {
        WalkSucceeds(t, n, 0, strict);
        GrownAdds(t, n, n[..i]);
      }
    }
  }

  /** A rebind that succeeds binds the name anew, takes what was below it away, and keeps the rest. */
  lemma RebindKeeps(t: Space, n: Path, obj: Object, strict: bool, r: Result<()>, t': Space)
    requires PrefixClosed(t) && Rebinds(t, n, obj, strict, r, t')
    ensures r.Error? ==> t' == t
    ensures r.Ok? ==> n in t' && t'[n] == Leaf(obj)
    ensures forall p :: p in t && !(n <= p) ==> p in t' && t'[p] == t[p]
    ensures forall p :: p in t' && p != n ==> !(n <= p) || r.Error?
    ensures forall p :: p in t' && p !in t && p != n ==> p <= n && t'[p] == Context
    ensures r.Ok? <==> n != [] && forall i :: 0 < i < |n| ==> if n[..i] in t then t[n[..i]] == Context else !strict
  {
    if n != [] {
      WalkSucceeds(t, n, 0, strict);
      GrownAddsAll(t, n);
    }
  }

  /** What a bind adds an unbind of the same name takes away, but for the contexts created on the way. */
  lemma UnbindUndoesBind(t: Space, n: Path, obj: Object, strict: bool, t': Space, r: Result<()>, t'': Space)
    requires PrefixClosed(t) && Binds(t, n, obj, strict, Ok(()), t') && Unbinds(t', n, r, t'')
    ensures r == Ok(()) && t'' == Grown(t, n)
  {
    BindKeeps(t, n, obj, strict, Ok(()), t');
    FindBound(t', n);
    forall p | p in t' && n <= p
      ensures p == n
    {
      if p in t {
        NothingBelow(t, n, p);
      }
    }
    GrownAddsAll(t, n);
    assert Dropped(t', n) == Grown(t, n);
  }

  /** Removal keeps the space closed and drops exactly the subtree. */
  lemma UnbindKeeps(t: Space, n: Path, r: Result<()>, t': Space)
    requires PrefixClosed(t) && (Unbinds(t, n, r, t') || Destroys(t, n, r, t'))
    ensures PrefixClosed(t')
    ensures t' == if n == [] then t else Dropped(t, n)
  {
    if n != [] {
      FindBound(t, n);
      DroppedIsClosed(t, n);
      if n !in t {
        forall p | p in t ensures !(n <= p) {
          if n <= p {
            NothingBelow(t, n, p);
          }
        }
        assert Dropped(t, n) == t;
      }
    }
  }

  /** A context is bound at every proper prefix of the name, so something leads to where it would be. */
  ghost predicate LeadsTo(t: Space, n: Path) {
    forall i :: 0 < i < |n| ==> n[..i] in t && t[n[..i]] == Context
  }

  /**
    What is gone after a removal, and when it is complained of: the name is not
    bound though something leads there, or it was no context that was destroyed.
  */
  lemma RemovalMeans(t: Space, n: Path, r: Result<()>, t': Space, destroys: bool)
    requires PrefixClosed(t) && if destroys then Destroys(t, n, r, t') else Unbinds(t, n, r, t')
    ensures forall p :: p in t' <==> p in t && (n == [] || !(n <= p))
    ensures forall p :: p in t' ==> t'[p] == t[p]
    ensures r == (
      if n == [] then Error(OperationNotSupported)
      else if n in t then if destroys && t[n] != Context then Error(NotContext(n)) else Ok(())
      else if LeadsTo(t, n) then Error(NameNotFound(n))
      else Ok(()))
  {
    UnbindKeeps(t, n, r, t');
    if n != [] {
      WalkSucceeds(t, n, 0, true);
      BoundNeverBlocked(t, n, true);
    }
  }
}

/** The naming tree itself: hashtables on the heap, reached by walking. */
module TreeContexts {
  import opened Options
  import opened Names
  import opened Bindings
  import opened NameSpaces

  class Hashtable {
    ghost const path: Path          // the context it belongs to
    var entries: map<string, Slot>

    constructor (ghost path: Path)
      ensures this.path == path && entries == map[]
    {
      this.path := path;
      entries := map[];
    }
  }

  /** A binding's object: any object, or a context of this tree. */
  datatype Slot = Plain(obj: Object) | Sub(ctx: TreeContext)

  function AbsOption(s: Option<Slot>): Option<Entry> {
    if s == None then None else Some(Abs(s.value))
  }

  function AbsResult(r: Result<Slot>): Result<Entry> {
    if r.Ok? then Ok(Abs(r.value)) else Error(r.error)
  }

  function Abs(s: Slot): Entry {
    match s
    case Plain(obj) => Leaf(obj)
    case Sub(_) => Context
  }

  type Tables = map<Path, map<string, Slot>>

  /** `slots` lists what the tables hold, by full path. */
  ghost predicate Flat(tables: Tables, slots: map<Path, Slot>) {
    && (forall p {:trigger p in slots} ::
          p in slots <==> p != [] && Front(p) in tables && Last(p) in tables[Front(p)])
    && (forall p {:trigger slots[p]} :: p in slots ==> slots[p] == tables[Front(p)][Last(p)])
  }

  lemma ChildSplits(p: Path, c: string, q: Path)
    ensures p + [c] != [] && Front(p + [c]) == p && Last(p + [c]) == c
    ensures q != [] && Front(q) == p && Last(q) == c ==> q == p + [c]
  {
    if q != [] && Front(q) == p && Last(q) == c {
      assert q == Front(q) + [Last(q)];
    }
  }

  lemma FlatPut(tables: Tables, slots: map<Path, Slot>, p: Path, c: string, s: Slot)
    requires Flat(tables, slots) && p in tables
    ensures Flat(tables[p := tables[p][c := s]], slots[p + [c] := s])
  {
    var tables', slots' := tables[p := tables[p][c := s]], slots[p + [c] := s];
    forall q: Path
      ensures q in slots' <==> q != [] && Front(q) in tables' && Last(q) in tables'[Front(q)]
      ensures q in slots' ==> slots'[q] == tables'[Front(q)][Last(q)]
    {
      ChildSplits(p, c, q);
      assert q in slots <==> q != [] && Front(q) in tables && Last(q) in tables[Front(q)];
    }
  }

  ghost function SpaceOf(slots: map<Path, Slot>): Space {
    map p | p in slots :: Abs(slots[p])
  }

  lemma SpaceOfPut(slots: map<Path, Slot>, n: Path, s: Slot)
    ensures SpaceOf(slots[n := s]) == SpaceOf(slots)[n := Abs(s)]
  {
  }

  /** `nodes` are the tables of a tree with root `root`: one for every context, and no table for two of them. */
  ghost predicate Nodes(root: Hashtable, nodes: map<Path, Hashtable>, slots: map<Path, Slot>) {
    && [] in nodes && nodes[[]] == root
    && (forall p {:trigger p in slots} :: p in nodes && p != [] ==>
          p in slots && slots[p].Sub? && slots[p].ctx.bindings == nodes[p])
    && (forall p {:trigger slots[p]} :: p in slots && slots[p].Sub? ==> p in nodes)
  }

  lemma FlatNewTable(tables: Tables, slots: map<Path, Slot>, n: Path)
    requires Flat(tables, slots) && n !in tables
    ensures Flat(tables[n := map[]], slots)
  {
    var tables' := tables[n := map[]];
    forall q: Path
      ensures q in slots <==> q != [] && Front(q) in tables' && Last(q) in tables'[Front(q)]
      ensures q in slots ==> slots[q] == tables'[Front(q)][Last(q)]
    {
      assert q in slots <==> q != [] && Front(q) in tables && Last(q) in tables[Front(q)];
    }
  }

  lemma NodesPut(root: Hashtable, nodes: map<Path, Hashtable>, slots: map<Path, Slot>, n: Path, ctx: TreeContext)
    requires Nodes(root, nodes, slots) && n != [] && n !in slots
    ensures n !in nodes && Nodes(root, nodes[n := ctx.bindings], slots[n := Sub(ctx)])
  {
  }

  lemma NodesPutLeaf(root: Hashtable, nodes: map<Path, Hashtable>, slots: map<Path, Slot>, n: Path, obj: Object)
    requires Nodes(root, nodes, slots) && n != [] && (n in slots ==> slots[n].Plain?)
    ensures Nodes(root, nodes, slots[n := Plain(obj)])
  {
    assert n in nodes ==> n in slots;
  }

  /** `m` without `n` and everything below it. */
  ghost function Without<V>(m: map<Path, V>, n: Path): map<Path, V> {
    map p | p in m && !(n <= p) :: m[p]
  }

  lemma FlatDrop(tables: Tables, slots: map<Path, Slot>, p: Path, c: string)
    requires Flat(tables, slots) && p in tables
    ensures Flat(Without(tables[p := tables[p] - {c}], p + [c]), Without(slots, p + [c]))
  {
    var n := p + [c];
    var tables', slots' := Without(tables[p := tables[p] - {c}], n), Without(slots, n);
    assert p in tables' && tables'[p] == tables[p] - {c};
    forall q: Path
      ensures q in slots' <==> q != [] && Front(q) in tables' && Last(q) in tables'[Front(q)]
      ensures q in slots' ==> slots'[q] == tables'[Front(q)][Last(q)]
    {
      ChildSplits(p, c, q);
      assert q in slots <==> q != [] && Front(q) in tables && Last(q) in tables[Front(q)];
      if q != [] && n <= q {
        assert q == n || n <= Front(q);
      }
    }
  }

  lemma NodesDrop(root: Hashtable, nodes: map<Path, Hashtable>, slots: map<Path, Slot>, n: Path)
    requires Nodes(root, nodes, slots) && n != []
    ensures Nodes(root, Without(nodes, n), Without(slots, n))
  {
    forall p | p in Without(nodes, n) && p != []
      ensures p in Without(slots, n) && slots[p].Sub? && slots[p].ctx.bindings == nodes[p]
    {
      assert p in slots;
    }
  }

  lemma SpaceOfDrop(slots: map<Path, Slot>, n: Path)
    ensures SpaceOf(Without(slots, n)) == Dropped(SpaceOf(slots), n)
  {
  }

  class TreeContext {
    const name: Path
    const bindings: Hashtable
    const strictMode: bool
    ghost var nodes: map<Path, Hashtable>   // the table of every context in the tree, the root at []
    ghost var tables: Tables                // what every table holds
    ghost var slots: map<Path, Slot>        // the same, by full path
    ghost var space: Space                  // what is bound
    ghost var Repr: set<Hashtable>          // every table the tree has ever had

    constructor (name: Path, bindings: Hashtable, strictMode: bool)
      ensures this.name == name && this.bindings == bindings && this.strictMode == strictMode
      ensures nodes == map[[] := bindings] && tables == map[[] := map[]] && slots == map[] && space == map[]
      ensures Repr == {bindings}
    {
      this.name := name;
      this.bindings := bindings;
      this.strictMode := strictMode;
      nodes := map[[] := bindings];
      tables := map[[] := map[]];
      slots := map[];
      space := map[];
      Repr := {bindings};
    }

    /** `new TreeContext(strictMode)`. */
    static method Root(strictMode: bool) returns (root: TreeContext)
      ensures fresh(root) && root.Valid() && fresh(root.Repr)
      ensures root.space == map[] && root.strictMode == strictMode
    {
      var table := new Hashtable([]);
      root := new TreeContext([], table, strictMode);
    }

    ghost predicate Valid()
      reads this, Repr
    {
      Mirrors() && Nodes(bindings, nodes, slots) && Flat(tables, slots) && space == SpaceOf(slots)
    }

    /** `tables` is what the tables of the tree hold; every table is in one place only. */
    ghost predicate Mirrors()
      reads this, Repr
    {
      && (forall p :: p in tables <==> p in nodes)
      && (forall p {:trigger nodes[p]} :: p in nodes ==> nodes[p] in Repr)
      && (forall p {:trigger tables[p]} :: p in tables ==> nodes[p].entries == tables[p] && nodes[p].path == p)
    }

    method SetTable(ghost p: Path, table: Hashtable, entries: map<string, Slot>)
      requires Mirrors() && p in nodes && nodes[p] == table
      modifies this`tables, table
      ensures Mirrors() && tables == old(tables)[p := entries] && table.entries == entries
    {
      table.entries := entries;
      tables := tables[p := entries];
    }

    ghost method AddNode(n: Path, table: Hashtable)
      requires Mirrors() && n !in nodes && table.path == n && table.entries == map[]
      modifies this`nodes, this`tables, this`Repr
      ensures Mirrors() && Repr == old(Repr) + {table} && tables == old(tables)[n := map[]] && nodes == old(nodes)[n := table]
    {
      nodes := nodes[n := table];
      Repr := Repr + {table};
      tables := tables[n := map[]];
    }

    lemma SpaceIsClosed()
      requires Valid()
      ensures PrefixClosed(space)
    {
      forall n | n in slots && |n| > 1
        ensures Front(n) in space && space[Front(n)] == Context
      {
        assert Front(n) in tables && Front(n) in nodes;
      }
    }

    ghost method ForgetNodes(n: Path)
      requires Mirrors()
      modifies this`nodes, this`tables
      ensures Mirrors() && tables == Without(old(tables), n) && nodes == Without(old(nodes), n)
    {
      nodes := Without(nodes, n);
      tables := Without(tables, n);
    }

    /** `bindings.put` of a new, empty context under `c`. */
    method PutContext(ghost p: Path, table: Hashtable, c: string, ctx: TreeContext)
      requires Valid() && p in nodes && nodes[p] == table && p + [c] !in slots
      requires ctx.bindings.entries == map[] && ctx.bindings.path == p + [c] && ctx.bindings != table
      modifies this, table
      ensures Valid() && Repr == old(Repr) + {ctx.bindings}
      ensures nodes == old(nodes)[p + [c] := ctx.bindings] && space == old(space)[p + [c] := Context]
    {
      hide Nodes, Flat, SpaceOf;
      ghost var n := p + [c];
      NodesPut(bindings, nodes, slots, n, ctx);
      FlatPut(tables, slots, p, c, Sub(ctx));
      SpaceOfPut(slots, n, Sub(ctx));
      SetTable(p, table, table.entries[c := Sub(ctx)]);
      slots := slots[n := Sub(ctx)];
      space := space[n := Context];
      FlatNewTable(tables, slots, n);
      AddNode(n, ctx.bindings);
    }

    method PutLeaf(ghost p: Path, table: Hashtable, c: string, obj: Object)
      requires Valid() && p in nodes && nodes[p] == table && (p + [c] in slots ==> slots[p + [c]].Plain?)
      modifies this`tables, this`slots, this`space, table
      ensures Valid()
      ensures space == old(space)[p + [c] := Leaf(obj)]
    {
      hide Nodes, Flat, SpaceOf;
      NodesPutLeaf(bindings, nodes, slots, p + [c], obj);
      FlatPut(tables, slots, p, c, Plain(obj));
      SpaceOfPut(slots, p + [c], Plain(obj));
      SetTable(p, table, table.entries[c := Plain(obj)]);
      slots := slots[p + [c] := Plain(obj)];
      space := space[p + [c] := Leaf(obj)];
    }

    /** `bindings.remove(c)`: a removed context takes everything below it along. */
    method RemoveEntry(ghost p: Path, table: Hashtable, c: string)
      requires Valid() && p in nodes && nodes[p] == table
      modifies this`nodes, this`tables, this`slots, this`space, table
      ensures Valid() && nodes == Without(old(nodes), p + [c])
      ensures space == Dropped(old(space), p + [c])
    {
      ghost var n := p + [c];
      FlatDrop(tables, slots, p, c);
      NodesDrop(bindings, nodes, slots, n);
      SpaceOfDrop(slots, n);
      SetTable(p, table, table.entries - {c});
      slots := Without(slots, n);
      space := Dropped(space, n);
      ForgetNodes(n);
    }

    /** What a table holds is what the space says. */
    lemma TableHolds(p: Path, c: string)
      requires Valid() && p in nodes
      ensures c in nodes[p].entries <==> p + [c] in slots
      ensures c in nodes[p].entries ==> slots[p + [c]] == nodes[p].entries[c]
      ensures c in nodes[p].entries && nodes[p].entries[c].Sub? ==>
        p + [c] in nodes && nodes[p + [c]] == nodes[p].entries[c].ctx.bindings
    {
      ChildSplits(p, c, []);
      assert nodes[p].entries == tables[p];
      assert p + [c] in slots <==> c in tables[p];
    }

    /** One step of the walk: into the context at the `i`th component, created if need be. */
    method Descend(name: Path, i: nat, bindings: Hashtable, strictMode: bool) returns (r: Result<Hashtable>)
      requires Valid() && i < |name| - 1
      requires name[..i] in nodes && nodes[name[..i]] == bindings
      modifies this, bindings
      ensures Valid() && forall h :: h in Repr ==> h in old(Repr) || (!strictMode && fresh(h))
      ensures r.Error? ==> space == old(space) && WalkError(space, name, i, strictMode) == Error(r.error)
      ensures r.Ok? ==> Descends(old(space), name, i, strictMode, space)
      ensures r.Ok? ==> name[..i + 1] in nodes && nodes[name[..i + 1]] == r.value
    {
      var slot := Get(name[..i], bindings, name[i], name[..i + 1]);
      if slot == None {
        if strictMode {
          return Error(NameNotFound(name[..i + 1]));
        }
        var created := Create(name[..i], bindings, name[i], name[..i + 1]);
        r := Ok(created);
      } else if slot.value.Plain? {
        r := Error(NotContext(name[..i + 1]));
      } else {
        r := Ok(slot.value.ctx.bindings);
      }
    }

    /** `bindings.get(c)`. */
    method Get(ghost p: Path, bindings: Hashtable, c: string, ghost n: Path) returns (slot: Option<Slot>)
      requires Valid() && p in nodes && nodes[p] == bindings && n == p + [c]
      ensures slot == None <==> n !in space
      ensures slot.Some? ==> space[n] == Abs(slot.value)
      ensures slot.Some? && slot.value.Sub? ==> n in nodes && nodes[n] == slot.value.ctx.bindings
    {
      TableHolds(p, c);
      slot := if c in bindings.entries then Some(bindings.entries[c]) else None;
    }

    /** A new, empty context under `c`; only a walk that is not strict creates one. */
    method Create(ghost p: Path, bindings: Hashtable, c: string, n: Path) returns (created: Hashtable)
      requires Valid() && p in nodes && nodes[p] == bindings && n == p + [c] && n !in space
      modifies this, bindings
      ensures Valid() && fresh(created) && Repr == old(Repr) + {created}
      ensures nodes == old(nodes)[n := created] && space == old(space)[n := Context]
    {
      created := new Hashtable(n);
      var ctx := new TreeContext(n, created, false);
      PutContext(p, bindings, c, ctx);
    }

    /** One turn of the walk, seen from the space `t` in which it started. */
    method WalkOn(ghost t: Space, name: Path, i: nat, bindings: Hashtable, strictMode: bool) returns (r: Result<Hashtable>)
      requires Valid() && Walked(t, space, name, i, strictMode) && i < |name| - 1
      requires name[..i] in nodes && nodes[name[..i]] == bindings
      modifies this, bindings
      ensures Valid() && forall h :: h in Repr ==> h in old(Repr) || (!strictMode && fresh(h))
      ensures r.Error? ==> space == t && WalkError(t, name, 0, strictMode) == Error(r.error)
      ensures r.Ok? ==> Walked(t, space, name, i + 1, strictMode)
      ensures r.Ok? ==> name[..i + 1] in nodes && nodes[name[..i + 1]] == r.value
    {
      ghost var before := space;
      SpaceIsClosed();
      r := Descend(name, i, bindings, strictMode);
      if r.Ok? {
        WalkedStep(t, before, name, i, strictMode, space);
      }
    }

    /**
      The walk to the table that holds the last component of a name. Out of
      strict mode it creates the contexts that are missing, and a walk that
      fails has created none.
    */
    method GetParentBindings(name: Path, strictMode: bool) returns (r: Result<Hashtable>)
      requires Valid() && name != []
      modifies this, Repr
      ensures Valid() && forall h :: h in Repr ==> h in old(Repr) || (!strictMode && fresh(h))
      ensures r.Error? ==> space == old(space) && WalkError(old(space), name, 0, strictMode) == Error(r.error)
      ensures r.Ok? ==> Walked(old(space), space, name, |name| - 1, strictMode)
      ensures r.Ok? ==> Front(name) in nodes && nodes[Front(name)] == r.value
    {
      var bindings := this.bindings;
      StartOfWalk(space, name, strictMode);
      for i := 0 to |name| - 1
        invariant Valid() && forall h :: h in Repr ==> h in old(Repr) || (!strictMode && fresh(h))
        invariant name[..i] in nodes && nodes[name[..i]] == bindings
        invariant Walked(old(space), space, name, i, strictMode)
      {
        r := WalkOn(old(space), name, i, bindings, strictMode);
        if r.Error? {
          return;
        }
        bindings := r.value;
      }
      r := Ok(bindings);
    }

    /** The table that holds `name`, and what it holds there. */
    method Locate(name: Path, strictMode: bool) returns (r: Result<Hashtable>, slot: Option<Slot>)
      requires Valid() && name != []
      modifies this, Repr
      ensures Valid() && forall h :: h in Repr ==> h in old(Repr) || (!strictMode && fresh(h))
      ensures Located(old(space), name, strictMode, space, if r.Ok? then Ok(()) else Error(r.error), AbsOption(slot))
      ensures r.Ok? ==> Holds(name, r.value)
      ensures slot.Some? && slot.value.Sub? ==> name in nodes && nodes[name] == slot.value.ctx.bindings
    {
      slot := None;
      SpaceIsClosed();
      r := GetParentBindings(name, strictMode);
      if r.Ok? {
        WalkLocates(old(space), space, name, strictMode);
        assert name == Front(name) + [Last(name)];
        slot := Get(Front(name), r.value, Last(name), name);
      }
    }

    /** `table` is the one that holds the last component of `name`. */
    ghost predicate Holds(name: Path, table: Hashtable)
      reads this
    {
      name != [] && Front(name) in nodes && nodes[Front(name)] == table && table in Repr
    }

    method Lookup(name: Path) returns (r: Result<Slot>)
      requires Valid()
      modifies this, Repr
      ensures Valid() && Repr <= old(Repr) && space == old(space)
      ensures Find(space, name) == AbsResult(r)
    {
      if name == [] {
        var ctx := new TreeContext(name, bindings, strictMode);
        return Ok(Sub(ctx));
      }
      var parent, slot := Locate(name, true);
      if parent.Error? {
        return Error(parent.error);
      }
      r := if slot == None then Error(NameNotFound(name)) else Ok(slot.value);
    }

    /** `lookupLink`: follows one link. */
    method LookupLink(name: Path) returns (r: Result<Slot>)
      requires Valid()
      modifies this, Repr
      ensures Valid() && Repr <= old(Repr) && space == old(space)
      ensures FindLink(space, name) == AbsResult(r)
    {
      r := Lookup(name);
      if r.Ok? && r.value.Plain? && r.value.obj.LinkRef? {
        r := Lookup(Parse(r.value.obj.target));
      }
    }

    method Bind(name: Path, obj: Object) returns (r: Result<()>)
      requires Valid()
      modifies this, Repr
      ensures Valid() && forall h :: h in Repr ==> h in old(Repr) || fresh(h)
      ensures Binds(old(space), name, obj, strictMode, r, space)
    {
      if name == [] {
        return Error(NameAlreadyBound);
      }
      SpaceIsClosed();
      BoundNeverBlocked(space, name, strictMode);
      var parent, slot := Locate(name, strictMode);
      if parent.Error? {
        return Error(parent.error);
      }
      if slot.Some? {
        return Error(NameAlreadyBound);
      }
      PutHere(name, parent.value, obj);
      r := Ok(());
    }

    /** `bindings.put` of a leaf where nothing, or a leaf, is bound. */
    method PutHere(name: Path, table: Hashtable, obj: Object)
      requires Valid() && Holds(name, table) && (name in space ==> space[name] != Context)
      modifies this`nodes, this`tables, this`slots, this`space, table
      ensures Valid() && space == old(space)[name := Leaf(obj)]
    {
      assert name == Front(name) + [Last(name)];
      assert name in slots <==> name in space;
      PutLeaf(Front(name), table, Last(name), obj);
    }

    /** `bindings.remove` of a name. */
    method RemoveHere(name: Path, table: Hashtable)
      requires Valid() && Holds(name, table)
      modifies this`nodes, this`tables, this`slots, this`space, table
      ensures Valid() && space == Dropped(old(space), name) && nodes == Without(old(nodes), name)
    {
      assert name == Front(name) + [Last(name)];
      RemoveEntry(Front(name), table, Last(name));
    }

    /** `rebind`: replaces what is bound, a whole subtree if it is a context. */
    method Rebind(name: Path, obj: Object) returns (r: Result<()>)
      requires Valid()
      modifies this, Repr
      ensures Valid() && forall h :: h in Repr ==> h in old(Repr) || fresh(h)
      ensures Rebinds(old(space), name, obj, strictMode, r, space)
    {
      if name == [] {
        return Error(NameAlreadyBound);
      }
      SpaceIsClosed();
      var parent, slot := Locate(name, strictMode);
      if parent.Error? {
        return Error(parent.error);
      }
      RebindDone(old(space), name, strictMode, space, AbsOption(slot), obj);
      if slot.Some? && slot.value.Sub? {
        RemoveHere(name, parent.value);
      }
      PutHere(name, parent.value, obj);
      r := Ok(());
    }

    /** `unbind`: a name whose parent is missing is not an error. */
    method Unbind(name: Path) returns (r: Result<()>)
      requires Valid()
      modifies this, Repr
      ensures Valid() && Repr <= old(Repr)
      ensures Unbinds(old(space), name, r, space)
    {
      if name == [] {
        return Error(OperationNotSupported);
      }
      var parent, slot := Locate(name, true);
      if parent.Error? {
        return Ok(());
      }
      if slot == None {
        return Error(NameNotFound(name));
      }
      RemoveHere(name, parent.value);
      r := Ok(());
    }

    /** `destroySubcontext`: also empties the table it cut off. */
    method DestroySubcontext(name: Path) returns (r: Result<()>)
      requires Valid()
      modifies this, Repr
      ensures Valid() && Repr <= old(Repr)
      ensures Destroys(old(space), name, r, space)
    {
      hide Nodes, Flat, SpaceOf, Dropped, WalkError;
      if name == [] {
        return Error(OperationNotSupported);
      }
      var parent, slot := Locate(name, true);
      if parent.Error? {
        return Ok(());
      }
      if slot == None {
        return Error(NameNotFound(name));
      }
      r := CutOff(name, parent.value, slot.value);
    }

    /** Removes a binding; a context is emptied as well, anything else is an error. */
    method CutOff(name: Path, table: Hashtable, slot: Slot) returns (r: Result<()>)
      requires Valid() && Holds(name, table)
      requires slot.Sub? ==> name in nodes && nodes[name] == slot.ctx.bindings
      modifies this`nodes, this`tables, this`slots, this`space, Repr
      ensures Valid() && space == Dropped(old(space), name)
      ensures r == if slot.Plain? then Error(NotContext(name)) else Ok(())
      ensures slot.Sub? ==> slot.ctx.bindings.entries == map[]
    {
      if slot.Sub? {
        NodeInPlace(name);
      }
      RemoveHere(name, table);
      if slot.Plain? {
        return Error(NotContext(name));
      }
      ClearDetached(slot.ctx.bindings);
      r := Ok(());
    }

    lemma NodeInPlace(p: Path)
      requires Valid() && p in nodes
      ensures nodes[p].path == p && nodes[p] in Repr
    {
      assert p in tables && tables[p] == tables[p];
    }

    /** `bindings.clear()` on a table that is no longer part of the tree. */
    method ClearDetached(table: Hashtable)
      requires Valid() && table.path !in nodes
      modifies table
      ensures Valid() && table.entries == map[]
    {
      table.entries := map[];
    }
  }
}
