/**
  Values checked against definitions that may refer to each other, with a call
  stack that cuts a check off when it meets a model for the third time.
*/
module ObjectModels {
  import opened Sequences

  type ModelId = nat

  /** A value: one of the two that `== null`, or any other. */
  datatype Value = UndefinedValue | NullValue | Node(id: nat)

  /** A definition; leaves are what neither is an array nor leads to other definitions. */
  datatype Def =
    | Model(id: ModelId)
    | Plain(fields: seq<Entry>)
    | Union(parts: seq<Def>)
    | Undefined
    | Null
    | Leaf(leaf: nat)

  datatype Entry = Entry(key: string, def: Def)

  /** A model, created over an object or over any definition. */
  datatype ModelDesc = ModelDesc(isObjectModel: bool, definition: Def)

  /**
    The models definitions refer to, and how values answer: what `typeof` says,
    what a property holds, and whether a value matches a part of a union that is
    neither a model nor a plain object.
  */
  datatype World = World(models: map<ModelId, ModelDesc>, objectLike: nat -> bool, property: (nat, string) -> Value, matches: (nat, Def) -> bool) {

    predicate IsObject(v: Value) {
      v.NullValue? || (v.Node? && objectLike(v.id))
    }

    /** `obj != null ? obj[key] : undefined`. */
    function Get(v: Value, key: string): Value {
      if v.Node? then property(v.id, key) else UndefinedValue
    }
  }

  datatype Error = Error(path: string, expected: Def, received: Value)

  /** `parseDefinition` of what is not a plain object. */
  function Parts(def: Def): (parts: seq<Def>)
    requires !def.Plain? && !def.Model?
    ensures forall p :: p in parts && (p.Plain? || p.Model?) ==> def.Union? && p in def.parts
  {
    if !def.Union? then [def]
    else if |def.parts| == 1 then def.parts + [Undefined, Null]
    else def.parts
  }

  function Dotted(path: string, key: string): string {
    if path != "" then path + "." + key else key
  }

  /** `===` between a value that `== null` and a part. */
  predicate SameNothing(v: Value, part: Def) {
    (v.UndefinedValue? && part.Undefined?) || (v.NullValue? && part.Null?)
  }

  // ------------------------------------------------------------ specification

  /** Models not met yet on the way here, and models met less than twice. */
  ghost function Unmet(w: World, stack: seq<ModelId>): set<ModelId> {
    set m | m in w.models && m !in stack
  }

  ghost function MetOnce(w: World, stack: seq<ModelId>): set<ModelId> {
    set m | m in w.models && multiset(stack)[m] < 2
  }

  lemma Pushed(w: World, stack: seq<ModelId>, m: ModelId)
    requires m in w.models && multiset(stack)[m] < 2
    ensures Unmet(w, stack + [m]) <= Unmet(w, stack) && MetOnce(w, stack + [m]) <= MetOnce(w, stack)
    ensures m !in stack ==> m !in Unmet(w, stack + [m]) && m in Unmet(w, stack)
    ensures m in stack ==> m !in MetOnce(w, stack + [m]) && m in MetOnce(w, stack)
  {
  }

  function Flat<T>(ss: seq<seq<T>>): seq<T> {
    if ss == [] then [] else Flat(ss[..|ss| - 1]) + ss[|ss| - 1]
  }

  lemma {:induction false} FlatIsEmpty<T>(ss: seq<seq<T>>)
    ensures Flat(ss) == [] <==> forall i :: 0 <= i < |ss| ==> ss[i] == []
  {
    if ss != [] {
      var k := |ss| - 1;
      FlatIsEmpty(ss[..k]);
      assert |Flat(ss)| == |Flat(ss[..k])| + |ss[k]|;
      assert forall i :: 0 <= i < k ==> ss[..k][i] == ss[i];
    }
  }

  function Width(def: Def): nat {
    if def.Plain? || def.Model? then 1 else |Parts(def)| + 1
  }

  /** The errors a check adds; every model mentioned is one of the world's. */
  ghost function Errors(w: World, obj: Value, def: Def, path: string, stack: seq<ModelId>): seq<Error>
    decreases Unmet(w, stack), MetOnce(w, stack), def, Width(def) + 1
  {
    if def.Model? then
      if multiset(stack)[def.id] >= 2 || def.id !in w.models then []
      else if w.models[def.id].isObjectModel && !w.IsObject(obj) then [Error(path, def, obj)]
      else
        Pushed(w, stack, def.id);
        Errors(w, obj, w.models[def.id].definition, path, stack + [def.id])
    else if def.Plain? then Flat(FieldErrors(w, obj, def, path, stack))
    else if SomePartTakes(w, obj, def, |Parts(def)|, path, stack) then []
    else [Error(path, def, obj)]
  }

  /** The errors of each field. */
  ghost function FieldErrors(w: World, obj: Value, def: Def, path: string, stack: seq<ModelId>): (ss: seq<seq<Error>>)
    requires def.Plain?
    ensures |ss| == |def.fields|
    decreases Unmet(w, stack), MetOnce(w, stack), def, 1
  {
    seq(|def.fields|, i requires 0 <= i < |def.fields| => FieldError(w, obj, def, i, path, stack))
  }

  ghost function FieldError(w: World, obj: Value, def: Def, i: nat, path: string, stack: seq<ModelId>): seq<Error>
    requires def.Plain? && i < |def.fields|
    decreases Unmet(w, stack), MetOnce(w, stack), def, 0
  {
    var f := def.fields[i];
    Errors(w, w.Get(obj, f.key), f.def, Dotted(path, f.key), stack)
  }

  /** One of the first `n` parts takes the value. */
  ghost predicate SomePartTakes(w: World, obj: Value, def: Def, n: nat, path: string, stack: seq<ModelId>)
    requires !def.Plain? && !def.Model? && n <= |Parts(def)|
    decreases Unmet(w, stack), MetOnce(w, stack), def, n
  {
    n > 0 && (SomePartTakes(w, obj, def, n - 1, path, stack) || PartTakes(w, obj, def, n - 1, path, stack))
  }

  ghost predicate PartTakes(w: World, obj: Value, def: Def, i: nat, path: string, stack: seq<ModelId>)
    requires !def.Plain? && !def.Model? && i < |Parts(def)|
    decreases Unmet(w, stack), MetOnce(w, stack), def, 0
  {
    var part := Parts(def)[i];
    if !obj.Node? then SameNothing(obj, part)
    else if part.Plain? || part.Model? then Errors(w, obj, part, path, stack) == []
    else w.matches(obj.id, part)
  }

  ghost predicate FieldIsRight(w: World, obj: Value, def: Def, i: nat, path: string, stack: seq<ModelId>)
    requires def.Plain? && i < |def.fields|
  {
    FieldError(w, obj, def, i, path, stack) == []
  }

  ghost predicate PartIsRight(w: World, obj: Value, def: Def, i: nat, path: string, stack: seq<ModelId>)
    requires !def.Plain? && !def.Model? && i < |Parts(def)|
  {
    PartTakes(w, obj, def, i, path, stack)
  }

  lemma NoErrorsInFields(w: World, obj: Value, def: Def, path: string, stack: seq<ModelId>)
    requires def.Plain?
    ensures Errors(w, obj, def, path, stack) == [] <==> forall i :: 0 <= i < |def.fields| ==> FieldIsRight(w, obj, def, i, path, stack)
  {
    var ss := FieldErrors(w, obj, def, path, stack);
    FlatIsEmpty(ss);
    assert Errors(w, obj, def, path, stack) == Flat(ss);
    assert forall i :: 0 <= i < |def.fields| ==> (ss[i] == [] <==> FieldIsRight(w, obj, def, i, path, stack));
  }

  lemma {:induction false} SomePartTakesIff(w: World, obj: Value, def: Def, n: nat, path: string, stack: seq<ModelId>)
    requires !def.Plain? && !def.Model? && n <= |Parts(def)|
    ensures SomePartTakes(w, obj, def, n, path, stack) <==> exists i :: 0 <= i < n && PartIsRight(w, obj, def, i, path, stack)
    decreases n
  {
    if n > 0 {
      SomePartTakesIff(w, obj, def, n - 1, path, stack);
      assert SomePartTakes(w, obj, def, n, path, stack) <==>
        SomePartTakes(w, obj, def, n - 1, path, stack) || PartIsRight(w, obj, def, n - 1, path, stack);
    }
  }

  lemma NoErrorsInParts(w: World, obj: Value, def: Def, path: string, stack: seq<ModelId>)
    requires !def.Plain? && !def.Model?
    ensures Errors(w, obj, def, path, stack) == [] <==> exists i :: 0 <= i < |Parts(def)| && PartIsRight(w, obj, def, i, path, stack)
  {
    SomePartTakesIff(w, obj, def, |Parts(def)|, path, stack);
  }

  // --------------------------------------------------------------- the checker

  class ErrorStack {
    var errors: seq<Error>

    constructor ()
      ensures errors == []
    {
      errors := [];
    }

    method Push(e: Error)
      modifies this
      ensures errors == old(errors) + [e]
    {
      errors := errors + [e];
    }
  }

  ghost predicate AtMostTwice(stack: seq<ModelId>) {
    forall m :: multiset(stack)[m] <= 2
  }

  method Count(stack: seq<ModelId>, m: ModelId) returns (n: nat)
    ensures n == multiset(stack)[m]
  {
    n := 0;
    for i := 0 to |stack|
      invariant n == multiset(stack[..i])[m]
    {
      assert stack[..i + 1] == stack[..i] + [stack[i]];
      if stack[i] == m {
        n := n + 1;
      }
    }
    assert stack[..|stack|] == stack;
  }

  /**
    `checkDefinition`: ends on any values and models, cyclic ones included,
    because no model is on the call stack more than twice.
  */
  method CheckDefinition(w: World, obj: Value, def: Def, path: string, callStack: seq<ModelId>, errorStack: ErrorStack)
    requires AtMostTwice(callStack)
    modifies errorStack
    ensures errorStack.errors == old(errorStack.errors) + Errors(w, obj, def, path, callStack)
    decreases Unmet(w, callStack), MetOnce(w, callStack), def, Width(def) + 1
  {
    if def.Model? {
      var found := Count(callStack, def.id);
      if found >= 2 || def.id !in w.models {
        return;
      }
      var model := w.models[def.id];
      if model.isObjectModel && !w.IsObject(obj) {
        errorStack.Push(Error(path, def, obj));
      } else {
        Pushed(w, callStack, def.id);
        CheckDefinition(w, obj, model.definition, path, callStack + [def.id], errorStack);
      }
    } else if def.Plain? {
      ghost var ss := FieldErrors(w, obj, def, path, callStack);
      for i := 0 to |def.fields|
        invariant errorStack.errors == old(errorStack.errors) + Flat(ss[..i])
      {
        CheckField(w, obj, def, i, path, callStack, errorStack);
        assert ss[..i + 1][..i] == ss[..i];
        Associative(old(errorStack.errors), Flat(ss[..i]), ss[i]);
      }
      assert ss[..|def.fields|] == ss;
    } else {
      var ok := CheckParts(w, obj, def, path, callStack);
      if !ok {
        errorStack.Push(Error(path, def, obj));
      }
    }
  }

  method CheckField(w: World, obj: Value, def: Def, i: nat, path: string, callStack: seq<ModelId>, errorStack: ErrorStack)
    requires def.Plain? && i < |def.fields| && AtMostTwice(callStack)
    modifies errorStack
    ensures errorStack.errors == old(errorStack.errors) + FieldError(w, obj, def, i, path, callStack)
    decreases Unmet(w, callStack), MetOnce(w, callStack), def, 0
  {
    var val := w.Get(obj, def.fields[i].key);
    CheckDefinition(w, val, def.fields[i].def, Dotted(path, def.fields[i].key), callStack, errorStack);
  }

  /** The loop over the parts ends at the first that takes the value. */
  method CheckParts(w: World, obj: Value, def: Def, path: string, callStack: seq<ModelId>) returns (ok: bool)
    requires !def.Plain? && !def.Model? && AtMostTwice(callStack)
    ensures ok <==> SomePartTakes(w, obj, def, |Parts(def)|, path, callStack)
    decreases Unmet(w, callStack), MetOnce(w, callStack), def, 1
  {
    var pdef := Parts(def);
    SomePartTakesIff(w, obj, def, |pdef|, path, callStack);
    for i := 0 to |pdef|
      invariant forall j :: 0 <= j < i ==> !PartIsRight(w, obj, def, j, path, callStack)
    {
      ok := CheckDefinitionPart(w, obj, def, i, path, callStack);
      if ok {
        return;
      }
    }
    ok := false;
  }

  /** `checkDefinitionPart`, of part `i` of a definition. */
  method CheckDefinitionPart(w: World, obj: Value, def: Def, i: nat, path: string, callStack: seq<ModelId>) returns (ok: bool)
    requires !def.Plain? && !def.Model? && i < |Parts(def)| && AtMostTwice(callStack)
    ensures ok <==> PartIsRight(w, obj, def, i, path, callStack)
    decreases Unmet(w, callStack), MetOnce(w, callStack), def, 0
  {
    var part := Parts(def)[i];
    if !obj.Node? {
      return SameNothing(obj, part);
    }
    if part.Plain? || part.Model? {
      var errorStack := new ErrorStack();
      CheckDefinition(w, obj, part, path, callStack, errorStack);
      return |errorStack.errors| == 0;
    }
    return w.matches(obj.id, part);
  }

  // --------------------------------------------------- the rules without cut-off

  type Relation = iset<(Value, ModelId)>

  /** The rules, taking `r` to say which values belong to which models. */
  ghost predicate AcceptedBy(w: World, r: Relation, obj: Value, def: Def)
    decreases def
  {
    if def.Model? then def.id in w.models ==> (obj, def.id) in r
    else if def.Plain? then
      forall i :: 0 <= i < |def.fields| ==> FieldAcceptedBy(w, r, obj, def, i)
    else
      exists i :: 0 <= i < |Parts(def)| && PartAcceptedBy(w, r, obj, def, i)
  }

  ghost predicate FieldAcceptedBy(w: World, r: Relation, obj: Value, def: Def, i: nat)
    requires def.Plain? && i < |def.fields|
    decreases def, 0
  {
    AcceptedBy(w, r, w.Get(obj, def.fields[i].key), def.fields[i].def)
  }

  ghost predicate PartAcceptedBy(w: World, r: Relation, obj: Value, def: Def, i: nat)
    requires !def.Plain? && !def.Model? && i < |Parts(def)|
    decreases def, 0
  {
    var part := Parts(def)[i];
    if !obj.Node? then SameNothing(obj, part)
    else if part.Plain? || part.Model? then AcceptedBy(w, r, obj, part)
    else w.matches(obj.id, part)
  }

  /** Whatever `r` puts in a model is accepted by the model's definition. */
  ghost predicate Consistent(w: World, r: Relation) {
    forall v, m :: (v, m) in r && m in w.models ==>
      (w.models[m].isObjectModel ==> w.IsObject(v)) && AcceptedBy(w, r, v, w.models[m].definition)
  }

  /** Accepted by the greatest relation the rules allow. */
  ghost predicate Accepted(w: World, obj: Value, def: Def) {
    exists r: Relation :: Consistent(w, r) && AcceptedBy(w, r, obj, def)
  }

  lemma {:induction false} AcceptedHasNoErrors(w: World, r: Relation, obj: Value, def: Def, path: string, stack: seq<ModelId>)
    requires Consistent(w, r) && AcceptedBy(w, r, obj, def)
    ensures Errors(w, obj, def, path, stack) == []
    decreases Unmet(w, stack), MetOnce(w, stack), def
  {
    if def.Model? {
      if multiset(stack)[def.id] < 2 && def.id in w.models {
        Pushed(w, stack, def.id);
        assert (obj, def.id) in r;
        AcceptedHasNoErrors(w, r, obj, w.models[def.id].definition, path, stack + [def.id]);
      }
    } else if def.Plain? {
      forall i | 0 <= i < |def.fields|
        ensures FieldIsRight(w, obj, def, i, path, stack)
      {
        var f := def.fields[i];
        assert FieldAcceptedBy(w, r, obj, def, i);
        AcceptedHasNoErrors(w, r, w.Get(obj, f.key), f.def, Dotted(path, f.key), stack);
      }
      NoErrorsInFields(w, obj, def, path, stack);
    } else {
      var i :| 0 <= i < |Parts(def)| && PartAcceptedBy(w, r, obj, def, i);
      var part := Parts(def)[i];
      if obj.Node? && (part.Plain? || part.Model?) {
        AcceptedHasNoErrors(w, r, obj, part, path, stack);
      }
      assert PartIsRight(w, obj, def, i, path, stack);
      NoErrorsInParts(w, obj, def, path, stack);
    }
  }

  /** The cut-off never rejects what the rules accept. */
  lemma CutOffNeverRejects(w: World, obj: Value, def: Def, path: string, stack: seq<ModelId>)
    requires Accepted(w, obj, def)
    ensures Errors(w, obj, def, path, stack) == []
  {
    var r: Relation :| Consistent(w, r) && AcceptedBy(w, r, obj, def);
    AcceptedHasNoErrors(w, r, obj, def, path, stack);
  }

  // ------------------------------------------------- the greatest relation

  /** As `Consistent`, but free to use `path` for what is accepted further down. */
  ghost predicate ConsistentOver(w: World, path: Relation, r: Relation) {
    forall v, m :: (v, m) in r && m in w.models ==> Backed(w, r + path, v, m)
  }

  ghost predicate Backed(w: World, r: Relation, v: Value, m: ModelId)
    requires m in w.models
  {
    (w.models[m].isObjectModel ==> w.IsObject(v)) && AcceptedBy(w, r, v, w.models[m].definition)
  }

  /** All that some such relation holds. */
  ghost function Greatest(w: World, path: Relation): Relation {
    iset v: Value, m: ModelId | InSome(w, path, v, m) :: (v, m)
  }

  ghost predicate InSome(w: World, path: Relation, v: Value, m: ModelId) {
    exists r: Relation :: ConsistentOver(w, path, r) && (v, m) in r
  }

  lemma {:induction false} MoreIsAccepted(w: World, r: Relation, q: Relation, obj: Value, def: Def)
    requires r <= q && AcceptedBy(w, r, obj, def)
    ensures AcceptedBy(w, q, obj, def)
    decreases def
  {
    if def.Plain? {
      forall i | 0 <= i < |def.fields|
        ensures FieldAcceptedBy(w, q, obj, def, i)
      {
        assert FieldAcceptedBy(w, r, obj, def, i);
        MoreIsAccepted(w, r, q, w.Get(obj, def.fields[i].key), def.fields[i].def);
      }
    } else if !def.Model? {
      var i :| 0 <= i < |Parts(def)| && PartAcceptedBy(w, r, obj, def, i);
      var part := Parts(def)[i];
      if obj.Node? && (part.Plain? || part.Model?) {
        MoreIsAccepted(w, r, q, obj, part);
      }
      assert PartAcceptedBy(w, q, obj, def, i);
    }
  }

  lemma InGreatest(w: World, path: Relation, r: Relation)
    requires ConsistentOver(w, path, r)
    ensures r <= Greatest(w, path)
  {
    forall x | x in r
      ensures x in Greatest(w, path)
    {
      assert InSome(w, path, x.0, x.1);
    }
  }

  lemma GreatestIsConsistent(w: World, path: Relation)
    ensures ConsistentOver(w, path, Greatest(w, path))
  {
    forall v, m | (v, m) in Greatest(w, path) && m in w.models
      ensures Backed(w, Greatest(w, path) + path, v, m)
    {
      assert InSome(w, path, v, m);
      var r: Relation :| ConsistentOver(w, path, r) && (v, m) in r;
      InGreatest(w, path, r);
      assert Backed(w, r + path, v, m);
      MoreIsAccepted(w, r + path, Greatest(w, path) + path, v, w.models[m].definition);
    }
  }

  /** What the rules accept is what the greatest relation accepts. */
  lemma AcceptedByGreatest(w: World, obj: Value, def: Def)
    ensures Accepted(w, obj, def) <==> AcceptedBy(w, Greatest(w, iset{}), obj, def)
    ensures Consistent(w, Greatest(w, iset{}))
  {
    var g := Greatest(w, iset{});
    GreatestIsConsistent(w, iset{});
    assert g + iset{} == g;
    forall v, m | (v, m) in g && m in w.models
      ensures (w.models[m].isObjectModel ==> w.IsObject(v)) && AcceptedBy(w, g, v, w.models[m].definition)
    {
      assert Backed(w, g + iset{}, v, m);
    }
    if Accepted(w, obj, def) {
      var r: Relation :| Consistent(w, r) && AcceptedBy(w, r, obj, def);
      assert r + iset{} == r;
      assert ConsistentOver(w, iset{}, r);
      InGreatest(w, iset{}, r);
      MoreIsAccepted(w, r, g, obj, def);
    }
  }

  /** One more pair belongs to the greatest relation if what it needs is there once it is on the path. */
  lemma JoinsGreatest(w: World, path: Relation, v: Value, m: ModelId)
    requires m in w.models
    requires var further := path + iset{(v, m)}; Backed(w, Greatest(w, further) + further, v, m)
    ensures (v, m) in Greatest(w, path)
  {
    var further := path + iset{(v, m)};
    var deeper := Greatest(w, further);
    var r := deeper + iset{(v, m)};
    assert deeper + further == r + path;
    GreatestIsConsistent(w, further);
    forall x, k | (x, k) in r && k in w.models
      ensures Backed(w, r + path, x, k)
    {
    }
    InGreatest(w, path, r);
  }

  // ------------------------------------------------- what the cut-off lets pass

  /**
    The check accepts, or goes on, only by being cut off at a pair of value and
    model that it is not in the middle of checking: `path` holds those it is.
  */
  ghost predicate NeedsCutOff(w: World, obj: Value, def: Def, p: string, stack: seq<ModelId>, path: Relation)
    decreases Unmet(w, stack), MetOnce(w, stack), def, 1
  {
    if def.Model? then
      def.id in w.models &&
      if multiset(stack)[def.id] >= 2 then (obj, def.id) !in path
      else
        Pushed(w, stack, def.id);
        NeedsCutOff(w, obj, w.models[def.id].definition, p, stack + [def.id], path + iset{(obj, def.id)})
    else if def.Plain? then
      exists i :: 0 <= i < |def.fields| && FieldNeedsCutOff(w, obj, def, i, p, stack, path)
    else
      forall i :: 0 <= i < |Parts(def)| && PartTakes(w, obj, def, i, p, stack) ==> PartNeedsCutOff(w, obj, def, i, p, stack, path)
  }

  ghost predicate FieldNeedsCutOff(w: World, obj: Value, def: Def, i: nat, p: string, stack: seq<ModelId>, path: Relation)
    requires def.Plain? && i < |def.fields|
    decreases Unmet(w, stack), MetOnce(w, stack), def, 0
  {
    var f := def.fields[i];
    NeedsCutOff(w, w.Get(obj, f.key), f.def, Dotted(p, f.key), stack, path)
  }

  ghost predicate PartNeedsCutOff(w: World, obj: Value, def: Def, i: nat, p: string, stack: seq<ModelId>, path: Relation)
    requires !def.Plain? && !def.Model? && i < |Parts(def)|
    decreases Unmet(w, stack), MetOnce(w, stack), def, 0
  {
    var part := Parts(def)[i];
    obj.Node? && (part.Plain? || part.Model?) && NeedsCutOff(w, obj, part, p, stack, path)
  }

  /** What the checker accepts without such a cut-off, the rules accept, given what is on the path. */
  lemma {:induction false} SoundOverPath(w: World, obj: Value, def: Def, p: string, stack: seq<ModelId>, path: Relation)
    requires Errors(w, obj, def, p, stack) == [] && !NeedsCutOff(w, obj, def, p, stack, path)
    ensures AcceptedBy(w, Greatest(w, path) + path, obj, def)
    decreases Unmet(w, stack), MetOnce(w, stack), def
  {
    if def.Model? {
      if def.id in w.models && multiset(stack)[def.id] < 2 {
        Pushed(w, stack, def.id);
        SoundOverPath(w, obj, w.models[def.id].definition, p, stack + [def.id], path + iset{(obj, def.id)});
        JoinsGreatest(w, path, obj, def.id);
      }
    } else if def.Plain? {
      NoErrorsInFields(w, obj, def, p, stack);
      forall i | 0 <= i < |def.fields|
        ensures FieldAcceptedBy(w, Greatest(w, path) + path, obj, def, i)
      {
        var f := def.fields[i];
        assert FieldIsRight(w, obj, def, i, p, stack) && !FieldNeedsCutOff(w, obj, def, i, p, stack, path);
        SoundOverPath(w, w.Get(obj, f.key), f.def, Dotted(p, f.key), stack, path);
      }
    } else {
      var i :| 0 <= i < |Parts(def)| && PartTakes(w, obj, def, i, p, stack) && !PartNeedsCutOff(w, obj, def, i, p, stack, path);
      var part := Parts(def)[i];
      if obj.Node? && (part.Plain? || part.Model?) {
        SoundOverPath(w, obj, part, p, stack, path);
      }
      assert PartAcceptedBy(w, Greatest(w, path) + path, obj, def, i);
    }
  }

  /**
    The checker accepts exactly what the rules accept wherever it does not need a
    cut-off away from its path: recursive models over finite values, and values
    that lead back to themselves, are among these.
  */
  lemma ExactWithoutCutOff(w: World, obj: Value, def: Def)
    requires !NeedsCutOff(w, obj, def, "", [], iset{})
    ensures Errors(w, obj, def, "", []) == [] <==> Accepted(w, obj, def)
  {
    AcceptedByGreatest(w, obj, def);
    assert Greatest(w, iset{}) + iset{} == Greatest(w, iset{});
    if Errors(w, obj, def, "", []) == [] {
      SoundOverPath(w, obj, def, "", [], iset{});
    } else if Accepted(w, obj, def) {
      CutOffNeverRejects(w, obj, def, "", []);
    }
  }

  /**
    The check rests on being cut off where the rules reject: the value is cut off
    at a model it does not belong to, or one of its fields rests on such a cut-off,
    or every part that takes it does.
  */
  ghost predicate RestsOnError(w: World, obj: Value, def: Def, p: string, stack: seq<ModelId>)
    decreases Unmet(w, stack), MetOnce(w, stack), def, 1
  {
    if def.Model? then
      def.id in w.models &&
      if multiset(stack)[def.id] >= 2 then !Accepted(w, obj, def)
      else
        Pushed(w, stack, def.id);
        RestsOnError(w, obj, w.models[def.id].definition, p, stack + [def.id])
    else if def.Plain? then
      exists i :: 0 <= i < |def.fields| && FieldRestsOnError(w, obj, def, i, p, stack)
    else
      forall i :: 0 <= i < |Parts(def)| && PartTakes(w, obj, def, i, p, stack) ==> PartRestsOnError(w, obj, def, i, p, stack)
  }

  ghost predicate FieldRestsOnError(w: World, obj: Value, def: Def, i: nat, p: string, stack: seq<ModelId>)
    requires def.Plain? && i < |def.fields|
    decreases Unmet(w, stack), MetOnce(w, stack), def, 0
  {
    var f := def.fields[i];
    RestsOnError(w, w.Get(obj, f.key), f.def, Dotted(p, f.key), stack)
  }

  ghost predicate PartRestsOnError(w: World, obj: Value, def: Def, i: nat, p: string, stack: seq<ModelId>)
    requires !def.Plain? && !def.Model? && i < |Parts(def)|
    decreases Unmet(w, stack), MetOnce(w, stack), def, 0
  {
    var part := Parts(def)[i];
    obj.Node? && (part.Plain? || part.Model?) && RestsOnError(w, obj, part, p, stack)
  }

  ghost function Rules(w: World): Relation {
    Greatest(w, iset{})
  }

  lemma RulesHold(w: World, obj: Value, m: ModelId)
    ensures Consistent(w, Rules(w))
    ensures m in w.models ==> (Accepted(w, obj, Model(m)) <==> (obj, m) in Rules(w))
    ensures m in w.models && Backed(w, Rules(w), obj, m) ==> (obj, m) in Rules(w)
  {
    AcceptedByGreatest(w, obj, Model(m));
    if m in w.models && Backed(w, Rules(w), obj, m) {
      var r := Rules(w) + iset{(obj, m)};
      assert Rules(w) + iset{} == Rules(w) && r + iset{} == r;
      GreatestIsConsistent(w, iset{});
      forall x, k | (x, k) in r && k in w.models
        ensures Backed(w, r + iset{}, x, k)
      {
        assert Backed(w, Rules(w), x, k);
        MoreIsAccepted(w, Rules(w), r, x, w.models[k].definition);
      }
      InGreatest(w, iset{}, r);
    }
  }

  lemma {:induction false} RightlyAccepted(w: World, obj: Value, def: Def, p: string, stack: seq<ModelId>)
    requires Errors(w, obj, def, p, stack) == [] && !RestsOnError(w, obj, def, p, stack)
    ensures AcceptedBy(w, Rules(w), obj, def)
    decreases Unmet(w, stack), MetOnce(w, stack), def
  {
    hide Greatest;
    if def.Model? {
      RulesHold(w, obj, def.id);
      if def.id in w.models && multiset(stack)[def.id] < 2 {
        Pushed(w, stack, def.id);
        RightlyAccepted(w, obj, w.models[def.id].definition, p, stack + [def.id]);
      }
    } else if def.Plain? {
      NoErrorsInFields(w, obj, def, p, stack);
      forall i | 0 <= i < |def.fields|
        ensures FieldAcceptedBy(w, Rules(w), obj, def, i)
      {
        var f := def.fields[i];
        assert FieldIsRight(w, obj, def, i, p, stack) && !FieldRestsOnError(w, obj, def, i, p, stack);
        RightlyAccepted(w, w.Get(obj, f.key), f.def, Dotted(p, f.key), stack);
      }
    } else {
      var i :| 0 <= i < |Parts(def)| && PartTakes(w, obj, def, i, p, stack) && !PartRestsOnError(w, obj, def, i, p, stack);
      var part := Parts(def)[i];
      if obj.Node? && (part.Plain? || part.Model?) {
        RightlyAccepted(w, obj, part, p, stack);
      }
      assert PartAcceptedBy(w, Rules(w), obj, def, i);
    }
  }

  lemma {:induction false} AcceptedRestsOnNoError(w: World, obj: Value, def: Def, p: string, stack: seq<ModelId>)
    requires AcceptedBy(w, Rules(w), obj, def)
    ensures !RestsOnError(w, obj, def, p, stack)
    decreases Unmet(w, stack), MetOnce(w, stack), def
  {
    hide Greatest;
    if def.Model? {
      RulesHold(w, obj, def.id);
      if def.id in w.models && multiset(stack)[def.id] < 2 {
        Pushed(w, stack, def.id);
        AcceptedRestsOnNoError(w, obj, w.models[def.id].definition, p, stack + [def.id]);
      }
    } else if def.Plain? {
      forall i | 0 <= i < |def.fields|
        ensures !FieldRestsOnError(w, obj, def, i, p, stack)
      {
        var f := def.fields[i];
        assert FieldAcceptedBy(w, Rules(w), obj, def, i);
        AcceptedRestsOnNoError(w, w.Get(obj, f.key), f.def, Dotted(p, f.key), stack);
      }
    } else {
      var i :| 0 <= i < |Parts(def)| && PartAcceptedBy(w, Rules(w), obj, def, i);
      var part := Parts(def)[i];
      RulesHold(w, obj, 0);
      if obj.Node? && (part.Plain? || part.Model?) {
        AcceptedHasNoErrors(w, Rules(w), obj, part, p, stack);
        AcceptedRestsOnNoError(w, obj, part, p, stack);
      }
      assert PartTakes(w, obj, def, i, p, stack) && !PartRestsOnError(w, obj, def, i, p, stack);
    }
  }

  /** The checker is wrong exactly when it accepts and rests on an error: for any world, value and definition. */
  lemma ExactIff(w: World, obj: Value, def: Def)
    ensures (Errors(w, obj, def, "", []) == [] <==> Accepted(w, obj, def)) <==>
      !(Errors(w, obj, def, "", []) == [] && RestsOnError(w, obj, def, "", []))
  {
    hide Greatest;
    AcceptedByGreatest(w, obj, def);
    if Accepted(w, obj, def) {
      CutOffNeverRejects(w, obj, def, "", []);
      AcceptedRestsOnNoError(w, obj, def, "", []);
    } else if Errors(w, obj, def, "", []) == [] && !RestsOnError(w, obj, def, "", []) {
      RightlyAccepted(w, obj, def, "", []);
    }
  }

  // ------------------------------------------------------ what definitions mean

  /** The rules, and the check anywhere on its way, accept the value. */
  ghost predicate BothAccept(w: World, obj: Value, def: Def, path: string, stack: seq<ModelId>) {
    Errors(w, obj, def, path, stack) == [] && Accepted(w, obj, def)
  }

  ghost predicate NeitherAccepts(w: World, obj: Value, def: Def, path: string, stack: seq<ModelId>) {
    Errors(w, obj, def, path, stack) == [Error(path, def, obj)] && !Accepted(w, obj, def)
  }

  ghost predicate PartIsAllowed(w: World, obj: Value, def: Def, i: nat)
    requires !def.Plain? && !def.Model? && i < |Parts(def)|
  {
    PartAcceptedBy(w, Rules(w), obj, def, i)
  }

  lemma AllowedBySomePart(w: World, obj: Value, def: Def)
    requires !def.Plain? && !def.Model?
    ensures Accepted(w, obj, def) <==> exists i :: 0 <= i < |Parts(def)| && PartIsAllowed(w, obj, def, i)
  {
    AcceptedByGreatest(w, obj, def);
    hide Greatest, Accepted;
    if Accepted(w, obj, def) {
      var i :| 0 <= i < |Parts(def)| && PartAcceptedBy(w, Rules(w), obj, def, i);
      assert PartIsAllowed(w, obj, def, i);
    }
    if i :| 0 <= i < |Parts(def)| && PartIsAllowed(w, obj, def, i) {
      assert PartAcceptedBy(w, Rules(w), obj, def, i);
    }
  }

  /** What an array of definitions or a leaf makes of a value, when its parts are these. */
  lemma ByParts(w: World, obj: Value, def: Def, parts: seq<Def>, path: string, stack: seq<ModelId>)
    requires !def.Plain? && !def.Model? && Parts(def) == parts
    ensures Errors(w, obj, def, path, stack) == [] || Errors(w, obj, def, path, stack) == [Error(path, def, obj)]
    ensures Errors(w, obj, def, path, stack) == [] <==> exists i :: 0 <= i < |parts| && PartIsRight(w, obj, def, i, path, stack)
    ensures Accepted(w, obj, def) <==> exists i :: 0 <= i < |parts| && PartIsAllowed(w, obj, def, i)
  {
    NoErrorsInParts(w, obj, def, path, stack);
    AllowedBySomePart(w, obj, def);
  }

  /** An array of one definition is optional: it takes undefined and null, whatever the definition. */
  lemma OneIsOptional(w: World, obj: Value, d: Def, path: string, stack: seq<ModelId>)
    requires !obj.Node?
    ensures BothAccept(w, obj, Union([d]), path, stack)
  {
    var def := Union([d]);
    var parts := [d, Undefined, Null];
    ByParts(w, obj, def, parts, path, stack);
    var i := if obj.UndefinedValue? then 1 else 2;
    assert parts[i] == if obj.UndefinedValue? then Undefined else Null;
    assert PartIsRight(w, obj, def, i, path, stack) && PartIsAllowed(w, obj, def, i);
  }

  /**
    On any other value it is its definition; only what passes for undefined or
    null itself, as an object without a constructor does, is taken besides.
  */
  lemma OneIsItsDefinition(w: World, id: nat, d: Def, path: string, stack: seq<ModelId>)
    ensures var taken := w.matches(id, Undefined) || w.matches(id, Null);
      if d.Model? || d.Plain? then
        && (Errors(w, Node(id), Union([d]), path, stack) == [] <==> Errors(w, Node(id), d, path, stack) == [] || taken)
        && (Accepted(w, Node(id), Union([d])) <==> Accepted(w, Node(id), d) || taken)
      else
        && (Errors(w, Node(id), Union([d]), path, stack) == [] <==> w.matches(id, d) || taken)
        && (Accepted(w, Node(id), Union([d])) <==> w.matches(id, d) || taken)
  {
    hide Errors, Accepted, Greatest, AcceptedBy;
    var def, parts := Union([d]), [d, Undefined, Null];
    ByParts(w, Node(id), def, parts, path, stack);
    AcceptedByGreatest(w, Node(id), d);
    forall i | 0 <= i < 3
      ensures parts[i] == (if i == 0 then d else if i == 1 then Undefined else Null)
      ensures i > 0 || !(d.Model? || d.Plain?) ==> (PartIsRight(w, Node(id), def, i, path, stack) <==> w.matches(id, parts[i]))
      ensures i > 0 || !(d.Model? || d.Plain?) ==> (PartIsAllowed(w, Node(id), def, i) <==> w.matches(id, parts[i]))
    {
    }
    assert PartIsRight(w, Node(id), def, 0, path, stack) || PartIsRight(w, Node(id), def, 1, path, stack) || PartIsRight(w, Node(id), def, 2, path, stack) <==>
      exists i :: 0 <= i < 3 && PartIsRight(w, Node(id), def, i, path, stack);
    assert PartIsAllowed(w, Node(id), def, 0) || PartIsAllowed(w, Node(id), def, 1) || PartIsAllowed(w, Node(id), def, 2) <==>
      exists i :: 0 <= i < 3 && PartIsAllowed(w, Node(id), def, i);
  }

  /** Part `d` of an array takes an object: as a definition, if it is a model or a plain object, or else as it matches. */
  ghost predicate TakesNode(w: World, id: nat, d: Def, path: string, stack: seq<ModelId>) {
    if d.Model? || d.Plain? then Errors(w, Node(id), d, path, stack) == [] else w.matches(id, d)
  }

  ghost predicate AllowsNode(w: World, id: nat, d: Def) {
    if d.Model? || d.Plain? then Accepted(w, Node(id), d) else w.matches(id, d)
  }

  /** An array of none or of several definitions takes undefined or null when that is one of them, and an object when one of them does. */
  lemma SeveralAreAlternatives(w: World, obj: Value, ds: seq<Def>, path: string, stack: seq<ModelId>)
    requires |ds| != 1
    ensures obj.UndefinedValue? ==>
      if Undefined in ds then BothAccept(w, obj, Union(ds), path, stack) else NeitherAccepts(w, obj, Union(ds), path, stack)
    ensures obj.NullValue? ==>
      if Null in ds then BothAccept(w, obj, Union(ds), path, stack) else NeitherAccepts(w, obj, Union(ds), path, stack)
    ensures obj.Node? ==>
      && (Errors(w, obj, Union(ds), path, stack) == [] <==> exists d :: d in ds && TakesNode(w, obj.id, d, path, stack))
      && (Accepted(w, obj, Union(ds)) <==> exists d :: d in ds && AllowsNode(w, obj.id, d))
  {
    var def := Union(ds);
    ByParts(w, obj, def, ds, path, stack);
    hide Errors, Accepted, Greatest, AcceptedBy;
    forall i | 0 <= i < |ds|
      ensures obj.Node? ==> (PartIsRight(w, obj, def, i, path, stack) <==> TakesNode(w, obj.id, ds[i], path, stack))
      ensures obj.Node? ==> (PartIsAllowed(w, obj, def, i) <==> AllowsNode(w, obj.id, ds[i]))
      ensures !obj.Node? ==> (PartIsRight(w, obj, def, i, path, stack) <==> ds[i] == if obj.UndefinedValue? then Undefined else Null)
      ensures !obj.Node? ==> (PartIsAllowed(w, obj, def, i) <==> ds[i] == if obj.UndefinedValue? then Undefined else Null)
    {
      AcceptedByGreatest(w, obj, ds[i]);
    }
  }

  /** What is neither an array, nor a model, nor a plain object, is required: it takes undefined or null only if it is that. */
  lemma BareIsRequired(w: World, obj: Value, d: Def, path: string, stack: seq<ModelId>)
    requires !d.Union? && !d.Model? && !d.Plain?
    ensures var taken := match obj case UndefinedValue => d.Undefined? case NullValue => d.Null? case Node(id) => w.matches(id, d);
      if taken then BothAccept(w, obj, d, path, stack) else NeitherAccepts(w, obj, d, path, stack)
  {
    ByParts(w, obj, d, [d], path, stack);
    assert PartIsRight(w, obj, d, 0, path, stack) || !PartIsRight(w, obj, d, 0, path, stack);
    assert PartIsAllowed(w, obj, d, 0) || !PartIsAllowed(w, obj, d, 0);
  }

  /**
    Properties are checked in order, and their errors reported under their own
    paths; a value that has none is as one whose properties are undefined.
  */
  lemma PropertiesInOrder(w: World, obj: Value, fields: seq<Entry>, key: string, d: Def, path: string, stack: seq<ModelId>)
    ensures Errors(w, obj, Plain([]), path, stack) == []
    ensures var val := if obj.Node? then w.property(obj.id, key) else UndefinedValue;
      var at := if path == "" then key else path + "." + key;
      Errors(w, obj, Plain(fields + [Entry(key, d)]), path, stack) == Errors(w, obj, Plain(fields), path, stack) + Errors(w, val, d, at, stack)
  {
    var n, def := |fields|, Plain(fields + [Entry(key, d)]);
    var ss := FieldErrors(w, obj, def, path, stack);
    assert def.fields[n] == Entry(key, d);
    assert ss[n] == FieldError(w, obj, def, n, path, stack) == Errors(w, w.Get(obj, key), d, Dotted(path, key), stack);
    forall i | 0 <= i < n
      ensures ss[i] == FieldErrors(w, obj, Plain(fields), path, stack)[i]
    {
      assert def.fields[i] == fields[i];
      assert FieldError(w, obj, def, i, path, stack) == FieldError(w, obj, Plain(fields), i, path, stack);
    }
    assert ss[..n] == FieldErrors(w, obj, Plain(fields), path, stack);
    assert Flat(ss) == Flat(ss[..n]) + ss[n];
  }

  /** A model over an object takes nothing that is not `typeof` an object; null is, and is checked for its properties. */
  lemma ObjectModelMeans(w: World, obj: Value, m: ModelId, path: string, stack: seq<ModelId>)
    requires m in w.models && multiset(stack)[m] < 2
    ensures var isObject := match obj case UndefinedValue => false case NullValue => true case Node(id) => w.objectLike(id);
      if w.models[m].isObjectModel && !isObject then NeitherAccepts(w, obj, Model(m), path, stack)
      else
        && Errors(w, obj, Model(m), path, stack) == Errors(w, obj, w.models[m].definition, path, stack + [m])
        && (Accepted(w, obj, Model(m)) <==> Accepted(w, obj, w.models[m].definition))
  {
    Pushed(w, stack, m);
    RulesHold(w, obj, m);
    hide Greatest;
    AcceptedByGreatest(w, obj, w.models[m].definition);
  }

  // ---------------------------------------------------------- without cycles

  /** `m` is mentioned by `def`. */
  predicate Mentions(def: Def, m: ModelId)
    decreases def
  {
    match def
    case Model(id) => m == id
    case Plain(fields) => exists i :: 0 <= i < |fields| && Mentions(fields[i].def, m)
    case Union(parts) => exists i :: 0 <= i < |parts| && Mentions(parts[i], m)
    case _ => false
  }

  /** Models mention only models of a lower rank, so none leads back to itself. */
  ghost predicate Ranked(w: World, rank: ModelId -> nat) {
    forall m, d :: m in w.models && Mentions(w.models[m].definition, d) ==> rank(d) < rank(m)
  }

  /** Everything mentioned ranks below everything on the stack. */
  ghost predicate Below(rank: ModelId -> nat, def: Def, stack: seq<ModelId>) {
    forall m, s :: Mentions(def, m) && s in stack ==> rank(m) < rank(s)
  }

  lemma BelowPart(rank: ModelId -> nat, def: Def, i: nat, stack: seq<ModelId>)
    requires !def.Plain? && !def.Model? && i < |Parts(def)| && Below(rank, def, stack)
    requires Parts(def)[i].Plain? || Parts(def)[i].Model?
    ensures Below(rank, Parts(def)[i], stack)
  {
    assert Parts(def)[i] in def.parts;
    assert forall m :: Mentions(Parts(def)[i], m) ==> Mentions(def, m);
  }

  lemma {:induction false} RankedNeedsNoCutOff(w: World, rank: ModelId -> nat, obj: Value, def: Def, p: string, stack: seq<ModelId>, path: Relation)
    requires Ranked(w, rank) && Below(rank, def, stack) && Errors(w, obj, def, p, stack) == []
    ensures !NeedsCutOff(w, obj, def, p, stack, path)
    decreases Unmet(w, stack), MetOnce(w, stack), def
  {
    if def.Model? {
      assert Mentions(def, def.id) && def.id !in stack;
      if def.id in w.models {
        Pushed(w, stack, def.id);
        RankedNeedsNoCutOff(w, rank, obj, w.models[def.id].definition, p, stack + [def.id], path + iset{(obj, def.id)});
      }
    } else if def.Plain? {
      NoErrorsInFields(w, obj, def, p, stack);
      forall i | 0 <= i < |def.fields|
        ensures !FieldNeedsCutOff(w, obj, def, i, p, stack, path)
      {
        var f := def.fields[i];
        assert FieldIsRight(w, obj, def, i, p, stack);
        assert forall m :: Mentions(f.def, m) ==> Mentions(def, m);
        RankedNeedsNoCutOff(w, rank, w.Get(obj, f.key), f.def, Dotted(p, f.key), stack, path);
      }
    } else {
      NoErrorsInParts(w, obj, def, p, stack);
      var i :| 0 <= i < |Parts(def)| && PartIsRight(w, obj, def, i, p, stack);
      var part := Parts(def)[i];
      if obj.Node? && (part.Plain? || part.Model?) {
        BelowPart(rank, def, i, stack);
        RankedNeedsNoCutOff(w, rank, obj, part, p, stack, path);
      }
      assert PartTakes(w, obj, def, i, p, stack) && !PartNeedsCutOff(w, obj, def, i, p, stack, path);
    }
  }

  /** When no model leads back to itself, the checker accepts exactly what the rules accept. */
  lemma ExactWithoutCycles(w: World, rank: ModelId -> nat, obj: Value, def: Def)
    requires Ranked(w, rank)
    ensures Errors(w, obj, def, "", []) == [] <==> Accepted(w, obj, def)
  {
    if Errors(w, obj, def, "", []) == [] {
      RankedNeedsNoCutOff(w, rank, obj, def, "", [], iset{});
      ExactWithoutCutOff(w, obj, def);
    } else if Accepted(w, obj, def) {
      CutOffNeverRejects(w, obj, def, "", []);
    }
  }

  /** A record whose `next` is a record, and a chain of two of them that ends in something else. */
  const RECORD := ModelDesc(true, Plain([Entry("next", Model(0))]))

  function Chain(): World {
    World(map[0 := RECORD], n => n < 2, (n: nat, key) => Node(n + 1), (n, part) => false)
  }

  lemma ChainIsNotAccepted()
    ensures !Accepted(Chain(), Node(0), Model(0))
  {
    var w, def := Chain(), RECORD.definition;
    forall r: Relation | Consistent(w, r)
      ensures (Node(0), 0) !in r
    {
      assert (Node(2), 0) !in r;
      assert !FieldAcceptedBy(w, r, Node(1), def, 0);
      assert (Node(1), 0) !in r;
      assert !FieldAcceptedBy(w, r, Node(0), def, 0);
    }
  }

  /** With a model that leads back to itself the checker can accept more: met for the third time, the model is not applied. */
  lemma CutOffAcceptsTooMuch()
    ensures Errors(Chain(), Node(0), Model(0), "", []) == [] && !Accepted(Chain(), Node(0), Model(0))
  {
    var w, def := Chain(), RECORD.definition;
    var once: seq<ModelId> := [] + [0];
    assert Errors(w, Node(2), Model(0), "next.next", once + [0]) == [];
    assert FieldIsRight(w, Node(1), def, 0, "next", once + [0]);
    NoErrorsInFields(w, Node(1), def, "next", once + [0]);
    assert Errors(w, Node(1), Model(0), "next", once) == [];
    assert FieldIsRight(w, Node(0), def, 0, "", once);
    NoErrorsInFields(w, Node(0), def, "", once);
    ChainIsNotAccepted();
  }

  /** A record that is its own `next`. */
  function Loop(): World {
    World(map[0 := RECORD], n => true, (n: nat, key) => Node(n), (n, part) => false)
  }

  /** It is cut off too, but at a pair the check is in the middle of, and so it is rightly accepted. */
  lemma LoopIsRightlyAccepted(n: nat)
    ensures Errors(Loop(), Node(n), Model(0), "", []) == [] && Accepted(Loop(), Node(n), Model(0))
  {
    var w, def := Loop(), RECORD.definition;
    var once: seq<ModelId> := [] + [0];
    var pair: Relation := iset{} + iset{(Node(n), 0)};
    assert !NeedsCutOff(w, Node(n), Model(0), "next.next", once + [0], pair + iset{(Node(n), 0)});
    assert !FieldNeedsCutOff(w, Node(n), def, 0, "next", once + [0], pair + iset{(Node(n), 0)});
    assert !NeedsCutOff(w, Node(n), def, "next", once + [0], pair + iset{(Node(n), 0)});
    assert !NeedsCutOff(w, Node(n), Model(0), "next", once, pair);
    assert !FieldNeedsCutOff(w, Node(n), def, 0, "", once, pair);
    assert !NeedsCutOff(w, Node(n), def, "", once, pair);
    assert Errors(w, Node(n), Model(0), "next.next", once + [0]) == [];
    assert FieldIsRight(w, Node(n), def, 0, "next", once + [0]);
    NoErrorsInFields(w, Node(n), def, "next", once + [0]);
    assert Errors(w, Node(n), Model(0), "next", once) == [];
    assert FieldIsRight(w, Node(n), def, 0, "", once);
    NoErrorsInFields(w, Node(n), def, "", once);
    ExactWithoutCutOff(w, Node(n), Model(0));
  }
}
