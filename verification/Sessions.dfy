/** Access rules by name prefix, the first match deciding. */
module SecureContexts {
  import opened Names
  import opened Bindings
  import opened NameSpaces
  import opened TreeContexts

  const NONE: bv8 := 0
  const LOOKUP: bv8 := 1
  const BIND: bv8 := 2
  const UNBIND: bv8 := 4
  const ALL: bv8 := 7

  datatype Rule = Rule(domain: Path, access: bv8)

  predicate Grants(rule: Rule, access: bv8) {
    ((!access | rule.access) & ALL) == ALL
  }

  /** What `checkAccessContext` decides. */
  predicate Allows(rules: seq<Rule>, name: Path, access: bv8) {
    rules != [] && if rules[0].domain <= name then Grants(rules[0], access) else Allows(rules[1..], name, access)
  }

  /** The first rule whose domain the name is in decides, by whether it grants the access asked for; no rule, no access. */
  lemma {:induction false} FirstMatchDecides(rules: seq<Rule>, name: Path, access: bv8)
    requires access == LOOKUP || access == BIND || access == UNBIND
    ensures Allows(rules, name, access) <==> exists i :: 0 <= i < |rules| && FirstMatch(rules, name, i) && rules[i].access & access == access
  {
    if rules != [] {
      var rest := rules[1..];
      FirstMatchDecides(rest, name, access);
      if rules[0].domain <= name {
        assert FirstMatch(rules, name, 0);
        assert Grants(rules[0], access) <==> rules[0].access & access == access;
      } else {
        forall i | 0 <= i < |rest|
          ensures FirstMatch(rest, name, i) <==> FirstMatch(rules, name, i + 1)
        {
          assert forall j :: 0 <= j < i + 1 ==> j == 0 || rules[j] == rest[j - 1];
        }
        if i :| 0 <= i < |rules| && FirstMatch(rules, name, i) && rules[i].access & access == access {
          assert FirstMatch(rest, name, i - 1) && rest[i - 1] == rules[i];
        }
      }
    }
  }

  predicate FirstMatch(rules: seq<Rule>, name: Path, i: nat)
    requires i < |rules|
  {
    rules[i].domain <= name && forall j :: 0 <= j < i ==> !(rules[j].domain <= name)
  }

  const SESSION_DOMAIN := "session"

  /** `getSessionContextName`. */
  function SessionName(id: string): Path {
    [SESSION_DOMAIN, id]
  }

  /** The rule list built for a session. */
  function SessionRules(id: string): seq<Rule> {
    [Rule(SessionName(id), ALL), Rule([SESSION_DOMAIN], NONE), Rule([], ALL)]
  }

  /** A session may touch everything outside the session domain, and in it its own part only. */
  lemma SessionMayTouch(id: string, name: Path, access: bv8)
    requires access == LOOKUP || access == BIND || access == UNBIND
    ensures Allows(SessionRules(id), name, access) <==> !([SESSION_DOMAIN] <= name) || SessionName(id) <= name
  {
    var rules := SessionRules(id);
    assert rules[1..] == [rules[1], rules[2]] && rules[1..][1..] == [rules[2]];
    assert Allows(rules[1..][1..], name, access);
    assert !Grants(rules[1], access);
    assert SessionName(id)[..1] == [SESSION_DOMAIN];
  }

  class SecureContext {
    const context: TreeContext
    const rules: seq<Rule>

    constructor (context: TreeContext, rules: seq<Rule>)
      ensures this.context == context && this.rules == rules
    {
      this.context := context;
      this.rules := rules;
    }

    method CheckAccess(name: Path, access: bv8) returns (ok: bool)
      ensures ok <==> Allows(rules, name, access)
    {
      for i := 0 to |rules|
        invariant Allows(rules, name, access) <==> Allows(rules[i..], name, access)
      {
        var matches := StartsWith(name, rules[i].domain);
        assert rules[i..][1..] == rules[i + 1..];
        if matches {
          return Grants(rules[i], access);
        }
      }
      return false;
    }

    method LookupLink(name: Path) returns (r: Result<Slot>)
      requires context.Valid()
      modifies context, context.Repr
      ensures context.Valid() && context.Repr <= old(context.Repr) && context.space == old(context.space)
      ensures AbsResult(r) ==
        if Allows(rules, name, LOOKUP) then FindLink(context.space, name) else Error(NoPermission)
    {
      var ok := CheckAccess(name, LOOKUP);
      if !ok {
        return Error(NoPermission);
      }
      r := context.LookupLink(name);
    }

    method Bind(name: Path, obj: Object) returns (r: Result<()>)
      requires context.Valid()
      modifies context, context.Repr
      ensures context.Valid() && forall h :: h in context.Repr ==> h in old(context.Repr) || fresh(h)
      ensures if Allows(rules, name, BIND) then Binds(old(context.space), name, obj, context.strictMode, r, context.space)
              else r == Error(NoPermission) && context.space == old(context.space)
    {
      var ok := CheckAccess(name, BIND);
      if !ok {
        return Error(NoPermission);
      }
      r := context.Bind(name, obj);
    }

    method Unbind(name: Path) returns (r: Result<()>)
      requires context.Valid()
      modifies context, context.Repr
      ensures context.Valid() && context.Repr <= old(context.Repr)
      ensures if Allows(rules, name, UNBIND) then Unbinds(old(context.space), name, r, context.space)
              else r == Error(NoPermission) && context.space == old(context.space)
    {
      var ok := CheckAccess(name, UNBIND);
      if !ok {
        return Error(NoPermission);
      }
      r := context.Unbind(name);
    }

    method DestroySubcontext(name: Path) returns (r: Result<()>)
      requires context.Valid()
      modifies context, context.Repr
      ensures context.Valid() && context.Repr <= old(context.Repr)
      ensures if Allows(rules, name, UNBIND) then Destroys(old(context.space), name, r, context.space)
              else r == Error(NoPermission) && context.space == old(context.space)
    {
      var ok := CheckAccess(name, UNBIND);
      if !ok {
        return Error(NoPermission);
      }
      r := context.DestroySubcontext(name);
    }
  }

  /** An operation made through the context of a session. */
  datatype Operation = LookupOp(name: Path) | BindOp(name: Path, obj: Object) | UnbindOp(name: Path) | DestroyOp(name: Path)

  /** What one operation through the context of session `id` can do to the space. */
  ghost predicate Operates(id: string, strict: bool, op: Operation, t: Space, t': Space) {
    match op
    case LookupOp(_) => t' == t
    case BindOp(n, obj) =>
      if Allows(SessionRules(id), n, BIND) then exists r :: Binds(t, n, obj, strict, r, t') else t' == t
    case UnbindOp(n) =>
      if Allows(SessionRules(id), n, UNBIND) then exists r :: Unbinds(t, n, r, t') else t' == t
    case DestroyOp(n) =>
      if Allows(SessionRules(id), n, UNBIND) then exists r :: Destroys(t, n, r, t') else t' == t
  }

  /** A run of operations, with every space on the way. */
  ghost predicate IsRun(id: string, strict: bool, ops: seq<Operation>, spaces: seq<Space>) {
    && |spaces| == |ops| + 1
    && forall i :: 0 <= i < |ops| ==> Operates(id, strict, ops[i], spaces[i], spaces[i + 1])
  }

  /** Everything at or below `p` is the same in both spaces. */
  ghost predicate SameBelow(t: Space, t': Space, p: Path) {
    forall n :: p <= n ==> (n in t <==> n in t') && (n in t ==> t[n] == t'[n])
  }

  /** No name a session may touch is above or below another session's part. */
  lemma OutOfReach(id: string, other: string, n: Path, p: Path)
    requires id != other && (!([SESSION_DOMAIN] <= n) || SessionName(id) <= n) && SessionName(other) <= p
    ensures !(n != [] && n <= p) && !(p <= n)
  {
    assert p[0] == SESSION_DOMAIN && p[1] == other;
    if n != [] && n[0] == SESSION_DOMAIN {
      assert n[1] == id;
    }
  }

  lemma OperationKeepsOthers(id: string, other: string, strict: bool, op: Operation, t: Space, t': Space)
    requires id != other && PrefixClosed(t) && Operates(id, strict, op, t, t')
    ensures PrefixClosed(t') && SameBelow(t, t', SessionName(other))
  {
    if !op.LookupOp? {
      var access := if op.BindOp? then BIND else UNBIND;
      SessionMayTouch(id, op.name, access);
      if Allows(SessionRules(id), op.name, access) {
        forall p | (p in t || p in t') && SessionName(other) <= p
          ensures !(op.name != [] && op.name <= p) && !(p <= op.name)
        {
          OutOfReach(id, other, op.name, p);
        }
      }
    }
    match op
    case LookupOp(_) =>
    case BindOp(n, obj) =>
      if Allows(SessionRules(id), n, BIND) {
        var r :| Binds(t, n, obj, strict, r, t');
        BindKeeps(t, n, obj, strict, r, t');
      }
    case UnbindOp(n) =>
      if Allows(SessionRules(id), n, UNBIND) {
        var r :| Unbinds(t, n, r, t');
        UnbindKeeps(t, n, r, t');
      }
    case DestroyOp(n) =>
      if Allows(SessionRules(id), n, UNBIND) {
        var r :| Destroys(t, n, r, t');
        UnbindKeeps(t, n, r, t');
      }
  }

  /** Whatever one session does through its context, no other session's part of the tree changes. */
  lemma {:induction false} SessionsAreIsolated(id: string, other: string, strict: bool, ops: seq<Operation>, spaces: seq<Space>)
    requires id != other && IsRun(id, strict, ops, spaces) && PrefixClosed(spaces[0])
    ensures PrefixClosed(spaces[|ops|]) && SameBelow(spaces[0], spaces[|ops|], SessionName(other))
    decreases |ops|
  {
    if ops != [] {
      var n := |ops| - 1;
      SessionsAreIsolated(id, other, strict, ops[..n], spaces[..n + 1]);
      OperationKeepsOthers(id, other, strict, ops[n], spaces[n], spaces[n + 1]);
    }
  }

  method Operate(secured: SecureContext, ghost id: string, op: Operation)
    requires secured.rules == SessionRules(id) && secured.context.Valid()
    modifies secured.context, secured.context.Repr
    ensures secured.context.Valid() && forall h :: h in secured.context.Repr ==> h in old(secured.context.Repr) || fresh(h)
    ensures Operates(id, secured.context.strictMode, op, old(secured.context.space), secured.context.space)
  {
    match op
    case LookupOp(n) =>
      var found := secured.LookupLink(n);
    case BindOp(n, obj) =>
      var r := secured.Bind(n, obj);
    case UnbindOp(n) =>
      var r := secured.Unbind(n);
    case DestroyOp(n) =>
      var r := secured.DestroySubcontext(n);
  }

  lemma RunGrows(id: string, strict: bool, ops: seq<Operation>, i: nat, spaces: seq<Space>, t: Space)
    requires i < |ops| && IsRun(id, strict, ops[..i], spaces) && Operates(id, strict, ops[i], spaces[i], t)
    ensures IsRun(id, strict, ops[..i + 1], spaces + [t])
  {
    hide Operates;
  }

  lemma OthersAreIsolated(id: string, strict: bool, ops: seq<Operation>, spaces: seq<Space>)
    requires IsRun(id, strict, ops, spaces) && PrefixClosed(spaces[0])
    ensures forall other :: other != id ==> SameBelow(spaces[0], spaces[|ops|], SessionName(other))
  {
    forall other | other != id
      ensures SameBelow(spaces[0], spaces[|ops|], SessionName(other))
    {
      SessionsAreIsolated(id, other, strict, ops, spaces);
    }
  }

  /** Any run of operations through the context of a session leaves what every other session has in the tree as it was. */
  method OperateAll(secured: SecureContext, ghost id: string, ops: seq<Operation>)
    requires secured.rules == SessionRules(id) && secured.context.Valid()
    modifies secured.context, secured.context.Repr
    ensures secured.context.Valid() && forall h :: h in secured.context.Repr ==> h in old(secured.context.Repr) || fresh(h)
    ensures forall other :: other != id ==> SameBelow(old(secured.context.space), secured.context.space, SessionName(other))
  {
    hide IsRun, Operates, PrefixClosed, SameBelow;
    ghost var strict, first := secured.context.strictMode, secured.context.space;
    ghost var spaces := [first];
    secured.context.SpaceIsClosed();
    NothingRun(id, strict, first);
    for i := 0 to |ops|
      invariant secured.context.Valid() && forall h :: h in secured.context.Repr ==> h in old(secured.context.Repr) || fresh(h)
      invariant |spaces| == i + 1 && spaces[0] == first && spaces[i] == secured.context.space
      invariant IsRun(id, strict, ops[..i], spaces)
    {
      Operate(secured, id, ops[i]);
      RunGrows(id, strict, ops, i, spaces, secured.context.space);
      spaces := spaces + [secured.context.space];
    }
    assert ops[..|ops|] == ops;
    OthersAreIsolated(id, strict, ops, spaces);
  }

  lemma NothingRun(id: string, strict: bool, t: Space)
    ensures forall ops: seq<Operation> :: IsRun(id, strict, ops[..0], [t])
  {
  }
}

/** The lifecycle of dynamic services: bound when a method returns one, unbound when it is closed. */
module Sessions {
  import opened Options
  import opened Sequences
  import opened Names
  import opened Bindings
  import opened NameSpaces
  import opened TreeContexts
  import opened SecureContexts

  // ---------------------------------------------------------------- events

  /** What the invocations of any sessions do to the naming tree, step by step. */
  datatype Event =
    | Issued(sessionId: string, name: Path, obj: Object)   // a result bound for a session
    | Closed(name: Path)                                   // a name unbound, if it was bound
    | Invalidated(sessionId: string)                       // a session's part destroyed, if there was one

  ghost function Apply(t: Space, e: Event): Space {
    match e
    case Issued(_, n, obj) => Grown(t, n)[n := Leaf(obj)]
    case Closed(n) => if n == [] then t else Dropped(t, n)
    case Invalidated(id) => Dropped(t, SessionName(id))
  }

  ghost function ApplyAll(t: Space, es: seq<Event>): Space {
    if es == [] then t else Apply(ApplyAll(t, es[..|es| - 1]), es[|es| - 1])
  }

  lemma {:induction false} ApplyAppend(t: Space, es: seq<Event>, fs: seq<Event>)
    ensures ApplyAll(t, es + fs) == ApplyAll(ApplyAll(t, es), fs)
  {
    if fs == [] {
      assert es + fs == es;
    } else {
      var n := |fs| - 1;
      assert (es + fs)[..|es + fs| - 1] == es + fs[..n];
      ApplyAppend(t, es, fs[..n]);
    }
  }

  /** The name `sessionContextName.add(component)`. */
  function DynamicName(id: string, component: string): Path {
    SessionName(id) + [component]
  }

  /** Event `e` ends the life of what is bound at `n`. */
  predicate Ends(e: Event, n: Path) {
    match e
    case Issued(_, _, _) => false
    case Closed(c) => c != [] && c <= n
    case Invalidated(id) => SessionName(id) <= n
  }

  /** The ledger of a session: `n` was issued to it as `obj`, and neither closed nor swept away since. */
  ghost predicate Live(es: seq<Event>, id: string, n: Path, obj: Object) {
    exists i :: 0 <= i < |es| && es[i] == Issued(id, n, obj) && forall j :: i < j < |es| ==> !Ends(es[j], n)
  }

  /** Every issued name is a fresh one directly in its session's context. */
  ghost predicate FreshNames(t: Space, es: seq<Event>) {
    forall i :: 0 <= i < |es| && es[i].Issued? ==>
      && es[i].name !in t
      && (exists c :: es[i].name == DynamicName(es[i].sessionId, c))
      && forall j :: 0 <= j < i && es[j].Issued? ==> es[j].name != es[i].name
  }

  /** `n` is strictly inside the context of session `id`. */
  predicate Inside(id: string, n: Path) {
    SessionName(id) <= n && |n| > 2
  }

  lemma LiveGrows(es: seq<Event>, e: Event, id: string, n: Path, obj: Object)
    ensures Live(es + [e], id, n, obj) <==> e == Issued(id, n, obj) || (Live(es, id, n, obj) && !Ends(e, n))
  {
    var fs := es + [e];
    if Live(fs, id, n, obj) {
      var i :| 0 <= i < |fs| && fs[i] == Issued(id, n, obj) && forall j :: i < j < |fs| ==> !Ends(fs[j], n);
      if i < |es| {
        assert es[i] == fs[i] && fs[|es|] == e;
        assert forall j :: i < j < |es| ==> es[j] == fs[j];
      }
    }
    if e == Issued(id, n, obj) {
      assert fs[|es|] == Issued(id, n, obj);
    }
    if Live(es, id, n, obj) && !Ends(e, n) {
      var i :| 0 <= i < |es| && es[i] == Issued(id, n, obj) && forall j :: i < j < |es| ==> !Ends(es[j], n);
      assert fs[i] == Issued(id, n, obj);
    }
  }

  /**
    Over every run of any sessions, what is bound inside a session is exactly
    its ledger: the services issued to it, less those closed, since its last
    invalidation.
  */
  lemma {:induction false} BoundIsLive(t: Space, es: seq<Event>, id: string, n: Path)
    requires FreshNames(t, es) && Inside(id, n) && n !in t
    ensures n in ApplyAll(t, es) <==> exists obj :: Live(es, id, n, obj)
    ensures forall obj :: n in ApplyAll(t, es) ==> (ApplyAll(t, es)[n] == Leaf(obj) <==> Live(es, id, n, obj))
    decreases |es|
  {
    if es != [] {
      var k := |es| - 1;
      var front, e := es[..k], es[k];
      assert es == front + [e];
      assert FreshNames(t, front);
      BoundIsLive(t, front, id, n);
      forall obj
        ensures Live(es, id, n, obj) <==> e == Issued(id, n, obj) || (Live(front, id, n, obj) && !Ends(e, n))
      {
        LiveGrows(front, e, id, n, obj);
      }
      BoundStep(t, front, e, id, n);
    }
  }

  lemma BoundStep(t: Space, front: seq<Event>, e: Event, id: string, n: Path)
    requires Inside(id, n)
    requires e.Issued? ==> exists c :: e.name == DynamicName(e.sessionId, c)
    ensures var before := ApplyAll(t, front);
      var after := Apply(before, e);
      && (n in after <==> (e.Issued? && e.name == n) || (n in before && !Ends(e, n)))
      && (n in after ==> after[n] == if e.Issued? && e.name == n then Leaf(e.obj) else before[n])
      && (e.Issued? && e.name == n ==> e.sessionId == id)
  {
    if e.Issued? {
      GrownAdds(ApplyAll(t, front), e.name, n);
      var c :| e.name == DynamicName(e.sessionId, c);
      if e.name == n {
        assert n[1] == id && DynamicName(e.sessionId, c)[1] == e.sessionId;
      }
    }
  }

  // ------------------------------------------------------------- a session

  /** What a session may do: its id, whether it is guarded, and whether the registry is strict. */
  datatype Access = Access(id: string, secured: bool, strict: bool) {
    predicate May(name: Path, access: bv8) {
      !secured || Allows(SessionRules(id), name, access)
    }

    /** Binding a name works out. */
    predicate CanBind(t: Space, n: Path) {
      May(n, BIND) && n != [] && n !in t && WalkError(t, n, 0, strict).Ok?
    }

    /** Unbinding a name works out: it is bound, or nothing leads to where it would be. */
    predicate CanUnbind(t: Space, n: Path) {
      May(n, UNBIND) && n != [] && (WalkError(t, n, 0, true).Error? || n in t)
    }
  }

  class ServiceSession {
    const id: string
    const context: TreeContext
    const secure: SecureContext?    // none when security is switched off

    constructor (id: string, context: TreeContext, securityEnabled: bool)
      ensures this.id == id && this.context == context && Valid()
      ensures secure == null <==> !securityEnabled
    {
      this.id := id;
      this.context := context;
      if securityEnabled {
        secure := new SecureContext(context, SessionRules(id));
      } else {
        secure := null;
      }
    }

    predicate Valid() {
      secure != null ==> secure.context == context && secure.rules == SessionRules(id)
    }

    function Rights(): Access {
      Access(id, secure != null, context.strictMode)
    }

    method LookupLink(name: Path) returns (r: Result<Slot>)
      requires Valid() && context.Valid()
      modifies context, context.Repr
      ensures context.Valid() && context.Repr <= old(context.Repr) && context.space == old(context.space)
      ensures AbsResult(r) == if Rights().May(name, LOOKUP) then FindLink(context.space, name) else Error(NoPermission)
    {
      if secure != null {
        r := secure.LookupLink(name);
      } else {
        r := context.LookupLink(name);
      }
    }

    /** Binds the name, with the contexts missing above it, exactly when that can be done; else changes nothing. */
    method Bind(name: Path, obj: Object) returns (r: Result<()>)
      requires Valid() && context.Valid()
      modifies context, context.Repr
      ensures context.Valid() && forall h :: h in context.Repr ==> h in old(context.Repr) || fresh(h)
      ensures r.Ok? <==> Rights().CanBind(old(context.space), name)
      ensures context.space == if r.Ok? then Apply(old(context.space), Issued(id, name, obj)) else old(context.space)
    {
      if secure != null {
        r := secure.Bind(name, obj);
      } else {
        r := context.Bind(name, obj);
      }
    }

    /** Ends the life of the name and all below it exactly when that can be done; else changes nothing. */
    method Unbind(name: Path) returns (r: Result<()>)
      requires Valid() && context.Valid()
      modifies context, context.Repr
      ensures context.Valid() && context.Repr <= old(context.Repr)
      ensures r.Ok? <==> Rights().CanUnbind(old(context.space), name)
      ensures context.space == if r.Ok? then Apply(old(context.space), Closed(name)) else old(context.space)
    {
      context.SpaceIsClosed();
      if secure != null {
        r := secure.Unbind(name);
      } else {
        r := context.Unbind(name);
      }
      if r.Ok? {
        UnbindKeeps(old(context.space), name, r, context.space);
      }
    }

    /** `invalidate`: whatever `destroySubcontext` reports, nothing of the session is left. */
    method Invalidate()
      requires Valid() && context.Valid()
      modifies context, context.Repr
      ensures context.Valid() && context.Repr <= old(context.Repr)
      ensures context.space == Apply(old(context.space), Invalidated(id))
    {
      context.SpaceIsClosed();
      SessionMayTouch(id, SessionName(id), UNBIND);
      var r;
      if secure != null {
        r := secure.DestroySubcontext(SessionName(id));
      } else {
        r := context.DestroySubcontext(SessionName(id));
      }
      UnbindKeeps(old(context.space), SessionName(id), r, context.space);
    }
  }

  // ------------------------------------------------------- what a call does

  /** A deserialized argument: a plain value, or a reference by relative name or absolute url. */
  datatype Param = Plain | Relative(serviceName: string) | Absolute

  /** An argument, and whether its descriptor says that the call closes it. */
  datatype Arg = Arg(param: Param, closes: bool)

  /**
    What the invoked method does: throws an `IOException` or anything else, returns
    a value, or returns an object to be passed by reference. A call without a
    method name is one of no arguments that returns a value, the description of
    the service; one whose arguments break the deserializer is one of no arguments
    that throws an `IOException`.
  */
  datatype Outcome = Threw | ThrewIo | ReturnedValue | ReturnedRef(obj: Object)

  datatype Call = Call(serviceName: string, args: seq<Arg>, outcome: Outcome, closesService: bool, component: string)

  /** What the client gets: nothing, a failure, or success with the name of a bound result if there is one. */
  datatype Reply = NoReply | Failure | Success(name: Option<string>)

  const DESCRIPTOR_FACTORY := "descriptorFactory"

  predicate ServiceFound(a: Access, t: Space, serviceName: string) {
    serviceName == DESCRIPTOR_FACTORY || (a.May(Parse(serviceName), LOOKUP) && FindLink(t, Parse(serviceName)).Ok?)
  }

  predicate ArgFound(t: Space, p: Param) {
    !p.Absolute? && (p.Relative? ==> FindLink(t, Parse(p.serviceName)).Ok?)
  }

  /** The service and every referenced argument are found before the method runs. */
  predicate AllFound(a: Access, t: Space, call: Call) {
    ServiceFound(a, t, call.serviceName) && forall i :: 0 <= i < |call.args| ==> ArgFound(t, call.args[i].param)
  }

  /** What an argument is closed by: its name, or nothing if it is no reference. */
  function TargetOf(arg: Arg): Option<Path> {
    if arg.param.Relative? then Some(Parse(arg.param.serviceName)) else None
  }

  /** What the arguments are closed by, in order. */
  function ArgTargets(args: seq<Arg>): seq<Option<Path>> {
    if args == [] then []
    else
      var last := args[|args| - 1];
      var front := ArgTargets(args[..|args| - 1]);
      if !last.closes then front
      else front + [TargetOf(last)]
  }

  /** All a call is to close, in order: the service itself, then arguments. */
  function Targets(call: Call): seq<Option<Path>> {
    (if call.closesService then [Some(Parse(call.serviceName))] else []) + ArgTargets(call.args)
  }

  predicate CanClose(a: Access, t: Space, target: Option<Path>) {
    target.Some? && a.CanUnbind(t, target.value)
  }

  function CloseOf(target: Option<Path>): Event {
    Closed(target.GetOr([]))
  }

  /** Closing one target after the other until one cannot be closed: whether all were, and what happened. */
  ghost function ClosesMade(a: Access, t: Space, targets: seq<Option<Path>>): (bool, seq<Event>) {
    if targets == [] then (true, [])
    else
      var k := |targets| - 1;
      var (ok, es) := ClosesMade(a, t, targets[..k]);
      if ok && CanClose(a, ApplyAll(t, es), targets[k]) then (true, es + [CloseOf(targets[k])]) else (false, es)
  }

  /** What binding the result comes to; `None` if it is refused. A name that leads somewhere already is taken for bound. */
  ghost function IssueMade(a: Access, t: Space, call: Call): Option<seq<Event>> {
    var n := DynamicName(a.id, call.component);
    if !call.outcome.ReturnedRef? || (a.May(n, LOOKUP) && FindLink(t, n).Ok?) then Some([])
    else if a.CanBind(t, n) then Some([Issued(a.id, n, call.outcome.obj)])
    else None
  }

  function SuccessOf(id: string, call: Call): Reply {
    Success(if call.outcome.ReturnedRef? then Some(Print(DynamicName(id, call.component))) else None)
  }

  /** One invocation: what the client hears and what happens to the tree, told from the tree before it. */
  ghost function Invoked(a: Access, t: Space, call: Call): (Reply, seq<Event>) {
    if !AllFound(a, t, call) || call.outcome.Threw? then (Failure, [])
    else if call.outcome.ThrewIo? then (NoReply, [])
    else if IssueMade(a, t, call).None? then (Failure, [])
    else
      var issued := IssueMade(a, t, call).value;
      var (ok, es) := ClosesMade(a, ApplyAll(t, issued), Targets(call));
      (if ok then SuccessOf(a.id, call) else Failure, issued + es)
  }

  lemma OneMoreClose(a: Access, t: Space, targets: seq<Option<Path>>, target: Option<Path>)
    ensures var (ok, es) := ClosesMade(a, t, targets);
      ClosesMade(a, t, targets + [target]) ==
        if ok && CanClose(a, ApplyAll(t, es), target) then (true, es + [CloseOf(target)]) else (false, es)
  {
    assert (targets + [target])[..|targets|] == targets;
  }

  lemma {:induction false} ClosesFail(a: Access, t: Space, targets: seq<Option<Path>>, k: nat)
    requires k <= |targets| && !ClosesMade(a, t, targets[..k]).0
    ensures ClosesMade(a, t, targets) == ClosesMade(a, t, targets[..k])
  {
    if k < |targets| {
      var front := targets[..|targets| - 1];
      assert front[..k] == targets[..k];
      ClosesFail(a, t, front, k);
    } else {
      assert targets[..k] == targets;
    }
  }

  lemma {:induction false} ClosesInParts(a: Access, t: Space, ts: seq<Option<Path>>, us: seq<Option<Path>>)
    ensures var (ok, es) := ClosesMade(a, t, ts);
      ClosesMade(a, t, ts + us) ==
        if !ok then (false, es) else (ClosesMade(a, ApplyAll(t, es), us).0, es + ClosesMade(a, ApplyAll(t, es), us).1)
  {
    var (ok, es) := ClosesMade(a, t, ts);
    if us == [] {
      assert ts + us == ts && es + [] == es;
    } else {
      var k := |us| - 1;
      ClosesInParts(a, t, ts, us[..k]);
      assert (ts + us)[..|ts + us| - 1] == ts + us[..k];
      if ok {
        var (ok', fs) := ClosesMade(a, ApplyAll(t, es), us[..k]);
        ApplyAppend(t, es, fs);
        Associative(es, fs, [CloseOf(us[k])]);
      }
    }
  }

  // ------------------------------------------------------------ the invoker

  class ServiceInvoker {
    const serviceRegistry: TreeContext

    constructor (serviceRegistry: TreeContext)
      ensures this.serviceRegistry == serviceRegistry
    {
      this.serviceRegistry := serviceRegistry;
    }

    method LookupService(session: ServiceSession, serviceName: string) returns (ok: bool)
      requires session.Valid() && session.context == serviceRegistry && serviceRegistry.Valid()
      modifies serviceRegistry, serviceRegistry.Repr
      ensures serviceRegistry.Valid() && serviceRegistry.Repr <= old(serviceRegistry.Repr)
      ensures serviceRegistry.space == old(serviceRegistry.space)
      ensures ok <==> ServiceFound(session.Rights(), serviceRegistry.space, serviceName)
    {
      if serviceName == DESCRIPTOR_FACTORY {
        return true;
      }
      var r := session.LookupLink(Parse(serviceName));
      return r.Ok?;
    }

    /** `findAndReplaceRefs`: references are looked up in the registry itself, not through the session. */
    method FindAndReplaceRefs(args: seq<Arg>) returns (ok: bool)
      requires serviceRegistry.Valid()
      modifies serviceRegistry, serviceRegistry.Repr
      ensures serviceRegistry.Valid() && serviceRegistry.Repr <= old(serviceRegistry.Repr)
      ensures serviceRegistry.space == old(serviceRegistry.space)
      ensures ok <==> forall i :: 0 <= i < |args| ==> ArgFound(serviceRegistry.space, args[i].param)
    {
      for i := 0 to |args|
        invariant serviceRegistry.Valid() && serviceRegistry.Repr <= old(serviceRegistry.Repr)
        invariant serviceRegistry.space == old(serviceRegistry.space)
        invariant forall j :: 0 <= j < i ==> ArgFound(serviceRegistry.space, args[j].param)
      {
        match args[i].param
        case Plain =>
        case Absolute =>
          assert !ArgFound(serviceRegistry.space, args[i].param);
          return false;
        case Relative(name) =>
          var r := serviceRegistry.LookupLink(Parse(name));
          if r.Error? {
            assert !ArgFound(serviceRegistry.space, args[i].param);
            return false;
          }
      }
      return true;
    }

    /** Binds a result under its name, unless the name leads somewhere already; the text returned is that name printed. */
    method BindDynamicService(session: ServiceSession, call: Call) returns (r: Result<string>, ghost events: seq<Event>)
      requires session.Valid() && session.context == serviceRegistry && serviceRegistry.Valid()
      requires call.outcome.ReturnedRef?
      modifies serviceRegistry, serviceRegistry.Repr
      ensures serviceRegistry.Valid()
      ensures forall h :: h in serviceRegistry.Repr ==> h in old(serviceRegistry.Repr) || fresh(h)
      ensures r.Ok? <==> IssueMade(session.Rights(), old(serviceRegistry.space), call).Some?
      ensures r.Ok? ==> r.value == Print(DynamicName(session.id, call.component))
      ensures events == IssueMade(session.Rights(), old(serviceRegistry.space), call).GetOr([])
      ensures serviceRegistry.space == ApplyAll(old(serviceRegistry.space), events)
    {
      var name := DynamicName(session.id, call.component);
      events := [];
      var found := session.LookupLink(name);
      assert found.Ok? <==> AbsResult(found).Ok?;
      if found.Error? {
        var bound := session.Bind(name, call.outcome.obj);
        if bound.Error? {
          return Error(bound.error), [];
        }
        events := [Issued(session.id, name, call.outcome.obj)];
        assert events[..0] == [];
      }
      var text := Render(name);
      r := Ok(text);
    }

    /** Closes the arguments one after the other, until one cannot be closed. */
    method CloseArgs(session: ServiceSession, args: seq<Arg>) returns (ok: bool, ghost events: seq<Event>)
      requires session.Valid() && session.context == serviceRegistry && serviceRegistry.Valid()
      modifies serviceRegistry, serviceRegistry.Repr
      ensures serviceRegistry.Valid() && serviceRegistry.Repr <= old(serviceRegistry.Repr)
      ensures serviceRegistry.space == ApplyAll(old(serviceRegistry.space), events)
      ensures (ok, events) == ClosesMade(session.Rights(), old(serviceRegistry.space), ArgTargets(args))
    {
      events := [];
      ghost var a, t := session.Rights(), serviceRegistry.space;
      for i := 0 to |args|
        invariant serviceRegistry.Valid() && serviceRegistry.Repr <= old(serviceRegistry.Repr)
        invariant serviceRegistry.space == ApplyAll(t, events)
        invariant ClosesMade(a, t, ArgTargets(args[..i])) == (true, events)
      {
        ClosesNext(a, t, args, i, events, TargetOf(args[i]));
        if args[i].closes {
          if !args[i].param.Relative? {
            return false, events;
          }
          var name := Parse(args[i].param.serviceName);
          var r := session.Unbind(name);
          if r.Error? {
            return false, events;
          }
          ApplyOne(t, events, Closed(name));
          events := events + [Closed(name)];
        }
      }
      assert args[..|args|] == args;
      ok := true;
    }

    /** `invoke`: does to the tree, and answers, as `Invoked` says. */
    method Invoke(session: ServiceSession, call: Call) returns (r: Reply, ghost events: seq<Event>)
      requires session.Valid() && session.context == serviceRegistry && serviceRegistry.Valid()
      modifies serviceRegistry, serviceRegistry.Repr
      ensures serviceRegistry.Valid()
      ensures forall h :: h in serviceRegistry.Repr ==> h in old(serviceRegistry.Repr) || fresh(h)
      ensures (r, events) == Invoked(session.Rights(), old(serviceRegistry.space), call)
      ensures serviceRegistry.space == ApplyAll(old(serviceRegistry.space), events)
      ensures CallDone(call, old(serviceRegistry.space), r, serviceRegistry.space)
    {
      r, events := InvokeMethod(session, call);
      CallIsDone(session.Rights(), old(serviceRegistry.space), call);
    }

    method InvokeMethod(session: ServiceSession, call: Call) returns (r: Reply, ghost events: seq<Event>)
      requires session.Valid() && session.context == serviceRegistry && serviceRegistry.Valid()
      modifies serviceRegistry, serviceRegistry.Repr
      ensures serviceRegistry.Valid()
      ensures forall h :: h in serviceRegistry.Repr ==> h in old(serviceRegistry.Repr) || fresh(h)
      ensures (r, events) == Invoked(session.Rights(), old(serviceRegistry.space), call)
      ensures serviceRegistry.space == ApplyAll(old(serviceRegistry.space), events)
    {
      events := [];
      r := Failure;
      var found := LookupService(session, call.serviceName);
      if !found {
        return;
      }
      found := FindAndReplaceRefs(call.args);
      if !found || call.outcome.Threw? {
        return;
      }
      if call.outcome.ThrewIo? {
        return NoReply, [];
      }
      r, events := Finish(session, call);
    }

    /** What `invokeMethod` does after the method returned. */
    method Finish(session: ServiceSession, call: Call) returns (r: Reply, ghost events: seq<Event>)
      requires session.Valid() && session.context == serviceRegistry && serviceRegistry.Valid()
      requires AllFound(session.Rights(), serviceRegistry.space, call) && !call.outcome.Threw? && !call.outcome.ThrewIo?
      modifies serviceRegistry, serviceRegistry.Repr
      ensures serviceRegistry.Valid()
      ensures forall h :: h in serviceRegistry.Repr ==> h in old(serviceRegistry.Repr) || fresh(h)
      ensures (r, events) == Invoked(session.Rights(), old(serviceRegistry.space), call)
      ensures serviceRegistry.space == ApplyAll(old(serviceRegistry.space), events)
    {
      events := [];
      r := Success(None);
      if call.outcome.ReturnedRef? {
        var bound;
        bound, events := BindDynamicService(session, call);
        if bound.Error? {
          return Failure, events;
        }
        r := Success(Some(bound.value));
      }
      ghost var issued := events;
      var closed, more := CloseAll(session, call);
      ApplyAppend(old(serviceRegistry.space), issued, more);
      events := issued + more;
      if !closed {
        r := Failure;
      }
    }

    /** The service itself, if the method closes it, and then the arguments it closes. */
    method CloseAll(session: ServiceSession, call: Call) returns (ok: bool, ghost events: seq<Event>)
      requires session.Valid() && session.context == serviceRegistry && serviceRegistry.Valid()
      modifies serviceRegistry, serviceRegistry.Repr
      ensures serviceRegistry.Valid() && serviceRegistry.Repr <= old(serviceRegistry.Repr)
      ensures serviceRegistry.space == ApplyAll(old(serviceRegistry.space), events)
      ensures (ok, events) == ClosesMade(session.Rights(), old(serviceRegistry.space), Targets(call))
    {
      ghost var a, t := session.Rights(), serviceRegistry.space;
      ghost var first: seq<Event> := [];
      if call.closesService {
        var name := Parse(call.serviceName);
        ghost var own := [Some(name)];
        assert own[..0] == [] && ClosesMade(a, t, own[..0]) == (true, []);
        ClosesInParts(a, t, own, ArgTargets(call.args));
        var r := session.Unbind(name);
        if r.Error? {
          return false, [];
        }
        first := [Closed(name)];
        assert first[..0] == [] && ClosesMade(a, t, own) == (true, first);
      } else {
        ClosesInParts(a, t, [], ArgTargets(call.args));
      }
      ghost var more;
      ok, more := CloseArgs(session, call.args);
      ApplyAppend(t, first, more);
      events := first + more;
    }

    method TakeStep(step: Step) returns (r: Option<Reply>, ghost events: seq<Event>)
      requires step.session.Valid() && step.session.context == serviceRegistry && serviceRegistry.Valid()
      modifies serviceRegistry, serviceRegistry.Repr
      ensures serviceRegistry.Valid()
      ensures forall h :: h in serviceRegistry.Repr ==> h in old(serviceRegistry.Repr) || fresh(h)
      ensures (r, events) == StepMade(old(serviceRegistry.space), step)
      ensures serviceRegistry.space == ApplyAll(old(serviceRegistry.space), events)
    {
      match step
      case Invocation(session, call) =>
        var reply;
        reply, events := Invoke(session, call);
        r := Some(reply);
      case Invalidation(session) =>
        session.Invalidate();
        r, events := None, [Invalidated(session.id)];
        assert events[..0] == [];
    }

    /**
      Any run of invocations and invalidations by any sessions: the tree and the
      replies are those of the history the tree before it determines. From a tree
      with nothing in the session domain, and with fresh components, each session
      then holds exactly its ledger in that history.
    */
    method RunAll(steps: seq<Step>) returns (replies: seq<Option<Reply>>)
      requires serviceRegistry.Valid()
      requires forall i :: 0 <= i < |steps| ==> steps[i].session.Valid() && steps[i].session.context == serviceRegistry
      modifies serviceRegistry, serviceRegistry.Repr
      ensures serviceRegistry.Valid()
      ensures replies == Replies(old(serviceRegistry.space), steps)
      ensures serviceRegistry.space == ApplyAll(old(serviceRegistry.space), History(old(serviceRegistry.space), steps))
      ensures CallsDone(old(serviceRegistry.space), steps, replies)
      ensures NoSessions(old(serviceRegistry.space)) && DistinctComponents(steps) ==>
        HoldsLedger(serviceRegistry.space, History(old(serviceRegistry.space), steps))
    {
      ghost var t := serviceRegistry.space;
      replies := [];
      for i := 0 to |steps|
        invariant serviceRegistry.Valid()
        invariant forall h :: h in serviceRegistry.Repr ==> h in old(serviceRegistry.Repr) || fresh(h)
        invariant serviceRegistry.space == ApplyAll(t, History(t, steps[..i]))
        invariant replies == Replies(t, steps[..i])
      {
        HistoryNext(t, steps, i);
        var r, more := TakeStep(steps[i]);
        ApplyAppend(t, History(t, steps[..i]), more);
        replies := replies + [r];
      }
      assert steps[..|steps|] == steps;
      CallsAreDone(t, steps);
      if NoSessions(t) && DistinctComponents(steps) {
        LedgerOfRun(t, steps);
      }
    }
  }

  /** One target further: closed, or the end of it all. */
  lemma NextTarget(a: Access, t: Space, ts: seq<Option<Path>>, target: Option<Path>, all: seq<Option<Path>>, events: seq<Event>)
    requires ts + [target] <= all && ClosesMade(a, t, ts) == (true, events)
    ensures if CanClose(a, ApplyAll(t, events), target)
            then ClosesMade(a, t, ts + [target]) == (true, events + [CloseOf(target)])
            else ClosesMade(a, t, all) == (false, events)
  {
    OneMoreClose(a, t, ts, target);
    if !CanClose(a, ApplyAll(t, events), target) {
      assert all[..|ts| + 1] == ts + [target];
      ClosesFail(a, t, all, |ts| + 1);
    }
  }

  lemma ApplyNone(t: Space)
    ensures ApplyAll(t, []) == t
  {
  }

  lemma ApplyOne(t: Space, es: seq<Event>, e: Event)
    ensures ApplyAll(t, es + [e]) == Apply(ApplyAll(t, es), e)
  {
    assert (es + [e])[..|es|] == es;
  }

  lemma ClosesNext(a: Access, t: Space, args: seq<Arg>, i: nat, events: seq<Event>, target: Option<Path>)
    requires i < |args| && ClosesMade(a, t, ArgTargets(args[..i])) == (true, events) && target == TargetOf(args[i])
    ensures !args[i].closes ==> ArgTargets(args[..i + 1]) == ArgTargets(args[..i])
    ensures args[i].closes && !CanClose(a, ApplyAll(t, events), target) ==> ClosesMade(a, t, ArgTargets(args)) == (false, events)
    ensures args[i].closes && CanClose(a, ApplyAll(t, events), target) ==>
      ClosesMade(a, t, ArgTargets(args[..i + 1])) == (true, events + [CloseOf(target)])
  {
    ArgTargetsNext(args, i);
    if args[i].closes {
      NextTarget(a, t, ArgTargets(args[..i]), target, ArgTargets(args), events);
    }
  }

  lemma {:induction false} ArgTargetsNext(args: seq<Arg>, i: nat)
    requires i < |args|
    ensures var ts, last := ArgTargets(args[..i]), args[i];
      ArgTargets(args[..i + 1]) ==
        if !last.closes then ts else ts + [TargetOf(last)]
    ensures ArgTargets(args[..i + 1]) <= ArgTargets(args)
    decreases |args|
  {
    assert args[..i + 1][..i] == args[..i];
    var k := |args| - 1;
    if i < k {
      ArgTargetsNext(args[..k], i);
      assert args[..k][..i + 1] == args[..i + 1];
    } else {
      assert args[..i + 1] == args;
    }
  }

  // ------------------------------------------------------------------- runs

  datatype Step = Invocation(session: ServiceSession, call: Call) | Invalidation(session: ServiceSession) {
    function Name(): Path
      requires Invocation?
    {
      DynamicName(session.id, call.component)
    }
  }

  ghost function StepMade(t: Space, step: Step): (Option<Reply>, seq<Event>) {
    match step
    case Invocation(session, call) => var (r, es) := Invoked(session.Rights(), t, call); (Some(r), es)
    case Invalidation(session) => (None, [Invalidated(session.id)])
  }

  /** All that happens in a run that starts from `t`, each step on the tree the steps before it left. */
  ghost function History(t: Space, steps: seq<Step>): seq<Event> {
    if steps == [] then []
    else
      var k := |steps| - 1;
      var before := History(t, steps[..k]);
      before + StepMade(ApplyAll(t, before), steps[k]).1
  }

  ghost function Replies(t: Space, steps: seq<Step>): (rs: seq<Option<Reply>>)
    ensures |rs| == |steps|
  {
    if steps == [] then []
    else
      var k := |steps| - 1;
      Replies(t, steps[..k]) + [StepMade(ApplyAll(t, History(t, steps[..k])), steps[k]).0]
  }

  lemma HistoryNext(t: Space, steps: seq<Step>, i: nat)
    requires i < |steps|
    ensures var before := History(t, steps[..i]);
      && History(t, steps[..i + 1]) == before + StepMade(ApplyAll(t, before), steps[i]).1
      && Replies(t, steps[..i + 1]) == Replies(t, steps[..i]) + [StepMade(ApplyAll(t, before), steps[i]).0]
  {
    assert steps[..i + 1][..i] == steps[..i];
  }

  /** Universally unique ids: no two calls get the same component. */
  ghost predicate DistinctComponents(steps: seq<Step>) {
    forall i, j :: 0 <= i < j < |steps| && steps[i].Invocation? && steps[j].Invocation? ==>
      steps[i].call.component != steps[j].call.component
  }

  ghost predicate NoSessions(t: Space) {
    forall n :: n in t ==> !([SESSION_DOMAIN] <= n)
  }

  /** What is bound inside a session is what is live in it, with the object issued. */
  ghost predicate HoldsLedger(t: Space, es: seq<Event>) {
    && (forall id, n :: Inside(id, n) ==> (n in t <==> exists obj :: Live(es, id, n, obj)))
    && (forall id, n, obj :: Inside(id, n) && Live(es, id, n, obj) ==> n in t && t[n] == Leaf(obj))
  }

  /** A step issues one name at most, its own and first of all it does. */
  ghost predicate IssuesOnly(step: Step, es: seq<Event>) {
    forall k :: 0 <= k < |es| && es[k].Issued? ==>
      k == 0 && step.Invocation? && step.call.outcome.ReturnedRef? && es[k] == Issued(step.session.id, step.Name(), step.call.outcome.obj)
  }

  /** Closes of names that the session may unbind. */
  ghost predicate OnlyCloses(a: Access, es: seq<Event>) {
    forall k :: 0 <= k < |es| ==> es[k].Closed? && a.May(es[k].name, UNBIND)
  }

  lemma CloseIsAllowed(a: Access, t: Space, target: Option<Path>)
    requires CanClose(a, t, target)
    ensures a.May(CloseOf(target).name, UNBIND)
  {
  }

  lemma {:induction false} ClosesIssueNothing(a: Access, t: Space, targets: seq<Option<Path>>)
    ensures OnlyCloses(a, ClosesMade(a, t, targets).1)
  {
    hide CanClose, ApplyAll, Access.May;
    if targets != [] {
      var k := |targets| - 1;
      var (ok, es) := ClosesMade(a, t, targets[..k]);
      ClosesIssueNothing(a, t, targets[..k]);
      assert targets == targets[..k] + [targets[k]];
      OneMoreClose(a, t, targets[..k], targets[k]);
      if ok && CanClose(a, ApplyAll(t, es), targets[k]) {
        CloseIsAllowed(a, ApplyAll(t, es), targets[k]);
      }
    }
  }

  lemma OnlyFirstIssues(a: Access, issued: seq<Event>, e: Event, es: seq<Event>)
    requires issued == [] || issued == [e]
    requires OnlyCloses(a, es)
    ensures forall k :: 0 <= k < |issued + es| && (issued + es)[k].Issued? ==> k == 0 && issued == [e] && (issued + es)[k] == e
  {
  }

  lemma InvokedIssues(a: Access, t: Space, call: Call)
    ensures var es := Invoked(a, t, call).1;
      forall k :: 0 <= k < |es| && es[k].Issued? ==>
        k == 0 && call.outcome.ReturnedRef? && es[k] == Issued(a.id, DynamicName(a.id, call.component), call.outcome.obj)
  {
    if Invoked(a, t, call).1 != [] {
      var issued := IssueMade(a, t, call).value;
      ClosesIssueNothing(a, ApplyAll(t, issued), Targets(call));
      var es := ClosesMade(a, ApplyAll(t, issued), Targets(call)).1;
      var e := if issued != [] then issued[0] else Closed([]);
      OnlyFirstIssues(a, issued, e, es);
    }
  }

  lemma StepIssuesOnly(t: Space, step: Step)
    ensures IssuesOnly(step, StepMade(t, step).1)
  {
    if step.Invocation? {
      InvokedIssues(step.session.Rights(), t, step.call);
    }
  }

  /** Every issued name belongs to a call of the run. */
  ghost predicate IssuedIn(steps: seq<Step>, es: seq<Event>) {
    forall m :: 0 <= m < |es| && es[m].Issued? ==> NamedIn(steps, es[m].name)
  }

  ghost predicate NamedIn(steps: seq<Step>, n: Path) {
    exists j :: 0 <= j < |steps| && steps[j].Invocation? && steps[j].Name() == n
  }

  /** The name the next call would bind is not bound, and was never issued. */
  lemma NextIsFresh(t: Space, steps: seq<Step>, i: nat, es: seq<Event>)
    requires i < |steps| && DistinctComponents(steps) && NoSessions(t)
    requires FreshNames(t, es) && IssuedIn(steps[..i], es)
    ensures steps[i].Invocation? ==> steps[i].Name() !in t && steps[i].Name() !in ApplyAll(t, es)
    ensures steps[i].Invocation? ==> forall m :: 0 <= m < |es| && es[m].Issued? ==> es[m].name != steps[i].Name()
  {
    if steps[i].Invocation? {
      var n := steps[i].Name();
      forall m | 0 <= m < |es| && es[m].Issued?
        ensures es[m].name != n
      {
        var j :| 0 <= j < i && steps[..i][j].Invocation? && steps[..i][j].Name() == es[m].name;
        assert steps[j].Name()[2] == steps[j].call.component && n[2] == steps[i].call.component;
      }
      BoundIsLive(t, es, steps[i].session.id, n);
    }
  }

  lemma FreshAppend(t: Space, es: seq<Event>, e: Event)
    requires FreshNames(t, es)
    requires e.Issued? ==> e.name !in t && exists c :: e.name == DynamicName(e.sessionId, c)
    requires e.Issued? ==> forall j :: 0 <= j < |es| && es[j].Issued? ==> es[j].name != e.name
    ensures FreshNames(t, es + [e])
  {
    var fs := es + [e];
    forall i | 0 <= i < |fs| && fs[i].Issued?
      ensures fs[i].name !in t
      ensures exists c :: fs[i].name == DynamicName(fs[i].sessionId, c)
      ensures forall j :: 0 <= j < i && fs[j].Issued? ==> fs[j].name != fs[i].name
    {
      assert i < |es| ==> fs[i] == es[i];
    }
  }

  lemma IssuedInMore(steps: seq<Step>, i: nat, es: seq<Event>)
    requires i < |steps| && IssuedIn(steps[..i], es)
    ensures IssuedIn(steps[..i + 1], es)
  {
    forall m | 0 <= m < |es| && es[m].Issued?
      ensures NamedIn(steps[..i + 1], es[m].name)
    {
      var j :| 0 <= j < i && steps[..i][j].Invocation? && steps[..i][j].Name() == es[m].name;
      assert steps[..i + 1][j] == steps[..i][j];
    }
  }

  lemma {:induction false} StepIsFresh(t: Space, steps: seq<Step>, i: nat, es: seq<Event>, more: seq<Event>)
    requires i < |steps| && FreshNames(t, es) && IssuedIn(steps[..i], es)
    requires steps[i].Invocation? ==> steps[i].Name() !in t
    requires steps[i].Invocation? ==> forall m :: 0 <= m < |es| && es[m].Issued? ==> es[m].name != steps[i].Name()
    requires IssuesOnly(steps[i], more)
    ensures FreshNames(t, es + more) && IssuedIn(steps[..i + 1], es + more)
    decreases |more|
  {
    if more == [] {
      assert es + more == es;
      IssuedInMore(steps, i, es);
    } else {
      var k := |more| - 1;
      var e := more[k];
      StepIsFresh(t, steps, i, es, more[..k]);
      if e.Issued? {
        assert k == 0 && es + more[..k] == es && e.name == steps[i].Name();
        assert steps[..i + 1][i].Name() == steps[i].Name();
      }
      FreshAppend(t, es + more[..k], e);
      assert es + more == es + more[..k] + [e];
    }
  }

  lemma FreshNext(t: Space, steps: seq<Step>, i: nat, es: seq<Event>)
    requires i < |steps| && NoSessions(t) && DistinctComponents(steps)
    requires FreshNames(t, es) && IssuedIn(steps[..i], es)
    ensures var more := StepMade(ApplyAll(t, es), steps[i]).1;
      FreshNames(t, es + more) && IssuedIn(steps[..i + 1], es + more)
  {
    NextIsFresh(t, steps, i, es);
    StepIssuesOnly(ApplyAll(t, es), steps[i]);
    StepIsFresh(t, steps, i, es, StepMade(ApplyAll(t, es), steps[i]).1);
  }

  lemma {:induction false} HistoryIsFresh(t: Space, steps: seq<Step>)
    requires NoSessions(t) && DistinctComponents(steps)
    ensures FreshNames(t, History(t, steps)) && IssuedIn(steps, History(t, steps))
    decreases |steps|
  {
    if steps != [] {
      var k := |steps| - 1;
      HistoryIsFresh(t, steps[..k]);
      FreshNext(t, steps, k, History(t, steps[..k]));
      assert steps[..k + 1] == steps;
    }
  }

  /** Over every run of any sessions, what is bound inside a session is what was issued to it less what was closed since. */
  lemma LedgerOfRun(t: Space, steps: seq<Step>)
    requires NoSessions(t) && DistinctComponents(steps)
    ensures HoldsLedger(ApplyAll(t, History(t, steps)), History(t, steps))
  {
    var es := History(t, steps);
    HistoryIsFresh(t, steps);
    forall id, n | Inside(id, n)
      ensures n in ApplyAll(t, es) <==> exists obj :: Live(es, id, n, obj)
      ensures forall obj :: Live(es, id, n, obj) ==> n in ApplyAll(t, es) && ApplyAll(t, es)[n] == Leaf(obj)
    {
      BoundIsLive(t, es, id, n);
    }
  }

  /**
    The name a client is given leads back to the bound object for as long as that
    is live, provided the session id and the component are free of slashes; if
    they are not, the name does not even parse to the path that was bound.
  */
  lemma NameLeadsBack(t: Space, id: string, component: string, obj: Object)
    requires PrefixClosed(t) && obj.Service?
    requires DynamicName(id, component) in t && t[DynamicName(id, component)] == Leaf(obj)
    ensures SlashFree(id) && SlashFree(component) && component != "" ==>
      FindLink(t, Parse(Print(DynamicName(id, component)))) == Ok(Leaf(obj))
    ensures !(SlashFree(id) && SlashFree(component) && component != "") ==>
      Parse(Print(DynamicName(id, component))) != DynamicName(id, component)
  {
    var n := DynamicName(id, component);
    ParsePrint(n);
    FindBound(t, n);
    assert n[0] == SESSION_DOMAIN && n[1] == id && n[2] == component;
    assert SlashFree(SESSION_DOMAIN);
  }

  /** Events that end nothing but what the rules let session `id` end. */
  ghost predicate SparesOthers(id: string, es: seq<Event>) {
    forall i :: 0 <= i < |es| ==>
      match es[i]
      case Issued(_, _, _) => true
      case Closed(c) => Allows(SessionRules(id), c, UNBIND)
      case Invalidated(s) => s == id
  }

  /** Closing or sweeping away what is in one session leaves what is live in another. */
  lemma OthersStayLive(es: seq<Event>, more: seq<Event>, id: string, other: string, n: Path, obj: Object)
    requires id != other && Inside(other, n) && SparesOthers(id, more)
    ensures Live(es, other, n, obj) ==> Live(es + more, other, n, obj)
    decreases |more|
  {
    if more == [] {
      assert es + more == es;
    } else {
      var k := |more| - 1;
      var e := more[k];
      OthersStayLive(es, more[..k], id, other, n, obj);
      assert es + more == es + more[..k] + [e];
      LiveGrows(es + more[..k], e, other, n, obj);
      match e
      case Issued(_, _, _) =>
      case Closed(c) =>
        SessionMayTouch(id, c, UNBIND);
        OutOfReach(id, other, c, n);
      case Invalidated(_) =>
        OutOfReach(id, other, SessionName(id), n);
    }
  }

  // -------------------------------------------------- what every run keeps

  /** Everything above a dynamic name, as far as it is there, is a context. */
  ghost predicate SessionsOpen(t: Space) {
    PrefixClosed(t) && forall n :: n in t && [SESSION_DOMAIN] <= n && |n| < 3 ==> t[n] == Context
  }

  /** Nothing is in the way of a dynamic name; a strict registry has to hold the session's context already. */
  lemma NothingInTheWay(t: Space, id: string, component: string, strict: bool)
    requires SessionsOpen(t)
    ensures WalkError(t, DynamicName(id, component), 0, strict).Ok? <==> !strict || SessionName(id) in t
  {
    var n := DynamicName(id, component);
    WalkSucceeds(t, n, 0, strict);
    assert n[..1] == [SESSION_DOMAIN] && n[..2] == SessionName(id);
    if SessionName(id) in t {
      assert Front(SessionName(id)) == [SESSION_DOMAIN];
    }
  }

  lemma IssueKeepsOpen(t: Space, id: string, component: string, obj: Object)
    requires SessionsOpen(t) && DynamicName(id, component) !in t
    ensures SessionsOpen(Apply(t, Issued(id, DynamicName(id, component), obj)))
  {
    var n := DynamicName(id, component);
    NothingInTheWay(t, id, component, false);
    BindKeeps(t, n, obj, false, Ok(()), Apply(t, Issued(id, n, obj)));
  }

  lemma CloseKeepsOpen(t: Space, e: Event)
    requires SessionsOpen(t) && !e.Issued?
    ensures SessionsOpen(Apply(t, e))
    ensures NoSessions(t) ==> NoSessions(Apply(t, e))
  {
    if e.Closed? && e.name != [] {
      DroppedIsClosed(t, e.name);
    } else if e.Invalidated? {
      DroppedIsClosed(t, SessionName(e.sessionId));
    }
  }

  lemma {:induction false} ClosesKeepOpen(a: Access, t: Space, es: seq<Event>)
    requires SessionsOpen(t) && OnlyCloses(a, es)
    ensures SessionsOpen(ApplyAll(t, es))
    ensures NoSessions(t) ==> NoSessions(ApplyAll(t, es))
    decreases |es|
  {
    if es != [] {
      var k := |es| - 1;
      ClosesKeepOpen(a, t, es[..k]);
      CloseKeepsOpen(ApplyAll(t, es[..k]), es[k]);
    }
  }

  lemma NotFound(t: Space, n: Path)
    requires PrefixClosed(t) && n != [] && n !in t
    ensures FindLink(t, n).Error?
  {
    FindBound(t, n);
  }

  /** A result is bound, and under a fresh name, unless the registry is strict and has no context for the session. */
  lemma IssueOpen(a: Access, t: Space, call: Call)
    requires SessionsOpen(t) && DynamicName(a.id, call.component) !in t && call.outcome.ReturnedRef?
    ensures IssueMade(a, t, call) ==
      if a.strict && SessionName(a.id) !in t then None
      else Some([Issued(a.id, DynamicName(a.id, call.component), call.outcome.obj)])
  {
    var n := DynamicName(a.id, call.component);
    NotFound(t, n);
    SessionMayTouch(a.id, n, BIND);
    NothingInTheWay(t, a.id, call.component, a.strict);
  }

  lemma InvokedKeepsOpen(a: Access, t: Space, call: Call)
    requires SessionsOpen(t) && DynamicName(a.id, call.component) !in t
    ensures SessionsOpen(ApplyAll(t, Invoked(a, t, call).1))
    ensures a.strict && NoSessions(t) ==> NoSessions(ApplyAll(t, Invoked(a, t, call).1))
  {
    if call.outcome.ReturnedRef? {
      IssueOpen(a, t, call);
    }
    if Invoked(a, t, call).1 != [] {
      var issued := IssueMade(a, t, call).value;
      if issued != [] {
        ApplyOne(t, [], issued[0]);
        assert [] + issued == issued;
        IssueKeepsOpen(t, a.id, call.component, call.outcome.obj);
      }
      var u := ApplyAll(t, issued);
      var es := ClosesMade(a, u, Targets(call)).1;
      ClosesIssueNothing(a, u, Targets(call));
      ClosesKeepOpen(a, u, es);
      ApplyAppend(t, issued, es);
    }
  }

  lemma StepKeepsOpen(t: Space, step: Step)
    requires SessionsOpen(t) && (step.Invocation? ==> step.Name() !in t)
    ensures SessionsOpen(ApplyAll(t, StepMade(t, step).1))
    ensures step.session.Rights().strict && NoSessions(t) ==> NoSessions(ApplyAll(t, StepMade(t, step).1))
  {
    match step
    case Invocation(session, call) => InvokedKeepsOpen(session.Rights(), t, call);
    case Invalidation(session) =>
      ApplyOne(t, [], Invalidated(session.id));
      CloseKeepsOpen(t, Invalidated(session.id));
      assert [] + [Invalidated(session.id)] == [Invalidated(session.id)];
  }

  /** The tree when step `i` of a run is taken. */
  ghost function Before(t: Space, steps: seq<Step>, i: nat): Space
    requires i <= |steps|
  {
    ApplyAll(t, History(t, steps[..i]))
  }

  lemma NextNameIsFree(t: Space, steps: seq<Step>, i: nat)
    requires i < |steps| && NoSessions(t) && DistinctComponents(steps) && steps[i].Invocation?
    ensures steps[i].Name() !in Before(t, steps, i)
  {
    hide NoSessions, FreshNames, IssuedIn, History, ApplyAll;
    DistinctFront(steps, i);
    HistoryIsFresh(t, steps[..i]);
    NextIsFresh(t, steps, i, History(t, steps[..i]));
  }

  lemma DistinctFront(steps: seq<Step>, i: nat)
    requires i <= |steps| && DistinctComponents(steps)
    ensures DistinctComponents(steps[..i])
  {
  }

  lemma BeforeNext(t: Space, steps: seq<Step>, i: nat)
    requires i < |steps|
    ensures Before(t, steps, i + 1) == ApplyAll(Before(t, steps, i), StepMade(Before(t, steps, i), steps[i]).1)
  {
    hide StepMade, ApplyAll, History;
    HistoryNext(t, steps, i);
    ApplyAppend(t, History(t, steps[..i]), StepMade(Before(t, steps, i), steps[i]).1);
  }

  lemma {:induction false} RunKeepsOpen(t: Space, steps: seq<Step>, i: nat)
    requires i <= |steps| && PrefixClosed(t) && NoSessions(t) && DistinctComponents(steps)
    ensures SessionsOpen(Before(t, steps, i))
    ensures (forall j :: 0 <= j < i ==> steps[j].session.Rights().strict) ==> NoSessions(Before(t, steps, i))
  {
    hide StepMade, ApplyAll, DistinctComponents;
    if i > 0 {
      RunKeepsOpen(t, steps, i - 1);
      if steps[i - 1].Invocation? {
        NextNameIsFree(t, steps, i - 1);
      }
      StepKeepsOpen(Before(t, steps, i - 1), steps[i - 1]);
      BeforeNext(t, steps, i - 1);
    } else {
      NothingHappened(t, steps);
    }
  }

  lemma NothingHappened(t: Space, steps: seq<Step>)
    ensures Before(t, steps, 0) == t
  {
  }

  /**
    In any run from a tree without sessions, a call that returns a reference has
    it bound exactly when all it mentions is found and the registry is not strict:
    a strict one never gets a context to bind it in.
  */
  lemma RefsAreBoundIff(t: Space, steps: seq<Step>, i: nat, strict: bool)
    requires PrefixClosed(t) && NoSessions(t) && DistinctComponents(steps)
    requires forall j :: 0 <= j < |steps| ==> steps[j].session.Rights().strict == strict
    requires i < |steps| && steps[i].Invocation? && steps[i].call.outcome.ReturnedRef?
    ensures var es := StepMade(Before(t, steps, i), steps[i]).1;
      es != [] && es[0] == Issued(steps[i].session.id, steps[i].Name(), steps[i].call.outcome.obj) <==>
        AllFound(steps[i].session.Rights(), Before(t, steps, i), steps[i].call) && !strict
  {
    var a, call, u := steps[i].session.Rights(), steps[i].call, Before(t, steps, i);
    RunKeepsOpen(t, steps, i);
    NextNameIsFree(t, steps, i);
    IssueOpen(a, u, call);
    if Invoked(a, u, call).1 != [] {
      ClosesIssueNothing(a, ApplyAll(u, IssueMade(a, u, call).value), Targets(call));
    }
  }

  lemma {:induction false} ReplyInRun(t: Space, steps: seq<Step>, i: nat)
    requires i < |steps|
    ensures Replies(t, steps)[i] == StepMade(Before(t, steps, i), steps[i]).0
    decreases |steps|
  {
    hide StepMade;
    var k := |steps| - 1;
    if i < k {
      ReplyInRun(t, steps[..k], i);
      assert steps[..k][..i] == steps[..i];
    }
  }

  lemma {:induction false} HistoryGrows(t: Space, steps: seq<Step>, i: nat)
    requires i <= |steps|
    ensures History(t, steps[..i]) <= History(t, steps)
    decreases |steps|
  {
    hide StepMade;
    var k := |steps| - 1;
    if i <= k {
      HistoryGrows(t, steps[..k], i);
      assert steps[..k][..i] == steps[..i];
    } else {
      assert steps[..i] == steps;
    }
  }

  /** A call that answers with a name has just bound its result under it. */
  lemma ReturnedWasIssued(t: Space, steps: seq<Step>, i: nat)
    requires PrefixClosed(t) && NoSessions(t) && DistinctComponents(steps)
    requires i < |steps| && steps[i].Invocation? && steps[i].call.outcome.ReturnedRef?
    requires Replies(t, steps)[i] != Some(Failure)
    ensures Replies(t, steps)[i] == Some(Success(Some(Print(steps[i].Name()))))
    ensures var es := StepMade(Before(t, steps, i), steps[i]).1;
      es != [] && es[0] == Issued(steps[i].session.id, steps[i].Name(), steps[i].call.outcome.obj)
  {
    hide Print, ClosesMade, AllFound;
    ReplyInRun(t, steps, i);
    RunKeepsOpen(t, steps, i);
    NextNameIsFree(t, steps, i);
    IssueOpen(steps[i].session.Rights(), Before(t, steps, i), steps[i].call);
  }

  lemma IssuedInRun(t: Space, steps: seq<Step>, i: nat, e: Event)
    requires i < |steps|
    requires var es := StepMade(Before(t, steps, i), steps[i]).1; es != [] && es[0] == e
    ensures e in History(t, steps)
  {
    hide StepMade;
    HistoryNext(t, steps, i);
    HistoryGrows(t, steps, i + 1);
    var before, made := History(t, steps[..i]), StepMade(Before(t, steps, i), steps[i]).1;
    assert History(t, steps)[|before|] == (before + made)[|before|] == made[0];
  }

  /** What is live in a run is found by its name as text. */
  lemma LiveLeadsBack(t: Space, steps: seq<Step>, id: string, component: string, obj: Object)
    requires PrefixClosed(t) && NoSessions(t) && DistinctComponents(steps)
    requires SlashFree(id) && SlashFree(component) && component != "" && obj.Service?
    requires Live(History(t, steps), id, DynamicName(id, component), obj)
    ensures FindLink(ApplyAll(t, History(t, steps)), Parse(Print(DynamicName(id, component)))) == Ok(Leaf(obj))
  {
    hide Parse, Print, FindLink, History;
    var u, n := ApplyAll(t, History(t, steps)), DynamicName(id, component);
    LedgerOfRun(t, steps);
    RunKeepsOpen(t, steps, |steps|);
    assert steps[..|steps|] == steps;
    assert Inside(id, n);
    NameLeadsBack(u, id, component, obj);
  }

  /** A name given to a client leads back, as text, to the object it was given for, as long as that is live in the run. */
  lemma ReturnedNamesLeadBack(t: Space, steps: seq<Step>, i: nat)
    requires PrefixClosed(t) && NoSessions(t) && DistinctComponents(steps)
    requires i < |steps| && steps[i].Invocation? && steps[i].call.outcome.ReturnedRef? && steps[i].call.outcome.obj.Service?
    requires SlashFree(steps[i].session.id) && SlashFree(steps[i].call.component) && steps[i].call.component != ""
    requires Replies(t, steps)[i] != Some(Failure)
    ensures var text := Print(steps[i].Name()); var obj := steps[i].call.outcome.obj; var es := History(t, steps);
      && Replies(t, steps)[i] == Some(Success(Some(text)))
      && Issued(steps[i].session.id, steps[i].Name(), obj) in es
      && (Live(es, steps[i].session.id, steps[i].Name(), obj) ==> FindLink(ApplyAll(t, es), Parse(text)) == Ok(Leaf(obj)))
  {
    hide Print, Parse, FindLink, History, Replies, StepMade, ApplyAll, Live;
    var session, call := steps[i].session, steps[i].call;
    ReturnedWasIssued(t, steps, i);
    IssuedInRun(t, steps, i, Issued(session.id, steps[i].Name(), call.outcome.obj));
    if Live(History(t, steps), session.id, steps[i].Name(), call.outcome.obj) {
      LiveLeadsBack(t, steps, session.id, call.component, call.outcome.obj);
    }
  }

  // ------------------------------------------------------- the other sessions

  lemma StepSparesOthers(t: Space, step: Step, other: string)
    requires step.session.Rights().secured && step.session.id != other
    ensures SparesOthers(step.session.id, StepMade(t, step).1)
  {
    if step.Invocation? && StepMade(t, step).1 != [] {
      var a := step.session.Rights();
      var issued := IssueMade(a, t, step.call).value;
      ClosesIssueNothing(a, ApplyAll(t, issued), Targets(step.call));
    }
  }

  /** What is live in a session stays live, whatever guarded sessions other than it do in the rest of the run. */
  lemma {:induction false} RunKeepsOthersLive(t: Space, steps: seq<Step>, i: nat, other: string, n: Path, obj: Object)
    requires i <= |steps| && Inside(other, n) && Live(History(t, steps[..i]), other, n, obj)
    requires forall j :: i <= j < |steps| ==> steps[j].session.Rights().secured && steps[j].session.id != other
    ensures Live(History(t, steps), other, n, obj)
    decreases |steps|
  {
    hide StepMade, Live, Inside, SparesOthers, ApplyAll;
    var k := |steps| - 1;
    if i == |steps| {
      assert steps[..i] == steps;
    } else {
      assert steps[..k][..i] == steps[..i];
      RunKeepsOthersLive(t, steps[..k], i, other, n, obj);
      StepSparesOthers(ApplyAll(t, History(t, steps[..k])), steps[k], other);
      OthersStayLive(History(t, steps[..k]), StepMade(ApplyAll(t, History(t, steps[..k])), steps[k]).1, steps[k].session.id, other, n, obj);
    }
  }

  // -------------------------------------------------- what a call closes

  /** The call is to close `n`: it is the service it calls, or one referred to by an argument that closes. */
  predicate Closes(call: Call, n: Path) {
    || (call.closesService && n == Parse(call.serviceName))
    || exists i :: 0 <= i < |call.args| && call.args[i].closes && call.args[i].param.Relative? && n == Parse(call.args[i].param.serviceName)
  }

  predicate ClosesAs(arg: Arg, target: Option<Path>) {
    arg.closes && target == if arg.param.Relative? then Some(Parse(arg.param.serviceName)) else None
  }

  lemma {:induction false} ArgTargetsAre(args: seq<Arg>, target: Option<Path>)
    ensures target in ArgTargets(args) <==> exists i :: 0 <= i < |args| && ClosesAs(args[i], target)
  {
    if args != [] {
      var k := |args| - 1;
      ArgTargetsAre(args[..k], target);
      assert forall i :: 0 <= i < k ==> args[..k][i] == args[i];
    }
  }

  lemma TargetsAreCloses(call: Call, n: Path)
    ensures Some(n) in Targets(call) <==> Closes(call, n)
  {
    ArgTargetsAre(call.args, Some(n));
    if i :| 0 <= i < |call.args| && call.args[i].closes && call.args[i].param.Relative? && n == Parse(call.args[i].param.serviceName) {
      assert ClosesAs(call.args[i], Some(n));
    }
  }

  /** Closing takes away what is at or below a target, and nothing else; if all goes well, all of that. */
  lemma {:induction false} ClosesTakeAway(a: Access, t: Space, targets: seq<Option<Path>>, p: Path)
    ensures var (ok, es) := ClosesMade(a, t, targets); var u := ApplyAll(t, es);
      && (p in u ==> p in t && u[p] == t[p])
      && (p in t && p !in u ==> exists n :: n != [] && Some(n) in targets && n <= p)
      && (ok ==> None !in targets && Some([]) !in targets)
      && (ok ==> forall n :: Some(n) in targets && n <= p ==> p !in u)
  {
    hide Access.CanUnbind;
    if targets != [] {
      var k := |targets| - 1;
      var ts, target := targets[..k], targets[k];
      var (ok, es) := ClosesMade(a, t, ts);
      ClosesTakeAway(a, t, ts, p);
      assert targets == ts + [target];
      OneMoreClose(a, t, ts, target);
      if ok && CanClose(a, ApplyAll(t, es), target) {
        CloseNeedsName(a, ApplyAll(t, es), target);
        ApplyOne(t, es, CloseOf(target));
      }
    }
  }

  lemma CloseNeedsName(a: Access, t: Space, target: Option<Path>)
    requires CanClose(a, t, target)
    ensures target.Some? && target.value != []
  {
  }

  /** What a call makes of the tree before the closes: nothing is lost, and only its own name and what is above that is new. */
  lemma IssueAdds(a: Access, t: Space, call: Call, p: Path)
    requires IssueMade(a, t, call).Some?
    ensures var u := ApplyAll(t, IssueMade(a, t, call).value); var n := DynamicName(a.id, call.component);
      && (p in t ==> p in u && u[p] == t[p])
      && (p in u && p !in t ==> call.outcome.ReturnedRef? && p <= n && u[p] == if p == n then Leaf(call.outcome.obj) else Context)
  {
    var n := DynamicName(a.id, call.component);
    hide FindLink, WalkError;
    if IssueMade(a, t, call).value == [] {
      ApplyNone(t);
    } else {
      var e := Issued(a.id, n, call.outcome.obj);
      ApplyOne(t, [], e);
      assert [] + [e] == [e];
      GrownAdds(t, n, p);
    }
  }

  /**
    What is bound after a call, told from the call alone: only what it closes is
    gone, all of that if it succeeds, and only its result is new.
  */
  lemma CallMeans(a: Access, t: Space, call: Call, p: Path)
    ensures var (r, es) := Invoked(a, t, call); var u := ApplyAll(t, es); var own := DynamicName(a.id, call.component);
      && (p in t && p !in u ==> exists n :: n != [] && Closes(call, n) && n <= p)
      && (p in t && p in u ==> u[p] == t[p])
      && (p in u && p !in t ==> call.outcome.ReturnedRef? && p <= own && u[p] == if p == own then Leaf(call.outcome.obj) else Context)
      && (r.Success? ==> forall n :: Closes(call, n) && n <= p ==> p !in u)
      && (r.Success? ==> forall i :: 0 <= i < |call.args| && call.args[i].closes ==> call.args[i].param.Relative?)
  {
    hide Targets, ClosesMade, AllFound, IssueMade, Closes;
    if Invoked(a, t, call) != (Failure, []) && Invoked(a, t, call) != (NoReply, []) {
      var issued := IssueMade(a, t, call).value;
      var u := ApplyAll(t, issued);
      var es := ClosesMade(a, u, Targets(call)).1;
      IssueAdds(a, t, call, p);
      ClosesTakeAway(a, u, Targets(call), p);
      ApplyAppend(t, issued, es);
      forall n
        ensures Some(n) in Targets(call) <==> Closes(call, n)
      {
        TargetsAreCloses(call, n);
      }
      ClosingArgsAreTargets(call);
    } else {
      ApplyNone(t);
    }
  }

  lemma ClosingArgsAreTargets(call: Call)
    ensures None !in Targets(call) ==> forall i :: 0 <= i < |call.args| && call.args[i].closes ==> call.args[i].param.Relative?
  {
    ArgTargetsAre(call.args, None);
    forall i | None !in Targets(call) && 0 <= i < |call.args| && call.args[i].closes
      ensures call.args[i].param.Relative?
    {
      assert !ClosesAs(call.args[i], None);
    }
  }

  /** Only what the call closes is gone, and all of that if it succeeds. */
  ghost predicate CallDone(call: Call, t: Space, r: Reply, u: Space) {
    && (forall p :: p in t && p !in u ==> exists n :: n != [] && Closes(call, n) && n <= p)
    && (r.Success? ==> forall n, p :: Closes(call, n) && n <= p ==> p !in u)
  }

  lemma CallIsDone(a: Access, t: Space, call: Call)
    ensures var (r, es) := Invoked(a, t, call); CallDone(call, t, r, ApplyAll(t, es))
  {
    hide Invoked, Closes, ApplyAll;
    var (r, es) := Invoked(a, t, call);
    forall p
      ensures p in t && p !in ApplyAll(t, es) ==> exists n :: n != [] && Closes(call, n) && n <= p
      ensures r.Success? ==> forall n :: Closes(call, n) && n <= p ==> p !in ApplyAll(t, es)
    {
      CallMeans(a, t, call, p);
    }
  }

  predicate IsAbsent(t: Space, n: Path) {
    n != [] && n !in t
  }

  predicate RefersToNothing(arg: Arg, t: Space) {
    arg.param.Absolute? || (arg.param.Relative? && IsAbsent(t, Parse(arg.param.serviceName)))
  }

  /** A call that mentions what is not there, or refers to it by an absolute url, fails and does nothing; so does one that throws. */
  lemma MissingRefuses(a: Access, t: Space, call: Call)
    requires PrefixClosed(t)
    requires
      || (call.serviceName != "descriptorFactory" && IsAbsent(t, Parse(call.serviceName)))
      || (exists i :: 0 <= i < |call.args| && RefersToNothing(call.args[i], t))
      || call.outcome.Threw?
    ensures Invoked(a, t, call) == (Failure, [])
  {
    hide Parse, FindLink;
    if call.serviceName != "descriptorFactory" && IsAbsent(t, Parse(call.serviceName)) {
      NotFound(t, Parse(call.serviceName));
    } else if i :| 0 <= i < |call.args| && RefersToNothing(call.args[i], t) {
      if call.args[i].param.Relative? {
        NotFound(t, Parse(call.args[i].param.serviceName));
      }
      assert !ArgFound(t, call.args[i].param);
    }
  }

  /** A context or a service is bound at `n`. */
  predicate IsThere(t: Space, n: Path) {
    n in t && (t[n] == Context || t[n].obj.Service?)
  }

  /** A call whose service and references are there, and that closes nothing but the service, goes through. */
  lemma CallGoesThrough(a: Access, t: Space, call: Call)
    requires PrefixClosed(t) && call.outcome.ReturnedValue?
    requires a.May(Parse(call.serviceName), LOOKUP) && IsThere(t, Parse(call.serviceName))
    requires forall arg :: arg in call.args ==> !arg.closes && (arg.param.Plain? || (arg.param.Relative? && IsThere(t, Parse(arg.param.serviceName))))
    requires call.closesService ==> Parse(call.serviceName) != [] && a.May(Parse(call.serviceName), UNBIND)
    ensures Invoked(a, t, call) == (Success(None), if call.closesService then [Closed(Parse(call.serviceName))] else [])
  {
    hide Parse, FindLink, Find;
    var n := Parse(call.serviceName);
    LinkLeadsOn(t, n);
    forall i | 0 <= i < |call.args|
      ensures ArgFound(t, call.args[i].param)
    {
      assert call.args[i] in call.args;
      if call.args[i].param.Relative? {
        LinkLeadsOn(t, Parse(call.args[i].param.serviceName));
      }
    }
    NoneCloses(call.args);
    ApplyNone(t);
    OneMoreClose(a, t, [], Some(n));
    assert [] + [Some(n)] == [Some(n)] && [] + [Closed(n)] == [Closed(n)];
    assert Targets(call) == if call.closesService then [Some(n)] else [];
  }

  lemma {:induction false} NoneCloses(args: seq<Arg>)
    requires forall arg :: arg in args ==> !arg.closes
    ensures ArgTargets(args) == []
  {
    if args != [] {
      NoneCloses(args[..|args| - 1]);
    }
  }

  /** Of all the call is to close `n` comes first: the service before the arguments, and these in their order. */
  predicate ClosesFirst(call: Call, n: Path) {
    if call.closesService then n == Parse(call.serviceName)
    else exists i :: 0 <= i < |call.args| && ClosesAs(call.args[i], Some(n)) && forall j :: 0 <= j < i ==> !call.args[j].closes
  }

  lemma {:induction false} FirstArgTarget(args: seq<Arg>, i: nat)
    requires i < |args| && args[i].closes && forall j :: 0 <= j < i ==> !args[j].closes
    ensures ArgTargets(args) != [] && ArgTargets(args)[0] == TargetOf(args[i])
  {
    var k := |args| - 1;
    if i < k {
      FirstArgTarget(args[..k], i);
    } else {
      NoneCloses(args[..k]);
    }
  }

  lemma {:induction false} FirstTargetIsClosed(a: Access, t: Space, targets: seq<Option<Path>>, p: Path)
    requires targets != [] && CanClose(a, t, targets[0]) && targets[0].value <= p
    ensures p !in ApplyAll(t, ClosesMade(a, t, targets).1)
  {
    var k := |targets| - 1;
    if k == 0 {
      ApplyNone(t);
      OneMoreClose(a, t, [], targets[0]);
      assert [] + targets == targets && [] + [CloseOf(targets[0])] == [CloseOf(targets[0])];
      ApplyOne(t, [], CloseOf(targets[0]));
    } else {
      FirstTargetIsClosed(a, t, targets[..k], p);
      assert targets == targets[..k] + [targets[k]];
      OneMoreClose(a, t, targets[..k], targets[k]);
      ApplyOne(t, ClosesMade(a, t, targets[..k]).1, CloseOf(targets[k]));
    }
  }

  /** What is to be closed first is closed, if it is bound and may be, whatever becomes of the others. */
  lemma FirstIsClosed(a: Access, t: Space, call: Call, n: Path, p: Path)
    requires AllFound(a, t, call) && call.outcome.ReturnedValue?
    requires ClosesFirst(call, n) && n != [] && n in t && a.May(n, UNBIND) && n <= p
    ensures p !in ApplyAll(t, Invoked(a, t, call).1)
  {
    hide AllFound, Parse, ClosesMade;
    ApplyNone(t);
    assert [] + ClosesMade(a, t, Targets(call)).1 == ClosesMade(a, t, Targets(call)).1;
    assert Targets(call) != [] && Targets(call)[0] == Some(n) by {
      if !call.closesService {
        var i :| 0 <= i < |call.args| && ClosesAs(call.args[i], Some(n)) && forall j :: 0 <= j < i ==> !call.args[j].closes;
        FirstArgTarget(call.args, i);
      }
    }
    FirstTargetIsClosed(a, t, Targets(call), p);
  }

  /** So it is at every step of a run. */
  ghost predicate CallsDone(t: Space, steps: seq<Step>, replies: seq<Option<Reply>>) {
    |replies| == |steps| && forall i :: 0 <= i < |steps| && steps[i].Invocation? ==>
      replies[i].Some? && CallDone(steps[i].call, Before(t, steps, i), replies[i].value, Before(t, steps, i + 1))
  }

  lemma CallsAreDone(t: Space, steps: seq<Step>)
    ensures CallsDone(t, steps, Replies(t, steps)) && Before(t, steps, |steps|) == ApplyAll(t, History(t, steps))
  {
    assert steps[..|steps|] == steps;
    hide Invoked, CallDone, ApplyAll, Replies;
    forall i | 0 <= i < |steps| && steps[i].Invocation?
      ensures Replies(t, steps)[i].Some?
      ensures CallDone(steps[i].call, Before(t, steps, i), Replies(t, steps)[i].value, Before(t, steps, i + 1))
    {
      BeforeNext(t, steps, i);
      ReplyInRun(t, steps, i);
      CallIsDone(steps[i].session.Rights(), Before(t, steps, i), steps[i].call);
    }
  }

  // ------------------------------------------- results that nobody hears of

  /** The tree after the first `k` targets have been closed. */
  ghost function After(t: Space, targets: seq<Option<Path>>, k: nat): Space
    requires k <= |targets|
  {
    if k == 0 then t else Apply(After(t, targets, k - 1), CloseOf(targets[k - 1]))
  }

  /** Each of the first `k` targets can be closed when its turn comes. */
  ghost predicate FirstClose(a: Access, t: Space, targets: seq<Option<Path>>, k: nat)
    requires k <= |targets|
  {
    forall j :: 0 <= j < k ==> CanClose(a, After(t, targets, j), targets[j])
  }

  /** Target `k` is the first that cannot be closed when its turn comes. */
  ghost predicate FailsFirstAt(a: Access, t: Space, targets: seq<Option<Path>>, k: nat) {
    k < |targets| && !CanClose(a, After(t, targets, k), targets[k]) && FirstClose(a, t, targets, k)
  }

  /** None of the first `k` targets is `n` or above it. */
  predicate Spares(targets: seq<Option<Path>>, k: nat, n: Path)
    requires k <= |targets|
  {
    forall j :: 0 <= j < k ==> !Ends(CloseOf(targets[j]), n)
  }

  lemma {:induction false} ClosesOneByOne(a: Access, t: Space, targets: seq<Option<Path>>, k: nat)
    requires k <= |targets|
    ensures ClosesMade(a, t, targets[..k]).0 <==> FirstClose(a, t, targets, k)
    ensures ClosesMade(a, t, targets[..k]).0 ==> ApplyAll(t, ClosesMade(a, t, targets[..k]).1) == After(t, targets, k)
  {
    hide Apply, ApplyAll, CanClose;
    if k > 0 {
      var ts, target, u := targets[..k - 1], targets[k - 1], After(t, targets, k - 1);
      var (ok, es) := ClosesMade(a, t, ts);
      ClosesOneByOne(a, t, targets, k - 1);
      assert targets[..k] == ts + [target];
      OneMoreClose(a, t, ts, target);
      ApplyOne(t, es, CloseOf(target));
      assert FirstClose(a, t, targets, k) <==> FirstClose(a, t, targets, k - 1) && CanClose(a, u, target);
    } else {
      assert targets[..k] == [];
      ApplyNone(t);
    }
  }

  lemma {:induction false} FirstFailure(a: Access, t: Space, targets: seq<Option<Path>>) returns (k: nat)
    requires !ClosesMade(a, t, targets).0
    ensures FailsFirstAt(a, t, targets, k)
    decreases |targets|
  {
    var last := |targets| - 1;
    ClosesOneByOne(a, t, targets, |targets|);
    assert targets[..|targets|] == targets;
    if ClosesMade(a, t, targets[..last]).0 {
      ClosesOneByOne(a, t, targets, last);
      k := last;
    } else {
      k := FirstFailure(a, t, targets[..last]);
      AfterOfPrefix(t, targets, last, k);
      forall j | 0 <= j < k ensures CanClose(a, After(t, targets, j), targets[j]) {
        AfterOfPrefix(t, targets, last, j);
      }
    }
  }

  lemma {:induction false} AfterOfPrefix(t: Space, targets: seq<Option<Path>>, m: nat, k: nat)
    requires k <= m <= |targets|
    ensures After(t, targets[..m], k) == After(t, targets, k)
    decreases k
  {
    if k > 0 {
      AfterOfPrefix(t, targets, m, k - 1);
    }
  }

  /** A run of closes that fails leaves the tree as it was before the target that failed. */
  lemma FailureLeaves(a: Access, t: Space, targets: seq<Option<Path>>, k: nat)
    requires FailsFirstAt(a, t, targets, k)
    ensures !ClosesMade(a, t, targets).0 && ApplyAll(t, ClosesMade(a, t, targets).1) == After(t, targets, k)
  {
    hide Apply, ApplyAll, CanClose;
    ClosesOneByOne(a, t, targets, k);
    var ts := targets[..k];
    assert targets[..k + 1] == ts + [targets[k]];
    OneMoreClose(a, t, ts, targets[k]);
    ClosesFail(a, t, targets, k + 1);
  }

  lemma {:induction false} OutlivesSpares(t: Space, targets: seq<Option<Path>>, k: nat, n: Path)
    requires k <= |targets|
    ensures n in After(t, targets, k) <==> n in t && Spares(targets, k, n)
  {
    if k > 0 {
      OutlivesSpares(t, targets, k - 1, n);
    }
  }

  lemma FailsIff(a: Access, t: Space, targets: seq<Option<Path>>)
    ensures !ClosesMade(a, t, targets).0 <==> exists k :: FailsFirstAt(a, t, targets, k)
  {
    hide Apply, ApplyAll, CanClose;
    if !ClosesMade(a, t, targets).0 {
      var k := FirstFailure(a, t, targets);
    }
    forall k | FailsFirstAt(a, t, targets, k)
      ensures !ClosesMade(a, t, targets).0
    {
      FailureLeaves(a, t, targets, k);
    }
  }

  lemma FailureSpares(a: Access, t: Space, targets: seq<Option<Path>>, k: nat, n: Path)
    requires FailsFirstAt(a, t, targets, k)
    ensures n in ApplyAll(t, ClosesMade(a, t, targets).1) <==> n in t && Spares(targets, k, n)
  {
    hide Apply, ApplyAll, CanClose, ClosesMade;
    FailureLeaves(a, t, targets, k);
    OutlivesSpares(t, targets, k, n);
  }

  /** A call fails and yet leaves its result bound. */
  ghost predicate Leaks(a: Access, t: Space, call: Call) {
    var (r, es) := Invoked(a, t, call);
    r == Failure && DynamicName(a.id, call.component) in ApplyAll(t, es)
  }

  /** The tree as the closes of a call find it, when its result has been bound. */
  ghost function Issuing(a: Access, t: Space, call: Call): Space
    requires call.outcome.ReturnedRef?
  {
    Apply(t, Issued(a.id, DynamicName(a.id, call.component), call.outcome.obj))
  }

  lemma OnlyRefsLeak(a: Access, t: Space, call: Call)
    requires PrefixClosed(t) && DynamicName(a.id, call.component) !in t && !call.outcome.ReturnedRef?
    ensures !Leaks(a, t, call)
  {
    hide Targets, AllFound, ClosesMade;
    if Invoked(a, t, call).1 != [] {
      ClosesBindNothing(a, t, Targets(call), DynamicName(a.id, call.component));
      assert Invoked(a, t, call).1 == [] + ClosesMade(a, t, Targets(call)).1 == ClosesMade(a, t, Targets(call)).1;
    }
  }

  lemma {:induction false} ClosesBindNothing(a: Access, t: Space, targets: seq<Option<Path>>, n: Path)
    requires n !in t
    ensures n !in ApplyAll(t, ClosesMade(a, t, targets).1)
  {
    hide CanClose;
    if targets != [] {
      var k := |targets| - 1;
      ClosesBindNothing(a, t, targets[..k], n);
      assert targets == targets[..k] + [targets[k]];
      OneMoreClose(a, t, targets[..k], targets[k]);
      ApplyOne(t, ClosesMade(a, t, targets[..k]).1, CloseOf(targets[k]));
    }
  }

  /** When the result has been bound, what happens to it is up to the closes. */
  lemma LeaksAfterIssue(a: Access, t: Space, call: Call)
    requires PrefixClosed(t) && DynamicName(a.id, call.component) !in t && call.outcome.ReturnedRef?
    ensures var (ok, es) := ClosesMade(a, Issuing(a, t, call), Targets(call));
      Leaks(a, t, call) <==>
        && AllFound(a, t, call) && a.CanBind(t, DynamicName(a.id, call.component))
        && !ok && DynamicName(a.id, call.component) in ApplyAll(Issuing(a, t, call), es)
  {
    hide Targets, AllFound, ClosesMade, Apply, Access.CanBind, FindLink;
    var n := DynamicName(a.id, call.component);
    var e := Issued(a.id, n, call.outcome.obj);
    var es := ClosesMade(a, Issuing(a, t, call), Targets(call)).1;
    NotFound(t, n);
    ApplyOne(t, [], e);
    assert [] + [e] == [e];
    ApplyAppend(t, [e], es);
  }

  /**
    A result leaks exactly when all the call mentions is found, a reference is
    returned and can be bound, and then something listed cannot be closed when its
    turn comes and nothing closed before it takes the new name along.
  */
  lemma LeaksIff(a: Access, t: Space, call: Call)
    requires PrefixClosed(t) && DynamicName(a.id, call.component) !in t
    ensures var n := DynamicName(a.id, call.component);
      Leaks(a, t, call) <==>
        && AllFound(a, t, call) && call.outcome.ReturnedRef? && a.CanBind(t, n)
        && exists k :: FailsFirstAt(a, Issuing(a, t, call), Targets(call), k) && Spares(Targets(call), k, n)
  {
    hide Leaks, Targets, AllFound, ClosesMade, ApplyAll, Access.CanBind, CanClose, After;
    if !call.outcome.ReturnedRef? {
      OnlyRefsLeak(a, t, call);
    } else {
      var n, u, targets := DynamicName(a.id, call.component), Issuing(a, t, call), Targets(call);
      LeaksAfterIssue(a, t, call);
      FailsIff(a, u, targets);
      forall k | FailsFirstAt(a, u, targets, k)
        ensures n in ApplyAll(u, ClosesMade(a, u, targets).1) <==> Spares(targets, k, n)
      {
        FailureSpares(a, u, targets, k, n);
      }
    }
  }

  const REFERENCE := Arg(Relative("s"), true)

  lemma TwiceTheSame()
    ensures Parse("s") == ["s"] && ArgTargets([REFERENCE, REFERENCE]) == [Some(["s"]), Some(["s"])]
  {
    hide Parse, Print;
    ParsePrint(["s"]);
    SinglePrint("s");
    assert [REFERENCE, REFERENCE][..1] == [REFERENCE] && [REFERENCE][..0] == [];
    assert ArgTargets([REFERENCE]) == [Some(["s"])];
  }

  lemma SinglePrint(c: string)
    ensures Print([c]) == c
  {
  }

  function OneService(): Space {
    map[["s"] := Leaf(Service(0))]
  }

  function CloseTwice(obj: Object): Call {
    Call("s", [REFERENCE, REFERENCE], ReturnedRef(obj), false, "c")
  }

  lemma OneServiceIsOpen()
    ensures SessionsOpen(OneService())
  {
    assert |["s"][0]| != |SESSION_DOMAIN|;
    assert forall n :: n in OneService() ==> n == ["s"];
  }

  lemma TwiceIsFound(a: Access, obj: Object)
    requires a == Access("a", true, false)
    ensures AllFound(a, OneService(), CloseTwice(obj)) && a.CanBind(OneService(), DynamicName("a", "c"))
  {
    hide Parse, Allows, SessionRules;
    TwiceTheSame();
    SessionMayTouch("a", ["s"], LOOKUP);
    SessionMayTouch("a", DynamicName("a", "c"), BIND);
    OneServiceIsOpen();
    NothingInTheWay(OneService(), "a", "c", false);
    assert FindLink(OneService(), ["s"]) == Ok(Leaf(Service(0)));
  }

  lemma TwiceFails(a: Access, obj: Object)
    requires a == Access("a", true, false)
    ensures FailsFirstAt(a, Issuing(a, OneService(), CloseTwice(obj)), [Some(["s"]), Some(["s"])], 1)
  {
    hide Allows, SessionRules, Grown;
    var u, targets := Issuing(a, OneService(), CloseTwice(obj)), [Some(["s"]), Some(["s"])];
    SessionMayTouch("a", ["s"], UNBIND);
    assert |["s"][0]| != |SESSION_DOMAIN|;
    GrownAdds(OneService(), DynamicName("a", "c"), ["s"]);
    assert ["s"] in u && After(u, targets, 0) == u;
    assert After(u, targets, 1) == Dropped(u, ["s"]);
  }

  /** A call that returns a reference and closes the service it was given twice: the second close finds nothing to unbind. */
  lemma ClosedTwiceLeaks(obj: Object)
    ensures Leaks(Access("a", true, false), OneService(), CloseTwice(obj))
  {
    hide Leaks, Parse, ArgTargets, FailsFirstAt, AllFound, Access.CanBind;
    var a, targets := Access("a", true, false), [Some(["s"]), Some(["s"])];
    TwiceTheSame();
    TwiceIsFound(a, obj);
    TwiceFails(a, obj);
    assert Targets(CloseTwice(obj)) == targets;
    assert |["s"][0]| != |DynamicName("a", "c")[0]|;
    assert Spares(targets, 1, DynamicName("a", "c"));
    LeaksIff(a, OneService(), CloseTwice(obj));
  }
}
