/** How the classes a description is merged from are put in order. */
module ClassOrders {

  type TypeId = nat

  /** What reflection says of some types: the proper supertypes of each, and which are interfaces. */
  datatype Hierarchy = Hierarchy(supers: map<TypeId, set<TypeId>>, interfaces: set<TypeId>) {

    /** `x` is a proper supertype of `y`. */
    predicate Above(x: TypeId, y: TypeId) {
      y in supers && x in supers[y] && x != y
    }

    predicate IsAssignableFrom(x: TypeId, y: TypeId) {
      x == y || Above(x, y)
    }

    /** Subtyping as in section 4.10.2 of the Java Language Specification: an order, and the only class above an interface is above them all. */
    ghost predicate Valid() {
      && (forall x, y, z :: Above(x, y) && Above(y, z) ==> Above(x, z))
      && (forall x, i, j :: x !in interfaces && i in interfaces && j in interfaces && j in supers && Above(x, i) ==> Above(x, j))
    }
  }

  /** `CLASS_COMPARATOR`. */
  function Compare(h: Hierarchy, x: TypeId, y: TypeId): int {
    var w1, w2 := if x in h.interfaces then 0 else 1, if y in h.interfaces then 0 else 1;
    if x == y then 0
    else if h.IsAssignableFrom(x, y) then -1
    else if h.IsAssignableFrom(y, x) then 1
    else w1 - w2
  }

  /** `y` has to come before `x`: it is a supertype, or an interface while `x` is an unrelated class. */
  predicate MustPrecede(h: Hierarchy, y: TypeId, x: TypeId) {
    || h.Above(y, x)
    || (y in h.interfaces && x !in h.interfaces && x != y && !h.Above(x, y))
  }

  /** The comparator breaks its own contract: it is not transitive on types it calls equal. */
  lemma EqualIsNotTransitive()
    ensures exists h: Hierarchy, x, y, z ::
      h.Valid() && Compare(h, x, y) == 0 && Compare(h, y, z) == 0 && Compare(h, x, z) != 0
  {
    var h := Hierarchy(map[0 := {}, 1 := {}, 2 := {0}], {});
    assert h.Above(0, 2);
    assert h.Valid() && Compare(h, 0, 1) == 0 && Compare(h, 1, 2) == 0 && Compare(h, 0, 2) != 0;
  }

  lemma Asymmetric(h: Hierarchy)
    requires h.Valid()
    ensures forall x, y :: h.Above(x, y) ==> !h.Above(y, x)
  {
    assert forall x :: !h.Above(x, x);
  }

  /** What the comparator means, for types in a hierarchy. */
  lemma CompareMeans(h: Hierarchy, x: TypeId, y: TypeId)
    requires h.Valid()
    ensures Compare(h, x, y) > 0 <==> MustPrecede(h, y, x)
  {
    Asymmetric(h);
  }

  /** Nothing in `s` has to precede the type at `i`. */
  predicate Free(h: Hierarchy, s: seq<TypeId>, i: nat)
    requires i < |s|
  {
    forall j :: 0 <= j < |s| && j != i ==> Compare(h, s[i], s[j]) <= 0
  }

  lemma {:induction false} HasTop(h: Hierarchy, types: set<TypeId>) returns (top: TypeId)
    requires h.Valid() && types != {}
    ensures top in types && forall x :: x in types ==> !h.Above(x, top)
    decreases types
  {
    var x :| x in types;
    if types == {x} {
      top := x;
    } else {
      top := HasTop(h, types - {x});
      if h.Above(x, top) {
        assert forall y :: h.Above(y, x) ==> h.Above(y, top);
        top := x;
      }
    }
  }

  /**
    Some type always has nothing to come after: a topmost class above the
    interfaces if there is one, else a topmost interface, else a topmost class.
  */
  lemma SomeIsFree(h: Hierarchy, s: seq<TypeId>) returns (i: nat)
    requires h.Valid() && s != [] && forall t :: t in s ==> t in h.supers
    ensures i < |s| && Free(h, s, i)
  {
    var types := set t | t in s;
    assert s[0] in types;
    var interfaces := types * h.interfaces;
    var over := set t | t in types && t !in h.interfaces && exists x :: x in interfaces && h.Above(t, x);
    var top;
    if over != {} {
      top := HasTop(h, over);
      var below :| below in interfaces && h.Above(top, below);
      Asymmetric(h);
      assert forall x :: x in interfaces ==> h.Above(top, x);
      assert forall x :: h.Above(x, top) ==> h.Above(x, below);
      assert forall x :: x in types && x !in h.interfaces && h.Above(x, below) ==> x in over;
    } else if interfaces != {} {
      top := HasTop(h, interfaces);
      assert forall x :: x in types && x !in h.interfaces && h.Above(x, top) ==> x in over;
    } else {
      top := HasTop(h, types);
    }
    i :| 0 <= i < |s| && s[i] == top;
    forall j | 0 <= j < |s| && j != i
      ensures Compare(h, s[i], s[j]) <= 0
    {
      assert s[j] in types && (s[j] in h.interfaces ==> s[j] in interfaces);
      CompareMeans(h, s[i], s[j]);
    }
  }

  /** Whatever has to precede a type in the list does. */
  ghost predicate InOrder(h: Hierarchy, s: seq<TypeId>) {
    forall i, j :: 0 <= i < j < |s| ==> !MustPrecede(h, s[j], s[i])
  }

  /** What has been taken is in order and precedes what is left. */
  ghost predicate Taken(h: Hierarchy, out: seq<TypeId>, left: seq<TypeId>) {
    InOrder(h, out) && forall x, y :: x in out && y in left ==> !MustPrecede(h, y, x)
  }

  lemma TakeFree(h: Hierarchy, out: seq<TypeId>, left: seq<TypeId>, i: nat)
    requires h.Valid() && i < |left| && Free(h, left, i) && Taken(h, out, left)
    ensures Taken(h, out + [left[i]], left[..i] + left[i + 1..])
    ensures forall y :: y in left[..i] + left[i + 1..] ==> y in left
    ensures multiset(left) == multiset{left[i]} + multiset(left[..i] + left[i + 1..])
  {
    var rest := left[..i] + left[i + 1..];
    assert left == left[..i] + [left[i]] + left[i + 1..];
    forall y | y in rest
      ensures y in left && !MustPrecede(h, y, left[i])
    {
      var k :| 0 <= k < |rest| && rest[k] == y;
      var j := if k < i then k else k + 1;
      assert left[j] == y;
      CompareMeans(h, left[i], left[j]);
    }
  }

  class TypeList {
    var items: seq<TypeId>

    constructor (items: seq<TypeId>)
      ensures this.items == items
    {
      this.items := items;
    }

    /** No other type in the list compares below the one at `i`. */
    method HasNoIncomingEdges(h: Hierarchy, i: nat) returns (noIncomingEdges: bool)
      requires i < |items|
      ensures noIncomingEdges <==> Free(h, items, i)
    {
      noIncomingEdges := true;
      for j := 0 to |items|
        invariant forall k :: 0 <= k < j && k != i ==> Compare(h, items[i], items[k]) <= 0
      {
        if i != j && Compare(h, items[i], items[j]) > 0 {
          return false;
        }
      }
    }

    /**
      `topologicalSort` by `CLASS_COMPARATOR`: takes out the first type nothing
      has to precede, over and over. One is always found, so the loop ends.
    */
    method TopologicalSort(h: Hierarchy)
      requires h.Valid() && forall t :: t in items ==> t in h.supers
      modifies this
      ensures multiset(items) == multiset(old(items))
      ensures InOrder(h, items)
      ensures forall i, j :: 0 <= i < j < |items| && items[i] in h.supers && items[j] in h.supers[items[i]] ==> items[j] == items[i]
      ensures forall i, j :: 0 <= i < j < |items| && items[i] !in h.interfaces && items[j] in h.interfaces ==>
        items[j] in h.supers && items[i] in h.supers[items[j]]
    {
      var out: seq<TypeId> := [];
      while items != []
        invariant multiset(out) + multiset(items) == multiset(old(items))
        invariant Taken(h, out, items) && forall t :: t in items ==> t in h.supers
        decreases |items|
      {
        ghost var left := items;
        ghost var free := SomeIsFree(h, left);
        var i := 0;
        while i < |items|
          invariant i <= free && items == left
        {
          var noIncomingEdges := HasNoIncomingEdges(h, i);
          if noIncomingEdges {
            break;
          }
          i := i + 1;
        }
        TakeFree(h, out, items, i);
        out := out + [items[i]];
        items := items[..i] + items[i + 1..];
      }
      items := out;
    }
  }

  /** `new ArrayList(set)`, in whatever order the set iterates. */
  method Listed(types: set<TypeId>) returns (list: seq<TypeId>)
    ensures multiset(list) == multiset(types)
  {
    list := [];
    var left := types;
    while left != {}
      invariant left <= types && multiset(list) + multiset(left) == multiset(types)
      decreases left
    {
      var t :| t in left;
      list, left := list + [t], left - {t};
    }
  }

  /**
    `getAllAssignableFrom`: the class and all it can be assigned to, so that what
    is said of a type overrides what is said of its supertypes; the class itself
    comes last.
  */
  method GetAllAssignableFrom(h: Hierarchy, cls: TypeId, interfaces: set<TypeId>, superclasses: set<TypeId>) returns (list: seq<TypeId>)
    requires h.Valid() && cls in h.supers
    requires forall t :: t in interfaces || t in superclasses ==> h.Above(t, cls) && t in h.supers
    ensures multiset(list) == multiset({cls} + interfaces + superclasses)
    ensures list != [] && list[|list| - 1] == cls
    ensures forall i, j :: 0 <= i < j < |list| ==> !h.Above(list[j], list[i])
    ensures InOrder(h, list)
  {
    var types := {cls} + interfaces + superclasses;
    var found := Listed(types);
    assert forall t :: t in found ==> t in multiset(found);
    var order := new TypeList(found);
    order.TopologicalSort(h);
    list := order.items;
    ClassComesLast(h, cls, types, list);
  }

  lemma ClassComesLast(h: Hierarchy, cls: TypeId, types: set<TypeId>, list: seq<TypeId>)
    requires cls in types && multiset(list) == multiset(types)
    requires forall t :: t in types ==> t == cls || h.Above(t, cls)
    requires InOrder(h, list)
    ensures list != [] && list[|list| - 1] == cls
  {
    assert cls in multiset(list);
    var i :| 0 <= i < |list| && list[i] == cls;
    var last := list[|list| - 1];
    assert last in multiset(list);
    assert last != cls ==> MustPrecede(h, last, cls);
  }
}

/** How methods are told apart: by a text that gives back what it was made of. */
module MethodIdentifiers {
  import opened Strings

  type ClassId = nat

  /** The canonical names of classes, and the classes found by name. */
  datatype Naming = Naming(names: map<ClassId, string>, classes: map<string, ClassId>) {

    /** A class is found by its name, and its name can be told from the punctuation. */
    ghost predicate Valid() {
      forall c :: c in names ==>
        && names[c] in classes && classes[names[c]] == c
        && names[c] != "" && '(' !in names[c] && ')' !in names[c] && ',' !in names[c]
    }
  }

  datatype MethodIdentifier = MethodIdentifier(name: string, parameterTypes: seq<ClassId>, returnType: ClassId)

  datatype ParseError = IllegalArgument | IndexOutOfBounds | ClassNotFound(name: string)
  datatype Result<T> = Ok(value: T) | Err(error: ParseError)

  ghost predicate Named(n: Naming, m: MethodIdentifier) {
    m.returnType in n.names && forall p :: p in m.parameterTypes ==> p in n.names
  }

  // --------------------------------------------------------------- printing

  function NamesOf(n: Naming, types: seq<ClassId>): (names: seq<string>)
    requires forall p :: p in types ==> p in n.names
    ensures |names| == |types|
  {
    seq(|types|, i requires 0 <= i < |types| => n.names[types[i]])
  }

  /** The names of the types, with a comma between each two. */
  function Joined(n: Naming, types: seq<ClassId>): string
    requires forall p :: p in types ==> p in n.names
  {
    Join(NamesOf(n, types), ',')
  }

  function Text(n: Naming, m: MethodIdentifier): string
    requires Named(n, m)
  {
    (m.name + ['('] + Joined(n, m.parameterTypes)) + [')'] + ([':'] + n.names[m.returnType])
  }

  /** What the loop of `toString` has written. */
  function WithComma(n: Naming, types: seq<ClassId>): string
    requires forall p :: p in types ==> p in n.names
  {
    if types == [] then "" else Joined(n, types) + [',']
  }

  lemma JoinedAppend(n: Naming, types: seq<ClassId>, t: ClassId)
    requires t in n.names && forall p :: p in types ==> p in n.names
    ensures Joined(n, types + [t]) == WithComma(n, types) + n.names[t]
  {
    assert NamesOf(n, types + [t]) == NamesOf(n, types) + [n.names[t]];
    JoinAppend(NamesOf(n, types), ',', n.names[t]);
  }

  /** `toString`: the comma after the last parameter is cut off again. */
  method ToString(n: Naming, m: MethodIdentifier) returns (str: string)
    requires Named(n, m)
    ensures str == Text(n, m)
  {
    str := m.name + ['('];
    for i := 0 to |m.parameterTypes|
      invariant str == m.name + ['('] + WithComma(n, m.parameterTypes[..i])
    {
      JoinedAppend(n, m.parameterTypes[..i], m.parameterTypes[i]);
      assert m.parameterTypes[..i + 1] == m.parameterTypes[..i] + [m.parameterTypes[i]];
      str := str + n.names[m.parameterTypes[i]] + [','];
    }
    assert m.parameterTypes[..|m.parameterTypes|] == m.parameterTypes;
    if |m.parameterTypes| > 0 {
      str := str[..|str| - 1];
    }
    str := str + "):" + n.names[m.returnType];
  }

  /** What the text of a method looks like: its name, the parameters between parentheses, and the type it returns. */
  lemma TextMeans(n: Naming, name: string, p: ClassId, q: ClassId, r: ClassId)
    requires p in n.names && q in n.names && r in n.names
    ensures Text(n, MethodIdentifier(name, [], r)) == name + "():" + n.names[r]
    ensures Text(n, MethodIdentifier(name, [p, q], r)) == name + "(" + n.names[p] + "," + n.names[q] + "):" + n.names[r]
  {
    JoinedAppend(n, [], p);
    JoinedAppend(n, [p], q);
    assert [] + [p] == [p] && [p] + [q] == [p, q];
  }

  // ---------------------------------------------------------------- parsing

  function IndexOf(s: string, c: char): (i: int)
    ensures -1 <= i < |s|
  {
    if s == [] then -1 else if s[0] == c then 0 else
      var i := IndexOf(s[1..], c);
      if i < 0 then -1 else i + 1
  }

  function LastIndexOf(s: string, c: char): (i: int)
    ensures -1 <= i < |s|
  {
    if s == [] then -1 else if s[|s| - 1] == c then |s| - 1 else LastIndexOf(s[..|s| - 1], c)
  }

  lemma {:induction false} IndexOfFirst(a: string, c: char, b: string)
    requires c !in a
    ensures IndexOf(a + [c] + b, c) == |a|
  {
    if a != [] {
      assert (a + [c] + b)[1..] == a[1..] + [c] + b;
      IndexOfFirst(a[1..], c, b);
    }
  }

  lemma {:induction false} IndexOfEarlier(a: string, c: char, b: string)
    requires c in a
    ensures 0 <= IndexOf(a + b, c) < |a|
  {
    assert (a + b)[1..] == a[1..] + b;
    if a[0] != c {
      IndexOfEarlier(a[1..], c, b);
    }
  }

  lemma {:induction false} LastIndexOfLast(a: string, c: char, b: string)
    requires c !in b
    ensures LastIndexOf(a + [c] + b, c) == |a|
  {
    var s := a + [c] + b;
    if b == [] {
      assert s[|s| - 1] == c;
    } else {
      assert s[..|s| - 1] == a + [c] + b[..|b| - 1];
      LastIndexOfLast(a, c, b[..|b| - 1]);
    }
  }

  function Resolve(n: Naming, texts: seq<string>): Result<seq<ClassId>> {
    if texts == [] then Ok([])
    else
      var front, last := Resolve(n, texts[..|texts| - 1]), texts[|texts| - 1];
      if front.Err? then front
      else if last !in n.classes then Err(ClassNotFound(last))
      else Ok(front.value + [n.classes[last]])
  }

  lemma {:induction false} ResolveFails(n: Naming, texts: seq<string>, i: nat)
    requires i <= |texts| && Resolve(n, texts[..i]).Err?
    ensures Resolve(n, texts) == Resolve(n, texts[..i])
  {
    if i < |texts| {
      var front := texts[..|texts| - 1];
      assert front[..i] == texts[..i];
      ResolveFails(n, front, i);
    } else {
      assert texts[..i] == texts;
    }
  }

  /** The classes of the names, in order, or the first name that is of no class. */
  lemma {:induction false} ResolveMeans(n: Naming, texts: seq<string>)
    ensures Resolve(n, texts).Ok? <==> forall t :: t in texts ==> t in n.classes
    ensures Resolve(n, texts).Ok? ==> |Resolve(n, texts).value| == |texts|
    ensures Resolve(n, texts).Ok? ==> forall i :: 0 <= i < |texts| ==> Resolve(n, texts).value[i] == n.classes[texts[i]]
    ensures Resolve(n, texts).Err? ==> FirstUnknown(n, texts, Resolve(n, texts).error)
  {
    if texts != [] {
      var front, last := texts[..|texts| - 1], texts[|texts| - 1];
      ResolveMeans(n, front);
      assert texts == front + [last];
      if Resolve(n, front).Ok? && last !in n.classes {
        assert texts[|front|] == last && texts[..|front|] == front;
      } else if Resolve(n, front).Err? {
        var i :| 0 <= i < |front| && Resolve(n, front).error == ClassNotFound(front[i]) && IsFirstUnknown(n, front, i);
        assert texts[i] == front[i] && IsFirstUnknown(n, texts, i);
      }
    }
  }

  ghost predicate IsFirstUnknown(n: Naming, texts: seq<string>, i: nat)
    requires i < |texts|
  {
    texts[i] !in n.classes && forall j :: 0 <= j < i ==> texts[j] in n.classes
  }

  ghost predicate FirstUnknown(n: Naming, texts: seq<string>, e: ParseError) {
    exists i :: 0 <= i < |texts| && e == ClassNotFound(texts[i]) && IsFirstUnknown(n, texts, i)
  }

  /** The names of the parameters, found between the parentheses. */
  function ParameterNames(between: string): seq<string> {
    if |between| > 0 then Split(between, ',') else []
  }

  /** The identifier with these names in it, if they are all names of classes. */
  function Assembled(n: Naming, name: string, params: seq<string>, result: string): Result<MethodIdentifier> {
    var types := Resolve(n, params);
    if types.Err? then Err(types.error)
    else if result !in n.classes then Err(ClassNotFound(result))
    else Ok(MethodIdentifier(name, types.value, n.classes[result]))
  }

  function ParsedAt(n: Naming, str: string, beginParams: int, endParams: int): Result<MethodIdentifier>
    requires -1 <= beginParams < |str| && -1 <= endParams < |str|
  {
    if beginParams < 1 || endParams < 2 then Err(IllegalArgument)
    else if endParams + 1 == |str| then Err(IndexOutOfBounds)
    else if str[endParams + 1] != ':' || |str| < endParams + 3 then Err(IllegalArgument)
    else
      var between := if endParams - beginParams > 1 then str[beginParams + 1..endParams] else "";
      Assembled(n, str[..beginParams], ParameterNames(between), str[endParams + 2..])
  }

  /** What a text is parsed to, by its first opening and its last closing parenthesis. */
  function Parsed(n: Naming, str: string): Result<MethodIdentifier> {
    ParsedAt(n, str, IndexOf(str, '('), LastIndexOf(str, ')'))
  }

  /** The loop of `parse` over the parameters; it ends at the first unknown class. */
  method GetClasses(n: Naming, params: seq<string>) returns (r: Result<seq<ClassId>>)
    ensures r == Resolve(n, params)
  {
    var paramTypes: seq<ClassId> := [];
    for i := 0 to |params|
      invariant Resolve(n, params[..i]) == Ok(paramTypes)
    {
      assert params[..i + 1][..i] == params[..i];
      if params[i] !in n.classes {
        ResolveFails(n, params, i + 1);
        return Err(ClassNotFound(params[i]));
      }
      paramTypes := paramTypes + [n.classes[params[i]]];
    }
    assert params[..|params|] == params;
    r := Ok(paramTypes);
  }

  /** `parse`. */
  method Parse(n: Naming, str: string) returns (r: Result<MethodIdentifier>)
    ensures r == Parsed(n, str)
  {
    r := ParseAt(n, str, IndexOf(str, '('), LastIndexOf(str, ')'));
  }

  method ParseAt(n: Naming, str: string, beginParams: int, endParams: int) returns (r: Result<MethodIdentifier>)
    requires -1 <= beginParams < |str| && -1 <= endParams < |str|
    ensures r == ParsedAt(n, str, beginParams, endParams)
  {
    if beginParams < 1 || endParams < 2 {
      return Err(IllegalArgument);
    }
    if endParams + 1 >= |str| {
      return Err(IndexOutOfBounds);
    }
    if str[endParams + 1] != ':' || |str| < endParams + 3 {
      return Err(IllegalArgument);
    }
    var params := if endParams - beginParams > 1 then Split(str[beginParams + 1..endParams], ',') else [];
    var paramTypes := GetClasses(n, params);
    if paramTypes.Err? {
      return Err(paramTypes.error);
    }
    var result := str[endParams + 2..];
    if result !in n.classes {
      return Err(ClassNotFound(result));
    }
    r := Ok(MethodIdentifier(str[..beginParams], paramTypes.value, n.classes[result]));
  }

  // ------------------------------------------------------------- round trip

  lemma PiecesOfJoined(n: Naming, types: seq<ClassId>)
    requires n.Valid() && types != [] && forall p :: p in types ==> p in n.names
    ensures Joined(n, types) != "" && Pieces(Joined(n, types), ',') == NamesOf(n, types)
  {
    PiecesOfJoin(NamesOf(n, types), ',');
    assert NamesOf(n, types)[0] != "";
  }

  lemma {:induction false} ResolveNames(n: Naming, types: seq<ClassId>)
    requires n.Valid() && forall p :: p in types ==> p in n.names
    ensures Resolve(n, NamesOf(n, types)) == Ok(types)
  {
    if types != [] {
      var k := |types| - 1;
      ResolveNames(n, types[..k]);
      assert NamesOf(n, types)[..k] == NamesOf(n, types[..k]);
      assert types == types[..k] + [types[k]];
    }
  }

  /** A text put together from parts around two characters, and taken apart again. */
  lemma Parts(a: string, c: char, b: string, d: char, e: string)
    ensures var s := (a + [c] + b) + [d] + e;
      && s == a + [c] + (b + [d] + e) && |s| == |a| + |b| + |e| + 2
      && s[..|a|] == a && s[|a| + 1..|a| + 1 + |b|] == b
      && s[..|a| + 1 + |b|] == a + [c] + b && s[|a| + |b| + 2..] == e
  {
    var head := a + [c] + b;
    assert head + [d] + e == a + [c] + (b + [d] + e);
    assert (head + [d] + e)[..|head|] == head;
    assert (head + [d] + e)[|head| + 1..] == e;
    assert head[..|a|] == a && head[|a| + 1..] == b;
  }

  lemma PartsInFront(a: string, j: string, x: string)
    requires '(' !in a && ')' !in x
    ensures var s := (a + ['('] + j) + [')'] + ([':'] + x); var begin, end := IndexOf(s, '('), LastIndexOf(s, ')');
      && begin == |a| < end && s[..begin] == a && s[begin + 1..end] == j
      && end + 2 <= |s| && s[end + 1] == ':' && s[end + 2..] == x
  {
    Parts(a, '(', j, ')', [':'] + x);
    LastIndexOfLast(a + ['('] + j, ')', [':'] + x);
    IndexOfFirst(a, '(', j + [')'] + ([':'] + x));
    var s := (a + ['('] + j) + [')'] + ([':'] + x);
    var rest := s[|a| + |j| + 2..];
    assert rest == [':'] + x && rest[0] == ':' && rest[1..] == x;
  }

  /** Where `parse` finds the parts of a text, when the name holds no parenthesis to open. */
  lemma TextParts(n: Naming, m: MethodIdentifier)
    requires n.Valid() && Named(n, m) && '(' !in m.name
    ensures var text := Text(n, m); var begin, end := IndexOf(text, '('), LastIndexOf(text, ')');
      && begin == |m.name| < end && text[..begin] == m.name && text[begin + 1..end] == Joined(n, m.parameterTypes)
      && end + 2 < |text| && text[end + 1] == ':' && text[end + 2..] == n.names[m.returnType]
  {
    PartsInFront(m.name, Joined(n, m.parameterTypes), n.names[m.returnType]);
  }

  lemma {:induction false} IndexOfNone(s: string, c: char)
    requires c !in s
    ensures IndexOf(s, c) == -1 && LastIndexOf(s, c) == -1
  {
    if s != [] {
      IndexOfNone(s[1..], c);
      IndexOfNone(s[..|s| - 1], c);
    }
  }

  /** A text without an opening or without a closing parenthesis is refused. */
  lemma RefusedWithoutParentheses(n: Naming, str: string)
    requires '(' !in str || ')' !in str
    ensures Parsed(n, str) == Err(IllegalArgument)
  {
    IndexOfNone(str, if '(' in str then ')' else '(');
  }

  /** Where the parts of a text are, around its first opening and its last closing parenthesis. */
  lemma ShapeParts(name: string, params: string, rest: string)
    requires '(' !in name && ')' !in rest
    ensures var str := name + "(" + params + ")" + rest; var end := |name| + 1 + |params|;
      && IndexOf(str, '(') == |name| && LastIndexOf(str, ')') == end && |str| == end + 1 + |rest|
      && str[..|name|] == name && str[|name| + 1..end] == params && str[end + 1..] == rest
  {
    Parts(name, '(', params, ')', rest);
    LastIndexOfLast(name + "(" + params, ')', rest);
    IndexOfFirst(name, '(', params + [')'] + rest);
    assert name + "(" + params + ")" + rest == name + ['('] + (params + [')'] + rest);
  }

  lemma ParsedAtShape(n: Naming, str: string, name: string, params: string, rest: string)
    requires |str| == |name| + |params| + |rest| + 2 && str[..|name|] == name
    requires str[|name| + 1..|name| + 1 + |params|] == params && str[|name| + |params| + 2..] == rest
    ensures ParsedAt(n, str, |name|, |name| + 1 + |params|) ==
      if name == "" then Err(IllegalArgument)
      else if rest == "" then Err(IndexOutOfBounds)
      else if rest[0] != ':' || |rest| == 1 then Err(IllegalArgument)
      else Assembled(n, name, ParameterNames(params), rest[1..])
  {
    hide Assembled, ParameterNames;
    var end := |name| + 1 + |params|;
    if rest != "" {
      assert str[end + 1] == rest[0] && str[end + 2..] == rest[1..];
    }
    if params == "" {
      assert str[|name| + 1..end] == "";
    }
  }

  /** The shapes of text `parse` refuses, and what it makes of the others, told from the parts around the parentheses. */
  lemma ParsedByShape(n: Naming, name: string, params: string, rest: string)
    requires '(' !in name && ')' !in rest
    ensures Parsed(n, name + "(" + params + ")" + rest) ==
      if name == "" then Err(IllegalArgument)
      else if rest == "" then Err(IndexOutOfBounds)
      else if rest[0] != ':' || |rest| == 1 then Err(IllegalArgument)
      else Assembled(n, name, ParameterNames(params), rest[1..])
  {
    hide IndexOf, LastIndexOf, ParsedAt, Assembled, ParameterNames;
    ShapeParts(name, params, rest);
    ParsedAtShape(n, name + "(" + params + ")" + rest, name, params, rest);
  }

  lemma AssembledBack(n: Naming, m: MethodIdentifier)
    requires n.Valid() && Named(n, m)
    ensures Assembled(n, m.name, ParameterNames(Joined(n, m.parameterTypes)), n.names[m.returnType]) == Ok(m)
  {
    var types := m.parameterTypes;
    ResolveNames(n, types);
    if types != [] {
      PiecesOfJoined(n, types);
      assert NamesOf(n, types)[|types| - 1] != "";
    }
  }

  lemma ParsedFromParts(n: Naming, str: string, name: string, params: string, result: string, end: nat)
    requires 0 < |name| < end && end + 2 < |str|
    requires str[..|name|] == name && str[|name| + 1..end] == params && str[end + 1] == ':' && str[end + 2..] == result
    ensures ParsedAt(n, str, |name|, end) == Assembled(n, name, ParameterNames(params), result)
  {
  }

  lemma ParsesBack(n: Naming, m: MethodIdentifier)
    requires n.Valid() && Named(n, m) && '(' !in m.name && m.name != ""
    ensures Parsed(n, Text(n, m)) == Ok(m)
  {
    var text := Text(n, m);
    TextParts(n, m);
    ParsedFromParts(n, text, m.name, Joined(n, m.parameterTypes), n.names[m.returnType], LastIndexOf(text, ')'));
    AssembledBack(n, m);
  }

  lemma ParsedNameLength(n: Naming, str: string)
    ensures Parsed(n, str).Ok? ==> |Parsed(n, str).value.name| == IndexOf(str, '(')
  {
  }

  /** `parse` inverts `toString` exactly for the names that are not empty and hold no parenthesis to open. */
  lemma ParseInvertsToString(n: Naming, m: MethodIdentifier)
    requires n.Valid() && Named(n, m)
    ensures Parsed(n, Text(n, m)) == Ok(m) <==> m.name != "" && '(' !in m.name
  {
    var text := Text(n, m);
    if '(' in m.name {
      IndexOfEarlier(m.name, '(', text[|m.name|..]);
      assert text == m.name + text[|m.name|..];
      ParsedNameLength(n, text);
    } else if m.name != "" {
      ParsesBack(n, m);
    } else {
      TextParts(n, m);
    }
  }

  lemma JoinedTellsTypes(n: Naming, a: seq<ClassId>, b: seq<ClassId>)
    requires n.Valid() && (forall p :: p in a ==> p in n.names) && forall p :: p in b ==> p in n.names
    requires Joined(n, a) == Joined(n, b)
    ensures a == b
  {
    if a != [] {
      PiecesOfJoined(n, a);
    }
    if b != [] {
      PiecesOfJoined(n, b);
    }
    ResolveNames(n, a);
    ResolveNames(n, b);
  }

  lemma PartsBehind(a: string, j: string, x: string)
    requires '(' !in j && ')' !in x
    ensures var s := (a + ['('] + j) + [')'] + ([':'] + x); var end := LastIndexOf(s, ')');
      && end >= 0 && s[end + 1..] == [':'] + x
      && var begin := LastIndexOf(s[..end], '(');
         begin >= 0 && s[..begin] == a && s[begin + 1..end] == j
  {
    Parts(a, '(', j, ')', [':'] + x);
    LastIndexOfLast(a + ['('] + j, ')', [':'] + x);
    LastIndexOfLast(a, '(', j);
  }

  /** The last closing parenthesis ends the parameters, and the last opening one before it begins them. */
  lemma TextComesApart(n: Naming, m: MethodIdentifier)
    requires n.Valid() && Named(n, m)
    ensures var text := Text(n, m); var end := LastIndexOf(text, ')');
      && end >= 0 && text[end + 1..] == [':'] + n.names[m.returnType]
      && var begin := LastIndexOf(text[..end], '(');
         begin >= 0 && text[..begin] == m.name && text[begin + 1..end] == Joined(n, m.parameterTypes)
  {
    JoinHolds(NamesOf(n, m.parameterTypes), ',', '(');
    PartsBehind(m.name, Joined(n, m.parameterTypes), n.names[m.returnType]);
  }

  /** `equals` compares the texts: they agree exactly when name, parameters and return type all do. */
  lemma EqualTexts(n: Naming, a: MethodIdentifier, b: MethodIdentifier)
    requires n.Valid() && Named(n, a) && Named(n, b)
    ensures Text(n, a) == Text(n, b) <==> a == b
  {
    if Text(n, a) == Text(n, b) {
      TextComesApart(n, a);
      TextComesApart(n, b);
      JoinedTellsTypes(n, a.parameterTypes, b.parameterTypes);
      assert ([':'] + n.names[a.returnType])[1..] == n.names[a.returnType];
      assert ([':'] + n.names[b.returnType])[1..] == n.names[b.returnType];
    }
  }
}
