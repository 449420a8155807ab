/** Generic types read back from the list of their classes in prefix order. */
module GenericTypes {
  import opened Options
  import opened Sequences

  type ClassId = nat

  /** How many type parameters each class declares. */
  type Arity = ClassId -> nat

  /** A class with arguments for its type parameters. */
  datatype Type = Type(raw: ClassId, args: seq<Type>)

  // ------------------------------------------------------------ specification

  /** Every class has as many arguments as it declares parameters. */
  ghost predicate WellFormed(a: Arity, t: Type) {
    |t.args| == a(t.raw) && AllWellFormed(a, t.args)
  }

  ghost predicate AllWellFormed(a: Arity, ts: seq<Type>) {
    forall i :: 0 <= i < |ts| ==> WellFormed(a, ts[i])
  }

  /** The classes of some types in prefix order, each before its arguments. */
  function Flatten(ts: seq<Type>): seq<ClassId> {
    if ts == [] then [] else [ts[0].raw] + Flatten(ts[0].args) + Flatten(ts[1..])
  }

  /** What is read of a list for a class, and what is left of the list; `None` stands for the exception. */
  function Parsed(a: Arity, raw: ClassId, items: seq<ClassId>): (r: (Option<Type>, seq<ClassId>))
    ensures |r.1| <= |items|
    decreases |items|, 1, 0
  {
    var (args, rest) := ParsedArgs(a, a(raw), items);
    (if args.None? then None else Some(Type(raw, args.value)), rest)
  }

  function ParsedArgs(a: Arity, n: nat, items: seq<ClassId>): (r: (Option<seq<Type>>, seq<ClassId>))
    ensures |r.1| <= |items|
    decreases |items|, 0, n
  {
    if n == 0 then (Some([]), items)
    else if items == [] then (None, [])
    else
      var (first, rest) := Parsed(a, items[0], items[1..]);
      if first.None? then (None, rest)
      else
        var (others, left) := ParsedArgs(a, n - 1, rest);
        (if others.None? then None else Some([first.value] + others.value), left)
  }

  // ---------------------------------------------------------------- the method

  /** The list the calls share and take from. */
  class TypeParameters {
    var items: seq<ClassId>

    constructor (items: seq<ClassId>)
      ensures this.items == items
    {
      this.items := items;
    }

    method RemoveFirst() returns (c: ClassId)
      requires items != []
      modifies this
      ensures c == old(items)[0] && items == old(items)[1..]
    {
      c := items[0];
      items := items[1..];
    }
  }

  /** What follows from reading `i` arguments for reading them all. */
  ghost predicate ReadSoFar(all: (Option<seq<Type>>, seq<ClassId>), done: seq<Type>, more: (Option<seq<Type>>, seq<ClassId>)) {
    all == (if more.0.None? then None else Some(done + more.0.value), more.1)
  }

  lemma ReadNext(a: Arity, n: nat, items: seq<ClassId>, all: (Option<seq<Type>>, seq<ClassId>), done: seq<Type>)
    requires n > 0 && ReadSoFar(all, done, ParsedArgs(a, n, items))
    ensures items == [] ==> all == (None, [])
    ensures items != [] ==>
      var (first, rest) := Parsed(a, items[0], items[1..]);
      if first.None? then all == (None, rest) else ReadSoFar(all, done + [first.value], ParsedArgs(a, n - 1, rest))
  {
    if items != [] {
      var (first, rest) := Parsed(a, items[0], items[1..]);
      var (others, left) := ParsedArgs(a, n - 1, rest);
      if first.Some? && others.Some? {
        Associative(done, [first.value], others.value);
      }
    }
  }

  /** `getParameterizedType`. */
  method GetParameterizedType(a: Arity, rawType: ClassId, typeParameters: TypeParameters) returns (r: Option<Type>)
    modifies typeParameters
    ensures (r, typeParameters.items) == Parsed(a, rawType, old(typeParameters.items))
    decreases |typeParameters.items|
  {
    var rawTypeParametersCount := a(rawType);
    if rawTypeParametersCount == 0 {
      return Some(Type(rawType, []));
    }
    var types := new Type[rawTypeParametersCount](_ => Type(rawType, []));
    ghost var all := ParsedArgs(a, rawTypeParametersCount, typeParameters.items);
    assert types[..0] == [] && (all.0.Some? ==> [] + all.0.value == all.0.value);
    for i := 0 to rawTypeParametersCount
      invariant |typeParameters.items| <= old(|typeParameters.items|)
      invariant ReadSoFar(all, types[..i], ParsedArgs(a, rawTypeParametersCount - i, typeParameters.items))
    {
      ReadNext(a, rawTypeParametersCount - i, typeParameters.items, all, types[..i]);
      if |typeParameters.items| == 0 {
        return None;
      }
      var c := typeParameters.RemoveFirst();
      var t := GetParameterizedType(a, c, typeParameters);
      if t.None? {
        return None;
      }
      types[i] := t.value;
      assert types[..i + 1] == types[..i] + [t.value];
    }
    assert types[..rawTypeParametersCount] == types[..] == types[..] + [];
    return Some(Type(rawType, types[..]));
  }

  // ---------------------------------------------------------------- properties

  lemma FlattenInFront(t: Type, ts: seq<Type>, suffix: seq<ClassId>)
    ensures Flatten([t] + ts) + suffix == [t.raw] + (Flatten(t.args) + (Flatten(ts) + suffix))
  {
    assert ([t] + ts)[1..] == ts;
    Associative([t.raw] + Flatten(t.args), Flatten(ts), suffix);
    Associative([t.raw], Flatten(t.args), Flatten(ts) + suffix);
  }

  /** In the list a class stands before its arguments, and each type with all its arguments before the next. */
  lemma {:induction false} PrefixOrder(t: Type, ts: seq<Type>, us: seq<Type>)
    ensures Flatten([]) == [] && Flatten([t]) == [t.raw] + Flatten(t.args)
    ensures Flatten(ts + us) == Flatten(ts) + Flatten(us)
    decreases ts
  {
    FlattenInFront(t, [], []);
    assert [t] + [] == [t];
    if ts == [] {
      assert [] + us == us;
    } else {
      PrefixOrder(t, ts[1..], us);
      assert [ts[0]] + (ts[1..] + us) == ts + us && [ts[0]] + ts[1..] == ts;
      FlattenInFront(ts[0], ts[1..] + us, []);
      FlattenInFront(ts[0], ts[1..], Flatten(us));
    }
  }

  lemma {:induction false} ParsedFlattenedArgs(a: Arity, ts: seq<Type>, suffix: seq<ClassId>)
    requires AllWellFormed(a, ts)
    ensures ParsedArgs(a, |ts|, Flatten(ts) + suffix) == (Some(ts), suffix)
    decreases ts
  {
    if ts == [] {
      assert [] + suffix == suffix;
    } else {
      var first, others := ts[0], ts[1..];
      assert [first] + others == ts;
      FlattenInFront(first, others, suffix);
      assert WellFormed(a, first);
      ParsedFlattenedArgs(a, first.args, Flatten(others) + suffix);
      ParsedFlattenedArgs(a, others, suffix);
    }
  }

  /** Reading inverts printing in prefix order, and leaves what follows alone. */
  lemma ParsedFlattened(a: Arity, t: Type, suffix: seq<ClassId>)
    requires WellFormed(a, t)
    ensures Parsed(a, t.raw, Flatten(t.args) + suffix) == (Some(t), suffix)
  {
    ParsedFlattenedArgs(a, t.args, suffix);
  }

  /** What is read is well formed, and printing it gives back what was taken from the list. */
  lemma {:induction false} FlattenedParsedArgs(a: Arity, n: nat, items: seq<ClassId>)
    ensures var (ts, rest) := ParsedArgs(a, n, items);
      ts.Some? ==> |ts.value| == n && AllWellFormed(a, ts.value) && items == Flatten(ts.value) + rest
    decreases |items|, n
  {
    if n > 0 && items != [] {
      var (first, rest) := Parsed(a, items[0], items[1..]);
      if first.Some? {
        FlattenedParsedArgs(a, a(items[0]), items[1..]);
        FlattenedParsedArgs(a, n - 1, rest);
        var (others, left) := ParsedArgs(a, n - 1, rest);
        if others.Some? {
          FlattenInFront(first.value, others.value, left);
          assert items == [items[0]] + items[1..];
        }
      }
    }
  }

  /** Reading succeeds on exactly the lists that start with a well-formed type's arguments, and gives that type. */
  lemma ParsedIff(a: Arity, raw: ClassId, items: seq<ClassId>, t: Type, rest: seq<ClassId>)
    ensures Parsed(a, raw, items) == (Some(t), rest) <==> WellFormed(a, t) && t.raw == raw && items == Flatten(t.args) + rest
  {
    FlattenedParsedArgs(a, a(raw), items);
    if WellFormed(a, t) && t.raw == raw && items == Flatten(t.args) + rest {
      ParsedFlattened(a, t, rest);
    }
  }

  // ------------------------------------------------------------- when it fails

  /** How many types are still to be read after reading some classes. */
  function Balance(a: Arity, n: int, items: seq<ClassId>): int
    decreases |items|
  {
    if items == [] then n else Balance(a, n - 1 + a(items[0]), items[1..])
  }

  /** Reading in one pass, keeping count only: what is left once no type is to be read. */
  function Scanned(a: Arity, n: nat, items: seq<ClassId>): Option<seq<ClassId>>
    decreases |items|
  {
    if n == 0 then Some(items) else if items == [] then None else Scanned(a, n - 1 + a(items[0]), items[1..])
  }

  lemma {:induction false} ScannedInParts(a: Arity, m: nat, n: nat, items: seq<ClassId>)
    ensures Scanned(a, m + n, items) == if Scanned(a, m, items).None? then None else Scanned(a, n, Scanned(a, m, items).value)
    decreases |items|
  {
    if m > 0 && items != [] {
      ScannedInParts(a, m - 1 + a(items[0]), n, items[1..]);
    }
  }

  lemma {:induction false} ParsedAsScanned(a: Arity, n: nat, items: seq<ClassId>)
    ensures var (ts, rest) := ParsedArgs(a, n, items);
      Scanned(a, n, items) == if ts.None? then None else Some(rest)
    decreases |items|, n
  {
    if n > 0 && items != [] {
      ParsedAsScanned(a, a(items[0]), items[1..]);
      ScannedInParts(a, a(items[0]), n - 1, items[1..]);
      var (first, rest) := Parsed(a, items[0], items[1..]);
      if first.Some? {
        ParsedAsScanned(a, n - 1, rest);
      }
    }
  }

  lemma {:induction false} ScannedIff(a: Arity, n: nat, items: seq<ClassId>)
    ensures Scanned(a, n, items).None? <==> forall k :: 0 <= k <= |items| ==> Balance(a, n, items[..k]) != 0
    decreases |items|
  {
    if n == 0 {
      assert Balance(a, n, items[..0]) == 0;
    } else if items == [] {
    } else {
      var m, rest := n - 1 + a(items[0]), items[1..];
      ScannedIff(a, m, rest);
      forall k | 0 < k <= |items|
        ensures Balance(a, n, items[..k]) == Balance(a, m, rest[..k - 1])
      {
        assert items[..k][1..] == rest[..k - 1];
      }
      forall j | 0 <= j <= |rest|
        ensures Balance(a, m, rest[..j]) == Balance(a, n, items[..j + 1])
      {
        assert items[..j + 1][1..] == rest[..j];
      }
    }
  }

  /** Reading fails exactly when no prefix of the list closes what the class and the prefix open. */
  lemma FailsIff(a: Arity, raw: ClassId, items: seq<ClassId>)
    ensures Parsed(a, raw, items).0.None? <==> forall k :: 0 <= k <= |items| ==> Balance(a, a(raw), items[..k]) != 0
  {
    ParsedAsScanned(a, a(raw), items);
    ScannedIff(a, a(raw), items);
  }
}
