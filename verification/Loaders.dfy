/** The synchronous module loader: a depth-first walk with a call stack and a cache. */
module Loaders {
  import opened Strings

  type Url = string

  /** `url.toLowerCase().substr(-3) === '.js'`. */
  predicate HasSuffix(url: Url) {
    |url| >= 3 && url[|url| - 3] == '.' && Lower(url[|url| - 2]) == 'j' && Lower(url[|url| - 1]) == 's'
  }

  function Normalize(url: Url): (r: Url)
    ensures HasSuffix(r)
    ensures r == url || (!HasSuffix(url) && r == url + ".js")
  {
    if HasSuffix(url) then url else url + ".js"
  }

  /** The four ways to write the suffix. */
  const SUFFIXES: set<string> := {".js", ".Js", ".jS", ".JS"}

  /** A name stays as it is when its last three letters are the suffix in some case, and otherwise gains it. */
  lemma NormalizeMeans(url: Url)
    ensures Normalize(url) == url <==> |url| >= 3 && url[|url| - 3..] in SUFFIXES
    ensures Normalize(url) != url ==> Normalize(url) == url + ".js"
  {
    if |url| >= 3 {
      var end := url[|url| - 3..];
      assert end == [url[|url| - 3], url[|url| - 2], url[|url| - 1]];
    }
    assert |url + ".js"| == |url| + 3;
  }

  /** A module graph as the server holds it: what each module requires, in order, as written. */
  type Graph = map<Url, seq<Url>>

  ghost predicate Edge(g: Graph, u: Url, v: Url) {
    u in g && exists i :: 0 <= i < |g[u]| && Normalize(g[u][i]) == v
  }

  ghost predicate IsPath(g: Graph, p: seq<Url>) {
    forall i :: 0 <= i < |p| - 1 ==> Edge(g, p[i], p[i + 1])
  }

  ghost predicate IsPathFrom(g: Graph, u: Url, p: seq<Url>) {
    p != [] && p[0] == u && IsPath(g, p)
  }

  ghost predicate Reaches(g: Graph, u: Url, v: Url) {
    exists p :: IsPathFrom(g, u, p) && p[|p| - 1] == v
  }

  ghost predicate Distinct(s: seq<Url>) {
    forall i, j :: 0 <= i < j < |s| ==> s[i] != s[j]
  }

  function Elements(s: seq<Url>): set<Url> {
    set u | u in s
  }

  /** No path from `u` runs into a missing module or comes back to where it was. */
  ghost predicate Loadable(g: Graph, u: Url) {
    forall p :: IsPathFrom(g, u, p) ==> Distinct(p) && forall v :: v in p ==> v in g
  }

  /** Every module stands behind everything it requires. */
  ghost predicate Topological(g: Graph, order: seq<Url>) {
    && Distinct(order)
    && forall i, v :: 0 <= i < |order| && Edge(g, order[i], v) ==> v in order[..i]
  }

  /**
    `p` is how the stack shows that loading cannot go on: its last url is missing,
    was met before, or is among those `left` on the stack by an earlier failure.
  */
  ghost predicate Stuck(g: Graph, left: seq<Url>, p: seq<Url>) {
    p != [] && IsPath(g, p) && (p[|p| - 1] in p[..|p| - 1] || p[|p| - 1] !in g || p[|p| - 1] in left)
  }

  /** Neither a cycle, nor a missing module, nor one left on the stack can be reached. */
  ghost predicate CanLoad(g: Graph, left: seq<Url>, name: Url) {
    Loadable(g, Normalize(name)) && forall v :: Reaches(g, Normalize(name), v) ==> v !in left
  }

  /** A module may be asked for with or without the suffix. */
  lemma StemIsFile(g: Graph, left: seq<Url>, stem: Url)
    requires !(|stem| >= 3 && stem[|stem| - 3..] in SUFFIXES)
    ensures CanLoad(g, left, stem) <==> CanLoad(g, left, stem + ".js")
    ensures forall v :: Reaches(g, Normalize(stem), v) <==> Reaches(g, Normalize(stem + ".js"), v)
  {
    NormalizeMeans(stem);
    NormalizeMeans(stem + ".js");
    assert (stem + ".js")[|stem|..] == ".js";
  }

  /** A path from a module that requires nothing goes no further. */
  lemma LeavesNowhere(g: Graph, p: seq<Url>)
    requires p != [] && p[0] in g && g[p[0]] == [] && IsPath(g, p)
    ensures p == [p[0]]
  {
    assert |p| > 1 ==> Edge(g, p[0], p[0 + 1]);
  }

  /** A module that requires nothing is loaded by its stem, and nothing else with it. */
  lemma StemLoadsAlone(g: Graph, stem: Url)
    requires !(|stem| >= 3 && stem[|stem| - 3..] in SUFFIXES)
    requires stem + ".js" in g && g[stem + ".js"] == []
    ensures CanLoad(g, [], stem)
    ensures forall v :: Reaches(g, Normalize(stem), v) <==> v == stem + ".js"
  {
    var file := stem + ".js";
    NormalizeMeans(stem);
    assert IsPathFrom(g, file, [file]) && [file][|[file]| - 1] == file;
    forall p | IsPathFrom(g, file, p)
      ensures p == [file]
    {
      LeavesNowhere(g, p);
    }
  }

  lemma PathGrows(g: Graph, p: seq<Url>, v: Url)
    requires IsPath(g, p) && (p != [] ==> Edge(g, p[|p| - 1], v))
    ensures IsPath(g, p + [v])
  {
  }

  lemma ReachesFirst(g: Graph, u: Url, v: Url, w: Url)
    requires Edge(g, u, v) && Reaches(g, v, w)
    ensures Reaches(g, u, w)
  {
    var p :| IsPathFrom(g, v, p) && p[|p| - 1] == w;
    var q := [u] + p;
    assert forall i :: 0 < i < |q| ==> q[i] == p[i - 1];
    assert IsPathFrom(g, u, q) && q[|q| - 1] == w;
  }

  /** Paths that start in a closed, topologically ordered set stay in it and never come back. */
  lemma {:induction false} OrderedPathsAreSimple(g: Graph, order: seq<Url>, p: seq<Url>, k: nat)
    requires Topological(g, order) && IsPath(g, p) && p != []
    requires k < |order| && order[k] == p[0]
    ensures Distinct(p) && forall v :: v in p ==> v in order[..k + 1]
    decreases |p|
  {
    if |p| > 1 {
      assert Edge(g, order[k], p[1]);
      var m :| 0 <= m < k && order[m] == p[1];
      assert IsPath(g, p[1..]) by {
        forall i | 0 <= i < |p[1..]| - 1 ensures Edge(g, p[1..][i], p[1..][i + 1]) {
          assert Edge(g, p[i + 1], p[i + 2]);
        }
      }
      OrderedPathsAreSimple(g, order, p[1..], m);
      assert p[0] !in order[..m + 1];
      forall i, j | 0 <= i < j < |p|
        ensures p[i] != p[j]
      {
        assert p[j] == p[1..][j - 1] && p[1..][j - 1] in p[1..];
        if i > 0 {
          assert p[i] == p[1..][i - 1];
        }
      }
      assert order[..m + 1] <= order[..k + 1];
      assert p == [p[0]] + p[1..];
    }
  }

  /** Every module finished since `before` is reached from `u`. */
  ghost predicate Added(g: Graph, before: seq<Url>, order: seq<Url>, u: Url) {
    forall v :: v in order && v !in before ==> Reaches(g, u, v)
  }

  lemma AddedBelow(g: Graph, start: seq<Url>, before: seq<Url>, order: seq<Url>, u: Url, v: Url)
    requires Edge(g, u, v) && Added(g, start, before, u) && Added(g, before, order, v)
    ensures Added(g, start, order, u)
  {
    forall w | w in order && w !in start
      ensures Reaches(g, u, w)
    {
      if w !in before {
        ReachesFirst(g, u, v, w);
      }
    }
  }

  /** A module all of whose requirements are finished may finish. */
  lemma FinishedGrows(g: Graph, start: seq<Url>, order: seq<Url>, u: Url)
    requires Topological(g, order) && u !in order && Added(g, start, order, u)
    requires forall v :: Edge(g, u, v) ==> v in order
    ensures Topological(g, order + [u]) && Added(g, start, order + [u], u)
  {
    assert (order + [u])[..|order|] == order;
    forall i, v | 0 <= i < |order| && Edge(g, order[i], v)
      ensures v in (order + [u])[..i]
    {
      assert (order + [u])[..i] == order[..i];
    }
    assert IsPathFrom(g, u, [u]) && [u][0] == u;
  }

  /** The cache is what has run to its end; nothing on the stack has, and nothing has been entered twice. */
  ghost predicate Settled(g: Graph, stack: seq<Url>, cache: set<Url>, started: seq<Url>, finished: seq<Url>) {
    && (forall u :: u in stack ==> u !in cache) && (forall u :: u in cache ==> u in g)
    && Topological(g, finished) && (forall u :: u in cache <==> u in finished)
    && Distinct(started) && (forall u :: u in cache ==> u in started)
    && (forall u :: u in started ==> u in cache || u in stack)
  }

  /** A loader between two requires: on top of what is left, the stack is a path of modules being run. */
  ghost predicate Consistent(g: Graph, left: nat, stack: seq<Url>, cache: set<Url>, started: seq<Url>, finished: seq<Url>) {
    && Settled(g, stack, cache, started, finished) && left <= |stack|
    && Distinct(stack[left..]) && IsPath(g, stack[left..])
    && forall u :: u in stack[left..] ==> u in g && u in started && u !in stack[..left]
  }

  lemma PushGrows(g: Graph, left: nat, stack: seq<Url>, cache: set<Url>, started: seq<Url>, finished: seq<Url>, url: Url)
    requires Consistent(g, left, stack, cache, started, finished) && (|stack| > left ==> Edge(g, stack[|stack| - 1], url))
    ensures (stack + [url])[..|stack|] == stack && (stack + [url])[left..] == stack[left..] + [url]
    ensures (stack + [url])[..left] == stack[..left] && IsPath(g, (stack + [url])[left..])
  {
    assert (stack + [url])[left..] == stack[left..] + [url];
    if |stack| > left {
      assert stack[left..][|stack[left..]| - 1] == stack[|stack| - 1];
    }
    PathGrows(g, stack[left..], url);
  }

  /** A url that is on the stack already, or that is no module, ends the loading. */
  lemma PushEnds(g: Graph, left: nat, stack: seq<Url>, cache: set<Url>, started: seq<Url>, finished: seq<Url>, url: Url)
    requires Consistent(g, left, stack, cache, started, finished) && (|stack| > left ==> Edge(g, stack[|stack| - 1], url))
    requires url in stack || url !in g
    ensures Stuck(g, stack[..left], (stack + [url])[left..]) && Settled(g, stack + [url], cache, started, finished)
  {
    PushSettles(g, stack, cache, started, finished, url);
    PushGrows(g, left, stack, cache, started, finished, url);
    PushSticks(g, left, stack, url);
  }

  lemma PushSettles(g: Graph, stack: seq<Url>, cache: set<Url>, started: seq<Url>, finished: seq<Url>, url: Url)
    requires Settled(g, stack, cache, started, finished) && (url in stack || url !in g)
    ensures Settled(g, stack + [url], cache, started, finished)
  {
    hide Topological, Distinct;
  }

  lemma PushSticks(g: Graph, left: nat, stack: seq<Url>, url: Url)
    requires left <= |stack| && IsPath(g, (stack + [url])[left..]) && (url in stack || url !in g)
    ensures Stuck(g, stack[..left], (stack + [url])[left..])
  {
    hide IsPath;
    var p := (stack + [url])[left..];
    assert p == stack[left..] + [url];
    assert stack == stack[..left] + stack[left..];
  }

  class Loader {
    const graph: Graph
    var stack: seq<Url>
    var cache: set<Url>
    ghost var left: nat            // how much of the stack earlier failures left behind
    ghost var started: seq<Url>    // the modules whose code was entered, in order
    ghost var finished: seq<Url>   // the modules whose code ran to its end, in order

    constructor (graph: Graph)
      ensures this.graph == graph && Valid() && stack == [] && cache == {} && left == 0
    {
      this.graph := graph;
      stack, cache := [], {};
      left, started, finished := 0, [], [];
    }

    ghost predicate Valid()
      reads this
    {
      Consistent(graph, left, stack, cache, started, finished)
    }

    /** Loading got stuck, and will not be taken up again. */
    ghost predicate GaveUp()
      reads this
    {
      left <= |stack| && Stuck(graph, stack[..left], stack[left..]) && Settled(graph, stack, cache, started, finished)
    }

    /**
      `require(url)`. On success the stack is as it was, `url` and everything it
      reaches is cached, each having run once and behind what it requires. On
      failure the stack ends where loading got stuck.
    */
    method Require(name: Url) returns (ok: bool)
      requires Valid() && (|stack| > left ==> Edge(graph, stack[|stack| - 1], Normalize(name)))
      modifies this
      ensures left == old(left)
      ensures ok ==> Valid() && stack == old(stack) && Normalize(name) in cache
      ensures ok ==> old(cache) <= cache
      ensures ok ==> old(finished) <= finished && Added(graph, old(finished), finished, Normalize(name))
      ensures !ok ==> GaveUp() && old(stack) + [Normalize(name)] <= stack
      ensures Normalize(name) in old(stack) ==> !ok
      decreases graph.Keys - Elements(stack), 1
    {
      ok := RequireUrl(Normalize(name));
    }

    method RequireUrl(url: Url) returns (ok: bool)
      requires Valid() && (|stack| > left ==> Edge(graph, stack[|stack| - 1], url))
      modifies this
      ensures left == old(left)
      ensures ok ==> Valid() && stack == old(stack) && url in cache
      ensures ok ==> old(cache) <= cache
      ensures ok ==> old(finished) <= finished && Added(graph, old(finished), finished, url)
      ensures !ok ==> GaveUp() && old(stack) + [url] <= stack
      ensures url in old(stack) ==> !ok
      decreases graph.Keys - Elements(stack), 0
    {
      assert left <= |stack|;
      hide Consistent, Settled, IsPath, Stuck, Reaches;
      var deadlock := url in stack;
      Push(url, deadlock);
      if deadlock {
        return false;
      }
      if url !in cache {
        if url !in graph {
          return false;
        }
        assert url in Elements(stack) && url !in Elements(old(stack));
        ok := Execute(url);
        if !ok {
          return;
        }
      }
      stack := stack[..|stack| - 1];
      ok := true;
    }

    method Push(url: Url, ghost deadlock: bool)
      requires Valid() && (|stack| > left ==> Edge(graph, stack[|stack| - 1], url)) && (deadlock <==> url in stack)
      modifies this`stack
      ensures stack == old(stack) + [url] && stack[..|stack| - 1] == old(stack)
      ensures IsPath(graph, stack[left..])
      ensures deadlock || url !in graph ==> GaveUp()
    {
      assert left <= |stack|;
      hide Consistent, Settled, Stuck, IsPath, Edge;
      PushGrows(graph, left, stack, cache, started, finished, url);
      if deadlock || url !in graph {
        PushEnds(graph, left, stack, cache, started, finished, url);
      }
      stack := stack + [url];
    }

    /** The module is run, and what it exports is cached. */
    method Execute(url: Url) returns (ok: bool)
      requires |stack| > left && stack[|stack| - 1] == url && url in graph && url !in cache && IsPath(graph, stack[left..])
      requires url !in stack[..|stack| - 1] && Consistent(graph, left, stack[..|stack| - 1], cache, started, finished)
      modifies this
      ensures left == old(left)
      ensures ok ==> stack == old(stack) && url in cache
      ensures ok ==> Consistent(graph, left, stack[..|stack| - 1], cache, started, finished)
      ensures ok ==> old(cache) <= cache
      ensures ok ==> old(finished) <= finished && Added(graph, old(finished), finished, url)
      ensures !ok ==> GaveUp() && old(stack) <= stack
      decreases graph.Keys - Elements(stack), 3
    {
      hide Consistent, Settled, Stuck, IsPath, Edge, Reaches, Topological;
      Entered(graph, left, stack, cache, started, finished, url);
      started := started + [url];
      ok := Run(url);
      if ok {
        ReadyToFinish(graph, left, stack, cache, started, finished, url);
        FinishedGrows(graph, old(finished), finished, url);
        Left(graph, left, stack, cache, started, finished, url);
        cache := cache + {url};
        finished := finished + [url];
      }
    }

    /** The module's code: it requires one module after the other. */
    method Run(url: Url) returns (ok: bool)
      requires Valid() && url in graph && |stack| > left && stack[|stack| - 1] == url
      modifies this
      ensures left == old(left)
      ensures ok ==> Valid() && stack == old(stack) && forall v :: Edge(graph, url, v) ==> v in cache
      ensures ok ==> old(cache) <= cache
      ensures ok ==> old(finished) <= finished && Added(graph, old(finished), finished, url)
      ensures !ok ==> GaveUp() && old(stack) <= stack
      decreases graph.Keys - Elements(stack), 2
    {
      hide Consistent, Settled, Stuck, IsPath, Reaches;
      for i := 0 to |graph[url]|
        invariant Valid() && stack == old(stack) && left == old(left)
        invariant old(cache) <= cache && forall j :: 0 <= j < i ==> Normalize(graph[url][j]) in cache
        invariant old(finished) <= finished && Added(graph, old(finished), finished, url)
      {
        ghost var before := finished;
        ok := Require(graph[url][i]);
        if !ok {
          return;
        }
        AddedBelow(graph, old(finished), before, finished, url, Normalize(graph[url][i]));
      }
      ok := true;
    }

    /**
      A call from outside any module, whatever was loaded or failed to load before:
      it succeeds exactly when no cycle, no missing module and nothing an earlier
      failure left on the stack can be reached. Then the cache gains exactly what
      can be reached, and no module's code has run before something it requires.
      None is ever entered twice.
    */
    method Load(name: Url) returns (ok: bool)
      requires Valid() && left == |stack|
      modifies this
      ensures Valid() && left == |stack|
      ensures ok <==> CanLoad(graph, old(stack), name)
      ensures ok ==> stack == old(stack)
      ensures ok ==> forall v :: v in cache <==> v in old(cache) || Reaches(graph, Normalize(name), v)
      ensures ok ==> Topological(graph, finished) && old(finished) <= finished && Elements(finished) == cache
      ensures Distinct(started) && forall v :: v in cache ==> v in started
      ensures !ok ==> old(stack) + [Normalize(name)] <= stack && Stuck(graph, old(stack), stack[|old(stack)|..])
    {
      ok := Require(name);
      var url := Normalize(name);
      if ok {
        FinishedIsLoadable(graph, finished, url);
        forall v
          ensures v in cache <==> v in old(cache) || Reaches(graph, url, v)
        {
          if v in cache && v !in old(cache) {
            assert v in finished && v !in old(finished);
          }
          if v in old(cache) {
            assert v in old(finished) && v in finished;
          }
        }
      } else {
        var p := stack[left..];
        assert stack[..left] == old(stack) && p[0] == url;
        StuckIsNotLoadable(graph, old(stack), p);
        left := |stack|;
        assert stack[left..] == [];
      }
    }
  }

  /** A module just put on the stack, and now entered. */
  lemma Entered(g: Graph, left: nat, stack: seq<Url>, cache: set<Url>, started: seq<Url>, finished: seq<Url>, url: Url)
    requires |stack| > left && stack[|stack| - 1] == url && url in g && url !in cache && IsPath(g, stack[left..])
    requires url !in stack[..|stack| - 1] && Consistent(g, left, stack[..|stack| - 1], cache, started, finished)
    ensures Consistent(g, left, stack, cache, started + [url], finished)
  {
    var front := stack[..|stack| - 1];
    assert stack == front + [url];
    assert stack[left..] == front[left..] + [url] && stack[..left] == front[..left];
  }

  lemma ReadyToFinish(g: Graph, left: nat, stack: seq<Url>, cache: set<Url>, started: seq<Url>, finished: seq<Url>, url: Url)
    requires Consistent(g, left, stack, cache, started, finished) && |stack| > left && stack[|stack| - 1] == url
    requires forall v :: Edge(g, url, v) ==> v in cache
    ensures Topological(g, finished) && url !in finished && forall v :: Edge(g, url, v) ==> v in finished
  {
  }

  /** The module on top of the stack is nowhere below. */
  lemma TopIsNew(left: nat, stack: seq<Url>)
    requires left < |stack| && Distinct(stack[left..]) && stack[|stack| - 1] !in stack[..left]
    ensures stack[|stack| - 1] !in stack[..|stack| - 1]
  {
    var k := |stack| - 1;
    forall i | 0 <= i < k
      ensures stack[i] != stack[k]
    {
      if i < left {
        assert stack[i] == stack[..left][i];
      } else {
        assert stack[i] == stack[left..][i - left] && stack[k] == stack[left..][k - left];
      }
    }
  }

  lemma PopKeeps(g: Graph, left: nat, stack: seq<Url>)
    requires left < |stack| && Distinct(stack[left..]) && IsPath(g, stack[left..])
    ensures var front := stack[..|stack| - 1];
      && front[..left] == stack[..left] && front[left..] == stack[left..][..|stack[left..]| - 1]
      && Distinct(front[left..]) && IsPath(g, front[left..])
  {
    var front, p := stack[..|stack| - 1], stack[left..];
    var q := front[left..];
    assert q == p[..|p| - 1];
    forall i | 0 <= i < |q| - 1
      ensures Edge(g, q[i], q[i + 1])
    {
      assert Edge(g, p[i], p[i + 1]);
    }
  }

  /** A module that has run to its end, about to be taken from the stack. */
  lemma Left(g: Graph, left: nat, stack: seq<Url>, cache: set<Url>, started: seq<Url>, finished: seq<Url>, url: Url)
    requires Consistent(g, left, stack, cache, started, finished) && |stack| > left && stack[|stack| - 1] == url
    requires Topological(g, finished + [url])
    ensures Consistent(g, left, stack[..|stack| - 1], cache + {url}, started, finished + [url])
  {
    var front := stack[..|stack| - 1];
    assert url == stack[left..][|stack[left..]| - 1];
    TopIsNew(left, stack);
    PopKeeps(g, left, stack);
    hide Topological, IsPath, Distinct;
    assert stack == front + [url];
    assert forall u :: u in front[left..] ==> u in stack[left..];
  }

  /** Whatever is finished is loadable, and so is all it reaches. */
  lemma FinishedIsLoadable(g: Graph, order: seq<Url>, u: Url)
    requires Topological(g, order) && u in order && forall v :: v in order ==> v in g
    ensures Loadable(g, u) && forall v :: Reaches(g, u, v) ==> v in order
  {
    var k :| 0 <= k < |order| && order[k] == u;
    forall p | IsPathFrom(g, u, p)
      ensures Distinct(p) && (forall v :: v in p ==> v in g) && p[|p| - 1] in order
    {
      OrderedPathsAreSimple(g, order, p, k);
      assert p[|p| - 1] in p;
    }
  }

  lemma StuckIsNotLoadable(g: Graph, left: seq<Url>, p: seq<Url>)
    requires Stuck(g, left, p)
    ensures !Loadable(g, p[0]) || exists v :: Reaches(g, p[0], v) && v in left
  {
    assert IsPathFrom(g, p[0], p);
    if p[|p| - 1] in left {
      assert Reaches(g, p[0], p[|p| - 1]);
    } else if p[|p| - 1] in p[..|p| - 1] {
      var i :| 0 <= i < |p| - 1 && p[i] == p[|p| - 1];
    } else {
      assert p[|p| - 1] in p;
    }
  }

  /** By its stem, from a loader that has loaded nothing yet. */
  method LoadStem(graph: Graph, stem: Url) returns (ok: bool, loader: Loader)
    requires !(|stem| >= 3 && stem[|stem| - 3..] in SUFFIXES)
    requires stem + ".js" in graph && graph[stem + ".js"] == []
    ensures ok && loader.cache == {stem + ".js"} && loader.stack == []
  {
    loader := new Loader(graph);
    StemLoadsAlone(graph, stem);
    ok := loader.Load(stem);
  }
}
