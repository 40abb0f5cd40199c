/** Layering and running of dependent tasks (src/ubin/_workflow.py). */
module Workflow {
  import opened Bytes
  import opened Counting
  import opened StableOrder

  type Inputs<+V> = map<string, V>

  datatype Task<!V, !E> = Task(name: string, run: Inputs<V> -> Result<V, E>, dependsOn: seq<string>)

  datatype FlowError<+E> =
    | InvalidName
    | SelfDependency
    | UnknownDependencies(names: set<string>)
    | DependencyCycle
    | TaskFailed(error: E)

  // Names

  function CharLess(): Less<char> {
    (x: char, y: char) => x < y
  }

  /** Comparison of strings by code point. */
  predicate NameLess(a: string, b: string) {
    LexLess(CharLess(), a, b)
  }

  lemma NameLessAt(a: string, b: string, c: string)
    ensures !NameLess(a, a)
    ensures NameLess(a, b) ==> !NameLess(b, a)
    ensures NameLess(a, c) ==> NameLess(a, b) || NameLess(b, c)
    ensures a != b ==> NameLess(a, b) || NameLess(b, a)
  {
    assert StrictTotal(CharLess());
    LexIsTotal(CharLess(), a, b);
    if NameLess(a, c) {
      LexSplits(CharLess(), a, b, c);
    }
  }

  /** The names agree up to k; there a ends, or has the smaller code point. */
  ghost predicate NamesDifferAt(a: string, b: string, k: nat) {
    k <= |a| && k < |b| && a[..k] == b[..k] && (k < |a| ==> a[k] as int < b[k] as int)
  }

  ghost predicate NameBefore(a: string, b: string) {
    exists k: nat :: NamesDifferAt(a, b, k)
  }

  /** Names are compared where they first differ; a proper prefix comes first. */
  lemma NameLessIff(a: string, b: string)
    ensures NameLess(a, b) <==> NameBefore(a, b)
  {
    LexDecided(CharLess(), a, b);
    forall k: nat ensures LexDiffer(CharLess(), a, b, k) <==> NamesDifferAt(a, b, k) {
    }
  }

  function ByName<V(!new), E(!new)>(): Less<Task<V, E>> {
    (a: Task<V, E>, b: Task<V, E>) => NameLess(a.name, b.name)
  }

  lemma ByNameIsOrdered<V(!new), E(!new)>()
    ensures StrictWeak(ByName<V, E>())
  {
    forall a: Task<V, E>, b: Task<V, E>, c: Task<V, E>
      ensures !NameLess(a.name, a.name)
      ensures NameLess(a.name, b.name) ==> !NameLess(b.name, a.name)
      ensures NameLess(a.name, c.name) ==> NameLess(a.name, b.name) || NameLess(b.name, c.name)
    {
      NameLessAt(a.name, b.name, c.name);
    }
  }

  function NamesOf<V(!new), E(!new)>(tasks: seq<Task<V, E>>): (r: set<string>)
    ensures forall n :: n in r <==> IsTask(tasks, n)
  {
    set i | 0 <= i < |tasks| :: tasks[i].name
  }

  predicate IsTask<V(!new), E(!new)>(tasks: seq<Task<V, E>>, name: string) {
    exists i :: 0 <= i < |tasks| && tasks[i].name == name
  }

  ghost predicate UniqueNames<V(!new), E(!new)>(tasks: seq<Task<V, E>>) {
    forall i, j :: 0 <= i < j < |tasks| ==> tasks[i].name != tasks[j].name
  }

  // Dependencies

  ghost predicate DependsOn<V(!new), E(!new)>(tasks: seq<Task<V, E>>, a: string, b: string) {
    exists i :: 0 <= i < |tasks| && tasks[i].name == a && b in tasks[i].dependsOn
  }

  ghost predicate AllKnown<V(!new), E(!new)>(tasks: seq<Task<V, E>>) {
    forall a, b :: DependsOn(tasks, a, b) ==> IsTask(tasks, b)
  }

  /** A walk along dependencies. */
  ghost predicate IsWalk<V(!new), E(!new)>(tasks: seq<Task<V, E>>, w: seq<string>) {
    forall i :: 0 <= i < |w| - 1 ==> DependsOn(tasks, w[i], w[i + 1])
  }

  ghost predicate IsCycle<V(!new), E(!new)>(tasks: seq<Task<V, E>>, w: seq<string>) {
    |w| >= 2 && IsWalk(tasks, w) && w[0] == w[|w| - 1]
  }

  ghost predicate Acyclic<V(!new), E(!new)>(tasks: seq<Task<V, E>>) {
    forall w :: !IsCycle(tasks, w)
  }

  ghost predicate IsChain<V(!new), E(!new)>(tasks: seq<Task<V, E>>, name: string, k: nat, w: seq<string>) {
    |w| == k + 1 && w[0] == name && IsWalk(tasks, w)
  }

  /** A chain of k dependencies starts at the name. */
  ghost predicate HasChain<V(!new), E(!new)>(tasks: seq<Task<V, E>>, name: string, k: nat) {
    exists w :: IsChain(tasks, name, k, w)
  }

  /** The longest chain from the name has exactly k dependencies. */
  ghost predicate DepthIs<V(!new), E(!new)>(tasks: seq<Task<V, E>>, name: string, k: nat) {
    HasChain(tasks, name, k) && !HasChain(tasks, name, k + 1)
  }

  lemma ChainExtends<V(!new), E(!new)>(tasks: seq<Task<V, E>>, name: string, b: string, k: nat)
    requires DependsOn(tasks, name, b) && HasChain(tasks, b, k)
    ensures HasChain(tasks, name, k + 1)
  {
    var w :| IsChain(tasks, b, k, w);
    var longer := [name] + w;
    forall i | 0 <= i < |longer| - 1 ensures DependsOn(tasks, longer[i], longer[i + 1]) {
      if i > 0 {
        assert DependsOn(tasks, w[i - 1], w[i - 1 + 1]);
      }
    }
    assert IsChain(tasks, name, k + 1, longer);
  }

  lemma ChainTail<V(!new), E(!new)>(tasks: seq<Task<V, E>>, name: string, k: nat) returns (b: string)
    requires HasChain(tasks, name, k + 1)
    ensures DependsOn(tasks, name, b) && HasChain(tasks, b, k)
  {
    var w :| IsChain(tasks, name, k + 1, w);
    b := w[1];
    assert DependsOn(tasks, w[0], w[0 + 1]);
    forall i | 0 <= i < |w[1..]| - 1 ensures DependsOn(tasks, w[1..][i], w[1..][i + 1]) {
      assert DependsOn(tasks, w[i + 1], w[i + 1 + 1]);
    }
    assert IsChain(tasks, b, k, w[1..]);
  }

  lemma ChainOfNone<V(!new), E(!new)>(tasks: seq<Task<V, E>>, name: string)
    ensures HasChain(tasks, name, 0)
  {
    assert IsChain(tasks, name, 0, [name]);
  }

  lemma ChainShortens<V(!new), E(!new)>(tasks: seq<Task<V, E>>, name: string, k: nat, m: nat)
    requires m <= k && HasChain(tasks, name, k)
    ensures HasChain(tasks, name, m)
  {
    var w :| IsChain(tasks, name, k, w);
    var shorter := w[..m + 1];
    forall i | 0 <= i < |shorter| - 1 ensures DependsOn(tasks, shorter[i], shorter[i + 1]) {
      assert DependsOn(tasks, w[i], w[i + 1]);
    }
    assert IsChain(tasks, name, m, shorter);
  }

  /** Chains of every length start on a cycle. */
  lemma {:induction false} CycleHasChains<V(!new), E(!new)>(tasks: seq<Task<V, E>>, w: seq<string>, i: nat, k: nat)
    requires IsCycle(tasks, w) && i < |w|
    ensures HasChain(tasks, w[i], k)
    decreases k
  {
    if k > 0 {
      var j := if i == |w| - 1 then 0 else i;
      CycleHasChains(tasks, w, j + 1, k - 1);
      assert DependsOn(tasks, w[j], w[j + 1]);
      ChainExtends(tasks, w[j], w[j + 1], k - 1);
    } else {
      ChainOfNone(tasks, w[i]);
    }
  }

  lemma WalkStaysKnown<V(!new), E(!new)>(tasks: seq<Task<V, E>>, w: seq<string>)
    requires AllKnown(tasks) && IsWalk(tasks, w) && w != [] && IsTask(tasks, w[0])
    ensures forall i :: 0 <= i < |w| ==> IsTask(tasks, w[i])
  {
    forall i | 0 <= i < |w| ensures IsTask(tasks, w[i]) {
      if i > 0 {
        assert DependsOn(tasks, w[i - 1], w[i - 1 + 1]);
      }
    }
  }

  lemma {:induction false} NamesCount<V(!new), E(!new)>(tasks: seq<Task<V, E>>)
    ensures |NamesOf(tasks)| <= |tasks|
  {
    if tasks == [] {
      assert NamesOf(tasks) == {};
    } else {
      var rest := tasks[..|tasks| - 1];
      NamesCount(rest);
      forall n | n in NamesOf(tasks) ensures n in NamesOf(rest) + {tasks[|tasks| - 1].name} {
        var i :| 0 <= i < |tasks| && tasks[i].name == n;
        if i < |rest| {
          assert rest[i].name == n;
        }
      }
      SubsetSize(NamesOf(tasks), NamesOf(rest) + {tasks[|tasks| - 1].name});
    }
  }

  /** A chain as long as there are tasks visits some name twice: there is a cycle. */
  lemma LongChainMeansCycle<V(!new), E(!new)>(tasks: seq<Task<V, E>>, name: string) returns (cycle: seq<string>)
    requires AllKnown(tasks) && IsTask(tasks, name) && HasChain(tasks, name, |tasks|)
    ensures IsCycle(tasks, cycle)
  {
    var w :| IsChain(tasks, name, |tasks|, w);
    WalkStaysKnown(tasks, w);
    NamesCount(tasks);
    var i, j := Pigeonhole(w, NamesOf(tasks));
    cycle := w[i..j + 1];
    forall k | 0 <= k < |cycle| - 1 ensures DependsOn(tasks, cycle[k], cycle[k + 1]) {
      assert DependsOn(tasks, w[i + k], w[i + k + 1]);
    }
  }

  // Layers

  /** The tasks that satisfy p, in order. */
  function Filter<T(!new)>(s: seq<T>, p: T -> bool): (r: seq<T>)
    ensures |r| <= |s|
    ensures forall t :: t in r <==> t in s && p(t)
  {
    if s == [] then [] else (if p(s[0]) then [s[0]] else []) + Filter(s[1..], p)
  }

  function Both<T>(p: T -> bool, q: T -> bool): T -> bool {
    t => p(t) && q(t)
  }

  function NotIn<V, E>(names: set<string>): Task<V, E> -> bool {
    (t: Task<V, E>) => t.name !in names
  }

  function NotNamed<V, E>(name: string): Task<V, E> -> bool {
    (t: Task<V, E>) => t.name != name
  }

  function ReadyFor<V(!new), E(!new)>(completed: set<string>): Task<V, E> -> bool {
    (t: Task<V, E>) => IsReady(t, completed)
  }

  ghost function OfDepth<V(!new), E(!new)>(tasks: seq<Task<V, E>>, k: nat): Task<V, E> -> bool {
    (t: Task<V, E>) => DepthIs(tasks, t.name, k)
  }

  /** Layer k: the tasks of depth k, in order of name. */
  ghost function LayerAt<V(!new), E(!new)>(tasks: seq<Task<V, E>>, k: nat): seq<Task<V, E>> {
    Values(ByName(), Filter(tasks, OfDepth(tasks, k)))
  }

  ghost predicate IsLayer<V(!new), E(!new)>(tasks: seq<Task<V, E>>, k: nat, layer: seq<Task<V, E>>) {
    layer == LayerAt(tasks, k) && layer != []
  }

  ghost predicate AreLayers<V(!new), E(!new)>(tasks: seq<Task<V, E>>, layers: seq<seq<Task<V, E>>>) {
    forall k :: 0 <= k < |layers| ==> IsLayer(tasks, k, layers[k])
  }

  lemma AppendLayer<V(!new), E(!new)>(tasks: seq<Task<V, E>>, layers: seq<seq<Task<V, E>>>, layer: seq<Task<V, E>>)
    requires AreLayers(tasks, layers) && IsLayer(tasks, |layers|, layer)
    ensures AreLayers(tasks, layers + [layer])
  {
    var longer := layers + [layer];
    forall k | 0 <= k < |longer| ensures IsLayer(tasks, k, longer[k]) {
      if k < |layers| {
        assert IsLayer(tasks, k, layers[k]) && longer[k] == layers[k];
      }
    }
  }

  /** completed holds the names whose longest chain is shorter than k. */
  ghost predicate CompletedBelow<V(!new), E(!new)>(tasks: seq<Task<V, E>>, completed: set<string>, k: nat) {
    forall n :: n in completed <==> IsTask(tasks, n) && !HasChain(tasks, n, k)
  }

  predicate IsReady<V(!new), E(!new)>(t: Task<V, E>, completed: set<string>) {
    forall d :: d in t.dependsOn ==> d in completed
  }

  /** What is not completed and has its dependencies completed is exactly the next depth. */
  lemma ReadyIsNextDepth<V(!new), E(!new)>(tasks: seq<Task<V, E>>, completed: set<string>, k: nat, t: Task<V, E>)
    requires AllKnown(tasks) && UniqueNames(tasks) && CompletedBelow(tasks, completed, k) && t in tasks
    ensures t.name !in completed && IsReady(t, completed) <==> DepthIs(tasks, t.name, k)
  {
    assert IsTask(tasks, t.name) && forall d :: d in t.dependsOn <==> DependsOn(tasks, t.name, d);
    if HasChain(tasks, t.name, k + 1) {
      var b := ChainTail(tasks, t.name, k);
      assert b !in completed;
    } else {
      forall d | d in t.dependsOn ensures d in completed {
        if HasChain(tasks, d, k) {
          ChainExtends(tasks, t.name, d, k);
        }
      }
    }
  }

  lemma {:induction false} SameFilter<T(!new)>(s: seq<T>, p: T -> bool, q: T -> bool)
    requires forall t :: t in s ==> p(t) == q(t)
    ensures Filter(s, p) == Filter(s, q)
  {
    if s != [] {
      SameFilter(s[1..], p, q);
    }
  }

  lemma {:induction false} FilterTwice<T(!new)>(s: seq<T>, p: T -> bool, q: T -> bool)
    ensures Filter(Filter(s, p), q) == Filter(s, Both(p, q))
  {
    if s != [] {
      FilterTwice(s[1..], p, q);
      var rest := Filter(s[1..], p);
      if p(s[0]) {
        assert ([s[0]] + rest)[1..] == rest;
      } else {
        assert [] + rest == rest;
      }
    }
  }

  /** Every dependency chain is shorter than n: all layers lie below n. */
  ghost predicate AllAbove<V(!new), E(!new)>(tasks: seq<Task<V, E>>, n: nat) {
    forall name :: IsTask(tasks, name) ==> !HasChain(tasks, name, n)
  }

  /** The tasks not completed yet. */
  function Open<V(!new), E(!new)>(tasks: seq<Task<V, E>>, completed: set<string>): seq<Task<V, E>> {
    Filter(tasks, NotIn(completed))
  }

  function UnknownNames<V(!new), E(!new)>(remaining: seq<Task<V, E>>, tasks: seq<Task<V, E>>): set<string> {
    set i, d | 0 <= i < |remaining| && d in remaining[i].dependsOn && !IsTask(tasks, d) :: d
  }

  lemma NothingCompleted<V(!new), E(!new)>(tasks: seq<Task<V, E>>)
    ensures Open(tasks, {}) == tasks && CompletedBelow(tasks, {}, 0)
    ensures forall n :: HasChain(tasks, n, 0)
  {
    FilterAll(tasks, NotIn({}));
    forall n ensures HasChain(tasks, n, 0) {
      ChainOfNone(tasks, n);
    }
  }

  lemma {:induction false} FilterAll<T(!new)>(s: seq<T>, p: T -> bool)
    requires forall t :: t in s ==> p(t)
    ensures Filter(s, p) == s
  {
    if s != [] {
      FilterAll(s[1..], p);
    }
  }

  lemma MissingMeansUnknown<V(!new), E(!new)>(remaining: seq<Task<V, E>>, tasks: seq<Task<V, E>>,
                                              completed: set<string>)
    requires remaining == Open(tasks, completed) && (!AllKnown(tasks) ==> remaining == tasks)
    ensures UnknownNames(remaining, tasks) == {} <==> AllKnown(tasks)
    ensures !AllKnown(tasks) ==> UnknownNames(remaining, tasks) == UnknownNames(tasks, tasks)
  {
    if AllKnown(tasks) {
      forall i, d | 0 <= i < |remaining| && d in remaining[i].dependsOn ensures IsTask(tasks, d) {
        assert remaining[i] in tasks;
        var j :| 0 <= j < |tasks| && tasks[j] == remaining[i];
        assert DependsOn(tasks, tasks[j].name, d);
      }
    } else {
      var a, b :| DependsOn(tasks, a, b) && !IsTask(tasks, b);
      var i :| 0 <= i < |tasks| && tasks[i].name == a && b in tasks[i].dependsOn;
      assert b in UnknownNames(tasks, tasks);
    }
  }

  /** The ready tasks, before sorting, are the tasks of the next depth in insertion order. */
  lemma ReadyIsLayer<V(!new), E(!new)>(tasks: seq<Task<V, E>>, completed: set<string>, k: nat)
    requires AllKnown(tasks) && UniqueNames(tasks) && CompletedBelow(tasks, completed, k)
    ensures Filter(Open(tasks, completed), ReadyFor(completed))
            == Filter(tasks, OfDepth(tasks, k))
  {
    var open, ready := NotIn(completed), ReadyFor(completed);
    var both, deep := Both(open, ready), OfDepth(tasks, k);
    FilterTwice(tasks, open, ready);
    forall t | t in tasks ensures both(t) == deep(t) {
      ReadyIsNextDepth(tasks, completed, k, t);
    }
    SameFilter(tasks, both, deep);
  }

  /** When no name has depth k, chains of length k can be made as long as one likes. */
  lemma {:induction false} ChainsGrow<V(!new), E(!new)>(tasks: seq<Task<V, E>>, k: nat, name: string, m: nat)
    requires AllKnown(tasks) && IsTask(tasks, name) && HasChain(tasks, name, k)
    requires forall n :: IsTask(tasks, n) ==> !DepthIs(tasks, n, k)
    ensures HasChain(tasks, name, k + m)
    decreases m
  {
    if m > 0 {
      assert HasChain(tasks, name, k + 1);
      var b := ChainTail(tasks, name, k);
      ChainsGrow(tasks, k, b, m - 1);
      ChainExtends(tasks, name, b, k + m - 1);
    }
  }

  /** The names in layer k are those of depth k. */
  lemma LayerNames<V(!new), E(!new)>(tasks: seq<Task<V, E>>, k: nat, ready: seq<Task<V, E>>)
    requires forall t :: t in ready <==> t in tasks && DepthIs(tasks, t.name, k)
    ensures forall n :: IsTask(ready, n) <==> IsTask(tasks, n) && DepthIs(tasks, n, k)
  {
    forall n ensures IsTask(ready, n) <==> IsTask(tasks, n) && DepthIs(tasks, n, k) {
      if IsTask(ready, n) {
        var i :| 0 <= i < |ready| && ready[i].name == n;
        assert ready[i] in tasks;
      }
      if IsTask(tasks, n) && DepthIs(tasks, n, k) {
        var j :| 0 <= j < |tasks| && tasks[j].name == n;
        assert tasks[j] in ready;
      }
    }
  }

  /** Open tasks of which none is ready lie on or above a cycle. */
  lemma StuckMeansCycle<V(!new), E(!new)>(tasks: seq<Task<V, E>>, completed: set<string>, k: nat)
    requires AllKnown(tasks) && CompletedBelow(tasks, completed, k)
    requires Open(tasks, completed) != []
    requires Filter(tasks, OfDepth(tasks, k)) == []
    ensures !Acyclic(tasks)
  {
    LayerNames(tasks, k, []);
    var t := Open(tasks, completed)[0];
    assert t in Open(tasks, completed);
    assert t in tasks && IsTask(tasks, t.name) && HasChain(tasks, t.name, k);
    ChainsGrow(tasks, k, t.name, |tasks|);
    ChainShortens(tasks, t.name, k + |tasks|, |tasks|);
    var cycle := LongChainMeansCycle(tasks, t.name);
  }

  lemma NextCompleted<V(!new), E(!new)>(tasks: seq<Task<V, E>>, completed: set<string>, k: nat, ready: seq<Task<V, E>>)
    requires CompletedBelow(tasks, completed, k)
    requires forall n :: IsTask(ready, n) <==> IsTask(tasks, n) && DepthIs(tasks, n, k)
    ensures CompletedBelow(tasks, completed + NamesOf(ready), k + 1)
  {
    forall n ensures n in completed + NamesOf(ready) <==> IsTask(tasks, n) && !HasChain(tasks, n, k + 1) {
      if HasChain(tasks, n, k + 1) {
        ChainShortens(tasks, n, k + 1, k);
      }
    }
  }

  lemma LayerMembers<V(!new), E(!new)>(tasks: seq<Task<V, E>>, k: nat)
    ensures forall t :: t in LayerAt(tasks, k) <==> t in tasks && DepthIs(tasks, t.name, k)
    ensures Sorted(ByName(), LayerAt(tasks, k))
    ensures |LayerAt(tasks, k)| == |Filter(tasks, OfDepth(tasks, k))|
  {
    ByNameIsOrdered<V, E>();
    var members := Filter(tasks, OfDepth(tasks, k));
    ValuesCorrect(ByName(), members);
    forall t ensures t in LayerAt(tasks, k) <==> t in members {
      assert t in LayerAt(tasks, k) <==> t in multiset(LayerAt(tasks, k));
      assert t in members <==> t in multiset(members);
    }
  }

  /** Once nothing is open, every chain is short, so there is no cycle. */
  lemma AllCompleted<V(!new), E(!new)>(tasks: seq<Task<V, E>>, completed: set<string>, n: nat)
    requires CompletedBelow(tasks, completed, n) && Open(tasks, completed) == []
    ensures AllAbove(tasks, n) && Acyclic(tasks)
  {
    forall name | IsTask(tasks, name) ensures !HasChain(tasks, name, n) {
      var i :| 0 <= i < |tasks| && tasks[i].name == name;
      assert tasks[i] !in Open(tasks, completed);
    }
    forall w ensures !IsCycle(tasks, w) {
      if IsCycle(tasks, w) {
        assert DependsOn(tasks, w[0], w[1]);
        CycleHasChains(tasks, w, 0, n);
      }
    }
  }

  lemma {:induction false} FilterShrinks<T(!new)>(s: seq<T>, p: T -> bool, q: T -> bool, x: T)
    requires x in s && p(x) && !q(x) && forall t :: q(t) ==> p(t)
    ensures |Filter(s, q)| < |Filter(s, p)|
  {
    if x in s[1..] {
      FilterShrinks(s[1..], p, q, x);
    } else {
      FilterWeaker(s[1..], p, q);
    }
  }

  lemma {:induction false} FilterWeaker<T(!new)>(s: seq<T>, p: T -> bool, q: T -> bool)
    requires forall t :: q(t) ==> p(t)
    ensures |Filter(s, q)| <= |Filter(s, p)|
  {
    if s != [] {
      FilterWeaker(s[1..], p, q);
    }
  }

  /** Everything one round of the layering loop needs. */
  lemma Round<V(!new), E(!new)>(tasks: seq<Task<V, E>>, completed: set<string>, k: nat)
    requires AllKnown(tasks) && UniqueNames(tasks) && CompletedBelow(tasks, completed, k)
    requires Open(tasks, completed) != []
    ensures var ready := Filter(Open(tasks, completed), ReadyFor(completed));
            var layer := Values(ByName(), ready);
            && (ready == [] ==> !Acyclic(tasks))
            && (ready != [] ==> IsLayer(tasks, k, layer)
                                && CompletedBelow(tasks, completed + NamesOf(layer), k + 1)
                                && |Open(tasks, completed + NamesOf(layer))| < |Open(tasks, completed)|)
  {
    var ready := Filter(Open(tasks, completed), ReadyFor(completed));
    ReadyIsLayer(tasks, completed, k);
    if ready == [] {
      StuckMeansCycle(tasks, completed, k);
    } else {
      var layer := LayerAt(tasks, k);
      LayerMembers(tasks, k);
      LayerNames(tasks, k, layer);
      NextCompleted(tasks, completed, k, layer);
      assert layer[0] in layer && IsTask(layer, layer[0].name);
      FilterShrinks(tasks, NotIn(completed), NotIn(completed + NamesOf(layer)), layer[0]);
    }
  }

  /** Moves the ready tasks from the open ones to the completed ones. */
  method Complete<V(!new), E(!new)>(ghost tasks: seq<Task<V, E>>, remaining: seq<Task<V, E>>, completed: set<string>,
                                    ready: seq<Task<V, E>>)
    returns (rest: seq<Task<V, E>>, done: set<string>)
    requires remaining == Open(tasks, completed)
    ensures done == completed + NamesOf(ready)
    ensures rest == Open(tasks, done)
  {
    hide NamesOf, IsTask, Open, Filter;
    NamesOfNone<V, E>();
    assert ready[..0] == [];
    rest, done := remaining, completed;
    for i := 0 to |ready|
      invariant done == completed + NamesOf(ready[..i])
      invariant rest == Open(tasks, done)
    {
      NamesAppend(ready[..i], ready[i]);
      assert ready[..i] + [ready[i]] == ready[..i + 1];
      OpenWithout(tasks, done, ready[i].name);
      done := done + {ready[i].name};
      rest := Filter(rest, NotNamed(ready[i].name));
    }
    assert ready[..|ready|] == ready;
  }

  lemma NamesOfNone<V(!new), E(!new)>()
    ensures NamesOf<V, E>([]) == {}
  {
  }

  lemma NamesAppend<V(!new), E(!new)>(tasks: seq<Task<V, E>>, t: Task<V, E>)
    ensures NamesOf(tasks + [t]) == NamesOf(tasks) + {t.name}
  {
    var all := tasks + [t];
    forall n ensures IsTask(all, n) <==> IsTask(tasks, n) || n == t.name {
      if IsTask(tasks, n) {
        var i :| 0 <= i < |tasks| && tasks[i].name == n;
        assert all[i].name == n;
      }
      assert all[|tasks|] == t;
    }
  }

  lemma OpenWithout<V(!new), E(!new)>(tasks: seq<Task<V, E>>, completed: set<string>, name: string)
    ensures Filter(Open(tasks, completed), NotNamed(name)) == Open(tasks, completed + {name})
  {
    var open, other := NotIn(completed), NotNamed(name);
    FilterTwice(tasks, open, other);
    SameFilter(tasks, Both(open, other), NotIn(completed + {name}));
  }

  /** One round of the layering loop. */
  method TakeLayer<V(!new), E(!new)>(ghost tasks: seq<Task<V, E>>, remaining: seq<Task<V, E>>, completed: set<string>,
                                     ghost k: nat)
    returns (ready: seq<Task<V, E>>, rest: seq<Task<V, E>>, done: set<string>)
    requires AllKnown(tasks) && UniqueNames(tasks) && CompletedBelow(tasks, completed, k)
    requires remaining == Open(tasks, completed) != []
    ensures ready == [] ==> !Acyclic(tasks)
    ensures ready != [] ==> IsLayer(tasks, k, ready) && CompletedBelow(tasks, done, k + 1)
    ensures ready != [] ==> rest == Open(tasks, done) && |rest| < |remaining|
  {
    ready := Filter(remaining, ReadyFor(completed));
    Round(tasks, completed, k);
    rest, done := remaining, completed;
    if ready != [] {
      ready := Values(ByName(), ready);
      rest, done := Complete(tasks, remaining, completed, ready);
    }
  }

  // What a caller sees of the layers

  /** A task is named like that and comes in an earlier layer. */
  ghost predicate InEarlier<V(!new), E(!new)>(layers: seq<seq<Task<V, E>>>, k: nat, name: string)
    requires k <= |layers|
  {
    exists j: nat :: j < k && IsTask(layers[j], name)
  }

  /**
   No layer is empty and together they hold the tasks.  The dependencies of a task come in earlier
   layers, one of them in the last of these, so no task comes later than it has to.  Within a layer
   the names ascend.
   */
  ghost predicate Scheduled<V(!new), E(!new)>(tasks: seq<Task<V, E>>, layers: seq<seq<Task<V, E>>>) {
    && (forall t :: t in tasks <==> InSome(layers, t))
    && (forall k: nat :: k < |layers| ==> layers[k] != [] && NamesAscend(layers[k]))
    && (forall k: nat, t :: k < |layers| && t in layers[k] ==> NoSooner(layers, k, t))
  }

  ghost predicate InSome<V(!new), E(!new)>(layers: seq<seq<Task<V, E>>>, t: Task<V, E>) {
    exists k: nat :: k < |layers| && t in layers[k]
  }

  /** Layer k is the first one behind all dependencies of the task. */
  ghost predicate NoSooner<V(!new), E(!new)>(layers: seq<seq<Task<V, E>>>, k: nat, t: Task<V, E>)
    requires k < |layers|
  {
    && (forall d :: d in t.dependsOn ==> InEarlier(layers, k, d))
    && (k > 0 ==> exists d :: d in t.dependsOn && IsTask(layers[k - 1], d))
  }

  ghost predicate NamesAscend<V(!new), E(!new)>(layer: seq<Task<V, E>>) {
    forall i, j :: 0 <= i < j < |layer| ==> NameBefore(layer[i].name, layer[j].name)
  }

  lemma UniqueFront<V(!new), E(!new)>(t: Task<V, E>, rest: seq<Task<V, E>>)
    ensures UniqueNames([t] + rest) <==> UniqueNames(rest) && forall u :: u in rest ==> u.name != t.name
  {
    var all := [t] + rest;
    assert all[0] == t && forall i :: 0 <= i < |rest| ==> all[i + 1] == rest[i];
  }

  lemma {:induction false} FilterUnique<V(!new), E(!new)>(tasks: seq<Task<V, E>>, p: Task<V, E> -> bool)
    requires UniqueNames(tasks)
    ensures UniqueNames(Filter(tasks, p))
  {
    if tasks != [] {
      hide UniqueNames;
      var rest := tasks[1..];
      assert tasks == [tasks[0]] + rest;
      UniqueFront(tasks[0], rest);
      FilterUnique(rest, p);
      UniqueFront(tasks[0], Filter(rest, p));
      assert [] + Filter(rest, p) == Filter(rest, p);
    } else {
      assert Filter(tasks, p) == tasks;
    }
  }

  /** A task that is listed twice counts twice. */
  lemma OnceIfUnique<V(!new), E(!new)>(tasks: seq<Task<V, E>>, t: Task<V, E>)
    requires UniqueNames(tasks)
    ensures multiset(tasks)[t] <= 1
  {
    if i: nat :| i < |tasks| && tasks[i] == t {
      assert tasks == tasks[..i] + [t] + tasks[i + 1..];
      assert t !in tasks[..i] && t !in tasks[i + 1..];
    }
  }

  lemma TwiceIfRepeated<T>(s: seq<T>, i: nat, j: nat)
    requires i < j < |s| && s[i] == s[j]
    ensures multiset(s)[s[i]] >= 2
  {
    assert s == s[..i] + [s[i]] + s[i + 1..j] + [s[j]] + s[j + 1..];
  }

  /** The names of a layer ascend. */
  lemma LayerAscends<V(!new), E(!new)>(tasks: seq<Task<V, E>>, k: nat)
    requires UniqueNames(tasks)
    ensures NamesAscend(LayerAt(tasks, k))
  {
    var members := Filter(tasks, OfDepth(tasks, k));
    var layer := LayerAt(tasks, k);
    ByNameIsOrdered<V, E>();
    ValuesCorrect(ByName(), members);
    FilterUnique(tasks, OfDepth(tasks, k));
    LayerMembers(tasks, k);
    forall i, j | 0 <= i < j < |layer| ensures NameBefore(layer[i].name, layer[j].name) {
      if layer[i].name == layer[j].name {
        UniqueTasks(tasks, layer[i], layer[j]);
        TwiceIfRepeated(layer, i, j);
        OnceIfUnique(members, layer[i]);
      }
      NameLessAt(layer[i].name, layer[j].name, layer[j].name);
      NameLessIff(layer[i].name, layer[j].name);
      assert !ByName()(layer[j], layer[i]);
    }
  }

  lemma {:induction false} DepthExists<V(!new), E(!new)>(tasks: seq<Task<V, E>>, name: string, k: nat)
    returns (m: nat)
    requires !HasChain(tasks, name, k)
    ensures m < k && DepthIs(tasks, name, m)
  {
    ChainOfNone(tasks, name);
    if HasChain(tasks, name, k - 1) {
      m := k - 1;
    } else {
      m := DepthExists(tasks, name, k - 1);
    }
  }

  lemma DependencyEarlier<V(!new), E(!new)>(tasks: seq<Task<V, E>>, layers: seq<seq<Task<V, E>>>, k: nat,
                                            t: Task<V, E>, d: string)
    requires AllKnown(tasks) && AreLayers(tasks, layers) && k < |layers| && t in tasks && DepthIs(tasks, t.name, k)
    requires d in t.dependsOn
    ensures InEarlier(layers, k, d)
  {
    assert DependsOn(tasks, t.name, d);
    if HasChain(tasks, d, k) {
      ChainExtends(tasks, t.name, d, k);
    }
    var m := DepthExists(tasks, d, k);
    AtItsDepth(tasks, layers, d, m);
  }

  lemma OneRightBefore<V(!new), E(!new)>(tasks: seq<Task<V, E>>, layers: seq<seq<Task<V, E>>>, k: nat,
                                         t: Task<V, E>) returns (d: string)
    requires AllKnown(tasks) && UniqueNames(tasks) && AreLayers(tasks, layers) && 0 < k < |layers|
    requires t in tasks && DepthIs(tasks, t.name, k)
    ensures d in t.dependsOn && IsTask(layers[k - 1], d)
  {
    d := ChainTail(tasks, t.name, k - 1);
    var i :| 0 <= i < |tasks| && tasks[i].name == t.name && d in tasks[i].dependsOn;
    UniqueTasks(tasks, t, tasks[i]);
    if HasChain(tasks, d, k) {
      ChainExtends(tasks, t.name, d, k);
    }
    AtItsDepth(tasks, layers, d, k - 1);
  }

  /** A task of depth k has its dependencies in earlier layers, and one of them right before. */
  lemma DependenciesFirst<V(!new), E(!new)>(tasks: seq<Task<V, E>>, layers: seq<seq<Task<V, E>>>, k: nat,
                                            t: Task<V, E>)
    requires AllKnown(tasks) && UniqueNames(tasks) && AreLayers(tasks, layers) && k < |layers| && t in layers[k]
    ensures NoSooner(layers, k, t)
  {
    hide AllKnown, UniqueNames, AreLayers, IsTask, InEarlier, LayerAt, DepthIs;
    InLayer(tasks, layers, k, t);
    forall d | d in t.dependsOn ensures InEarlier(layers, k, d) {
      DependencyEarlier(tasks, layers, k, t, d);
    }
    if k > 0 {
      var d := OneRightBefore(tasks, layers, k, t);
    }
  }

  lemma InLayer<V(!new), E(!new)>(tasks: seq<Task<V, E>>, layers: seq<seq<Task<V, E>>>, k: nat, t: Task<V, E>)
    requires AreLayers(tasks, layers) && k < |layers|
    ensures t in layers[k] <==> t in tasks && DepthIs(tasks, t.name, k)
    ensures layers[k] != []
  {
    assert IsLayer(tasks, k, layers[k]);
    LayerMembers(tasks, k);
  }

  lemma AtItsDepth<V(!new), E(!new)>(tasks: seq<Task<V, E>>, layers: seq<seq<Task<V, E>>>, name: string, m: nat)
    requires AreLayers(tasks, layers) && m < |layers| && IsTask(tasks, name) && DepthIs(tasks, name, m)
    ensures IsTask(layers[m], name)
  {
    assert IsLayer(tasks, m, layers[m]);
    LayerMembers(tasks, m);
    LayerNames(tasks, m, layers[m]);
  }

  /** The layers by depth are the earliest possible ones. */
  lemma LayersAreScheduled<V(!new), E(!new)>(tasks: seq<Task<V, E>>, layers: seq<seq<Task<V, E>>>)
    requires AllKnown(tasks) && UniqueNames(tasks) && AreLayers(tasks, layers) && AllAbove(tasks, |layers|)
    ensures Scheduled(tasks, layers)
  {
    hide AllKnown, AreLayers, LayerAt, DepthIs, NamesAscend, NoSooner;
    forall t ensures t in tasks <==> InSome(layers, t) {
      InSomeLayer(tasks, layers, t);
    }
    forall k: nat | k < |layers| ensures layers[k] != [] && NamesAscend(layers[k]) {
      AscendingLayer(tasks, layers, k);
    }
    forall k: nat, t | k < |layers| && t in layers[k] ensures NoSooner(layers, k, t) {
      DependenciesFirst(tasks, layers, k, t);
    }
  }

  lemma AscendingLayer<V(!new), E(!new)>(tasks: seq<Task<V, E>>, layers: seq<seq<Task<V, E>>>, k: nat)
    requires UniqueNames(tasks) && AreLayers(tasks, layers) && k < |layers|
    ensures layers[k] != [] && NamesAscend(layers[k])
  {
    assert IsLayer(tasks, k, layers[k]);
    LayerAscends(tasks, k);
  }

  lemma InSomeLayer<V(!new), E(!new)>(tasks: seq<Task<V, E>>, layers: seq<seq<Task<V, E>>>, t: Task<V, E>)
    requires AreLayers(tasks, layers) && AllAbove(tasks, |layers|)
    ensures t in tasks <==> InSome(layers, t)
  {
    if t in tasks {
      assert IsTask(tasks, t.name);
      var k := DepthExists(tasks, t.name, |layers|);
      InLayer(tasks, layers, k, t);
    }
    if k: nat :| k < |layers| && t in layers[k] {
      InLayer(tasks, layers, k, t);
    }
  }

  // Running

  /** The results handed to a task: those of its dependencies and no others. */
  function InputsFor<V(!new), E(!new)>(t: Task<V, E>, results: Inputs<V>): Inputs<V> {
    map d | d in t.dependsOn && d in results :: results[d]
  }

  /** Runs a layer in order, every task on the results from before the layer. */
  function RunLayer<V(!new), E(!new)>(layer: seq<Task<V, E>>, before: Inputs<V>, results: Inputs<V>)
    : Result<Inputs<V>, FlowError<E>>
  {
    if layer == [] then Ok(results)
    else match layer[0].run(InputsFor(layer[0], before))
         case Err(e) => Err(TaskFailed(e))
         case Ok(v) => RunLayer(layer[1..], before, results[layer[0].name := v])
  }

  function RunLayers<V(!new), E(!new)>(layers: seq<seq<Task<V, E>>>, results: Inputs<V>)
    : Result<Inputs<V>, FlowError<E>>
  {
    if layers == [] then Ok(results)
    else var r :- RunLayer(layers[0], results, results); RunLayers(layers[1..], r)
  }

  /** Without cycles no chain is as long as there are tasks. */
  lemma AcyclicIsShallow<V(!new), E(!new)>(tasks: seq<Task<V, E>>)
    requires AllKnown(tasks) && Acyclic(tasks)
    ensures AllAbove(tasks, |tasks|)
  {
    forall name | IsTask(tasks, name) ensures !HasChain(tasks, name, |tasks|) {
      if HasChain(tasks, name, |tasks|) {
        var cycle := LongChainMeansCycle(tasks, name);
      }
    }
  }

  /** All layers from depth k on. */
  ghost function LayersFrom<V(!new), E(!new)>(tasks: seq<Task<V, E>>, k: nat): seq<seq<Task<V, E>>>
    requires AllKnown(tasks) && Acyclic(tasks)
    decreases |tasks| - k
  {
    AcyclicIsShallow(tasks);
    if k >= |tasks| || AllAbove(tasks, k) then [] else [LayerAt(tasks, k)] + LayersFrom(tasks, k + 1)
  }

  /** What a run returns; it does not depend on how tasks of one layer are scheduled. */
  ghost function Outcome<V(!new), E(!new)>(tasks: seq<Task<V, E>>): Result<Inputs<V>, FlowError<E>> {
    if !AllKnown(tasks) then Err(UnknownDependencies(UnknownNames(tasks, tasks)))
    else if !Acyclic(tasks) then Err(DependencyCycle)
    else RunLayers(LayersFrom(tasks, 0), map[])
  }

  /** A non-empty layer has a chain of its depth, so it lies below the number of tasks. */
  lemma LayerIsDeep<V(!new), E(!new)>(tasks: seq<Task<V, E>>, k: nat, layer: seq<Task<V, E>>)
    requires AllKnown(tasks) && Acyclic(tasks) && IsLayer(tasks, k, layer)
    ensures !AllAbove(tasks, k) && k < |tasks|
  {
    LayerMembers(tasks, k);
    var t := layer[0];
    assert t in layer;
    assert t in tasks && HasChain(tasks, t.name, k);
    var i :| 0 <= i < |tasks| && tasks[i] == t;
    assert IsTask(tasks, t.name);
    AcyclicIsShallow(tasks);
    if k >= |tasks| {
      ChainShortens(tasks, t.name, k, |tasks|);
    }
  }

  /** A list of all non-empty layers is the list of layers. */
  lemma {:induction false} LayersAreAll<V(!new), E(!new)>(tasks: seq<Task<V, E>>, layers: seq<seq<Task<V, E>>>, k: nat)
    requires AllKnown(tasks) && Acyclic(tasks) && AreLayers(tasks, layers) && AllAbove(tasks, |layers|) && k <= |layers|
    ensures LayersFrom(tasks, k) == layers[k..]
    decreases |layers| - k
  {
    hide AllKnown, Acyclic, AllAbove, HasChain, LayerAt;
    if k < |layers| {
      assert IsLayer(tasks, k, layers[k]);
      LayerIsDeep(tasks, k, layers[k]);
      LayersAreAll(tasks, layers, k + 1);
    }
  }

  /** Tasks of layer k find their dependencies, and not themselves, among the shallower names. */
  lemma LayerInputs<V(!new), E(!new)>(tasks: seq<Task<V, E>>, k: nat, names: set<string>, t: Task<V, E>)
    requires AllKnown(tasks) && CompletedBelow(tasks, names, k) && t in LayerAt(tasks, k)
    ensures t.name !in names && forall d :: d in t.dependsOn ==> d in names
  {
    LayerMembers(tasks, k);
    var i :| 0 <= i < |tasks| && tasks[i] == t;
    forall d | d in t.dependsOn ensures d in names {
      assert DependsOn(tasks, t.name, d);
      if HasChain(tasks, d, k) {
        ChainExtends(tasks, t.name, d, k);
      }
    }
  }

  /** Later results of the same layer are not visible to a task. */
  lemma SameInputs<V(!new), E(!new)>(t: Task<V, E>, before: Inputs<V>, results: Inputs<V>)
    requires forall d :: d in t.dependsOn ==> d in before
    requires forall d :: d in before ==> d in results && results[d] == before[d]
    ensures InputsFor(t, results) == InputsFor(t, before)
  {
  }

  /** A solution gives every task the value that its function has on its dependencies' values. */
  ghost predicate IsSolution<V(!new), E(!new)>(tasks: seq<Task<V, E>>, results: Inputs<V>) {
    && results.Keys == NamesOf(tasks)
    && forall t :: t in tasks ==> Solves(t, results)
  }

  ghost predicate Solves<V(!new), E(!new)>(t: Task<V, E>, results: Inputs<V>) {
    t.name in results && t.run(InputsFor(t, results)) == Ok(results[t.name])
  }

  /** results gives every name of depth less than k its value. */
  ghost predicate SolvesBelow<V(!new), E(!new)>(tasks: seq<Task<V, E>>, results: Inputs<V>, k: nat) {
    forall t :: t in tasks && !HasChain(tasks, t.name, k) ==> Solves(t, results)
  }

  lemma SolvesLess<V(!new), E(!new)>(tasks: seq<Task<V, E>>, results: Inputs<V>, k: nat)
    requires k > 0 && SolvesBelow(tasks, results, k)
    ensures SolvesBelow(tasks, results, k - 1)
  {
    forall t | t in tasks && !HasChain(tasks, t.name, k - 1) ensures Solves(t, results) {
      if HasChain(tasks, t.name, k) {
        ChainShortens(tasks, t.name, k, k - 1);
      }
    }
  }

  /** Two solutions agree on names of depth less than k. */
  lemma {:induction false} SolutionsAgree<V(!new), E(!new)>(tasks: seq<Task<V, E>>, a: Inputs<V>, b: Inputs<V>, k: nat)
    requires AllKnown(tasks) && SolvesBelow(tasks, a, k) && SolvesBelow(tasks, b, k)
    ensures forall t :: t in tasks && !HasChain(tasks, t.name, k) ==>
              t.name in a && t.name in b && a[t.name] == b[t.name]
    decreases k
  {
    forall t | t in tasks && !HasChain(tasks, t.name, k)
      ensures t.name in a && t.name in b && a[t.name] == b[t.name]
    {
      assert Solves(t, a) && Solves(t, b);
      if k == 0 {
        ChainOfNone(tasks, t.name);
      } else {
        SolvesLess(tasks, a, k);
        SolvesLess(tasks, b, k);
        SolutionsAgree(tasks, a, b, k - 1);
        AgreeingInputs(tasks, t, a, b, k - 1);
      }
    }
  }

  /** Maps that agree on names of depth less than k hand a task of depth at most k the same inputs. */
  lemma AgreeingInputs<V(!new), E(!new)>(tasks: seq<Task<V, E>>, t: Task<V, E>, a: Inputs<V>, b: Inputs<V>, k: nat)
    requires AllKnown(tasks) && t in tasks && !HasChain(tasks, t.name, k + 1)
    requires forall u :: u in tasks && !HasChain(tasks, u.name, k) ==>
               u.name in a && u.name in b && a[u.name] == b[u.name]
    ensures InputsFor(t, a) == InputsFor(t, b)
  {
    forall d | d in t.dependsOn ensures d in a && d in b && a[d] == b[d] {
      assert DependsOn(tasks, t.name, d);
      if HasChain(tasks, d, k) {
        ChainExtends(tasks, t.name, d, k);
      }
      var j :| 0 <= j < |tasks| && tasks[j].name == d;
      assert tasks[j] in tasks;
    }
  }

  /** An acyclic flow has at most one solution. */
  lemma SolutionUnique<V(!new), E(!new)>(tasks: seq<Task<V, E>>, a: Inputs<V>, b: Inputs<V>)
    requires AllKnown(tasks) && Acyclic(tasks) && IsSolution(tasks, a) && IsSolution(tasks, b)
    ensures a == b
  {
    AcyclicIsShallow(tasks);
    SolutionsAgree(tasks, a, b, |tasks|);
    assert a.Keys == b.Keys;
    forall n | n in a.Keys ensures a[n] == b[n] {
      var j :| 0 <= j < |tasks| && tasks[j].name == n;
      assert tasks[j] in tasks && IsTask(tasks, n);
    }
  }

  /** r holds the value that t has on the results in before. */
  ghost predicate TaskRan<V(!new), E(!new)>(t: Task<V, E>, before: Inputs<V>, r: Inputs<V>) {
    t.name in r && t.run(InputsFor(t, before)) == Ok(r[t.name])
  }

  /** What a layer's run adds: the value of each of its tasks on the results before the layer. */
  ghost predicate LayerRan<V(!new), E(!new)>(layer: seq<Task<V, E>>, before: Inputs<V>, results: Inputs<V>,
                                             r: Inputs<V>)
  {
    && r.Keys == results.Keys + NamesOf(layer)
    && (forall n :: n in results && n !in NamesOf(layer) ==> r[n] == results[n])
    && (forall t :: t in layer ==> TaskRan(t, before, r))
  }

  lemma LayerRanStep<V(!new), E(!new)>(t: Task<V, E>, rest: seq<Task<V, E>>, before: Inputs<V>, results: Inputs<V>,
                                       v: V, r: Inputs<V>)
    requires forall u :: u in rest && u.name == t.name ==> u == t
    requires t.run(InputsFor(t, before)) == Ok(v)
    requires LayerRan(rest, before, results[t.name := v], r)
    ensures LayerRan([t] + rest, before, results, r)
  {
    NamesFront(t, rest);
    NamedAgain(t, rest);
    hide NamesOf, InputsFor, IsTask;
    assert TaskRan(t, before, r) by {
      if t.name in NamesOf(rest) {
        var u :| u in rest && u.name == t.name;
        assert TaskRan(u, before, r);
      } else {
        assert r[t.name] == v;
      }
    }
    hide TaskRan;
    forall u | u in [t] + rest ensures TaskRan(u, before, r) {
      assert u == t || u in rest;
    }
  }

  lemma {:induction false} RunLayerCorrect<V(!new), E(!new)>(layer: seq<Task<V, E>>, before: Inputs<V>,
                                                             results: Inputs<V>)
    requires forall t, u :: t in layer && u in layer && t.name == u.name ==> t == u
    requires RunLayer(layer, before, results).Ok?
    ensures LayerRan(layer, before, results, RunLayer(layer, before, results).value)
  {
    if layer == [] {
      assert NamesOf(layer) == {};
    } else {
      hide LayerRan, InputsFor;
      var t, rest := layer[0], layer[1..];
      assert layer == [t] + rest;
      var v := t.run(InputsFor(t, before)).value;
      RunLayerCorrect(rest, before, results[t.name := v]);
      LayerRanStep(t, rest, before, results, v, RunLayer(layer, before, results).value);
    }
  }

  /** A layer's run fails with the error of its first failing task. */
  lemma {:induction false} RunLayerFailsFirst<V(!new), E(!new)>(layer: seq<Task<V, E>>, before: Inputs<V>,
                                                                results: Inputs<V>) returns (i: nat)
    requires RunLayer(layer, before, results).Err?
    ensures i < |layer| && RunLayer(layer, before, results).error.TaskFailed?
    ensures layer[i].run(InputsFor(layer[i], before)) == Err(RunLayer(layer, before, results).error.error)
    ensures forall j :: 0 <= j < i ==> layer[j].run(InputsFor(layer[j], before)).Ok?
  {
    hide InputsFor;
    var first := layer[0].run(InputsFor(layer[0], before));
    if first.Err? {
      i := 0;
    } else {
      i := RunLayerFailsFirst(layer[1..], before, results[layer[0].name := first.value]);
      i := i + 1;
    }
  }

  lemma NamedAgain<V(!new), E(!new)>(t: Task<V, E>, rest: seq<Task<V, E>>)
    ensures t.name in NamesOf(rest) <==> exists u :: u in rest && u.name == t.name
  {
    if t.name in NamesOf(rest) {
      var i :| 0 <= i < |rest| && rest[i].name == t.name;
      assert rest[i] in rest;
    }
    if u :| u in rest && u.name == t.name {
      var i :| 0 <= i < |rest| && rest[i] == u;
      assert IsTask(rest, t.name);
    }
  }

  lemma NamesFront<V(!new), E(!new)>(t: Task<V, E>, rest: seq<Task<V, E>>)
    ensures NamesOf([t] + rest) == {t.name} + NamesOf(rest)
  {
    var all := [t] + rest;
    forall n ensures IsTask(all, n) <==> n == t.name || IsTask(rest, n) {
      if IsTask(rest, n) {
        var i :| 0 <= i < |rest| && rest[i].name == n;
        assert all[i + 1].name == n;
      }
      assert all[0] == t;
    }
  }

  lemma UniqueTasks<V(!new), E(!new)>(tasks: seq<Task<V, E>>, t: Task<V, E>, u: Task<V, E>)
    requires UniqueNames(tasks) && t in tasks && u in tasks && t.name == u.name
    ensures t == u
  {
  }

  ghost predicate Unsolvable<V(!new), E(!new)>(tasks: seq<Task<V, E>>) {
    forall s :: !IsSolution(tasks, s)
  }

  ghost predicate SolvedOrUnsolvable<V(!new), E(!new)>(tasks: seq<Task<V, E>>, r: Result<Inputs<V>, FlowError<E>>) {
    match r
    case Ok(results) => IsSolution(tasks, results)
    case Err(e) => e.TaskFailed? && Unsolvable(tasks)
  }

  lemma FirstLayer<V(!new), E(!new)>(layer: seq<Task<V, E>>, rest: seq<seq<Task<V, E>>>, results: Inputs<V>)
    ensures var r := RunLayer(layer, results, results);
            RunLayers([layer] + rest, results) == if r.Err? then r else RunLayers(rest, r.value)
  {
    assert ([layer] + rest)[1..] == rest;
  }

  /** Nothing is left to run when all chains are shorter than k. */
  lemma NothingLeft<V(!new), E(!new)>(tasks: seq<Task<V, E>>, k: nat, results: Inputs<V>)
    requires AllAbove(tasks, k) && CompletedBelow(tasks, results.Keys, k) && SolvesBelow(tasks, results, k)
    ensures IsSolution(tasks, results)
  {
    assert results.Keys == NamesOf(tasks);
    forall t | t in tasks ensures Solves(t, results) {
      assert IsTask(tasks, t.name);
    }
  }

  lemma ShallowStays<V(!new), E(!new)>(tasks: seq<Task<V, E>>, m: nat, k: nat)
    requires AllAbove(tasks, m) && m <= k
    ensures AllAbove(tasks, k)
  {
    forall n | IsTask(tasks, n) ensures !HasChain(tasks, n, k) {
      if HasChain(tasks, n, k) {
        ChainShortens(tasks, n, k, m);
      }
    }
  }

  /** Layer k either extends the partial solution or holds a task that no solution can satisfy. */
  lemma LayerStep<V(!new), E(!new)>(tasks: seq<Task<V, E>>, k: nat, results: Inputs<V>)
    requires AllKnown(tasks) && UniqueNames(tasks)
    requires CompletedBelow(tasks, results.Keys, k) && SolvesBelow(tasks, results, k)
    ensures var r := RunLayer(LayerAt(tasks, k), results, results);
            && (r.Ok? ==> CompletedBelow(tasks, r.value.Keys, k + 1) && SolvesBelow(tasks, r.value, k + 1))
            && (r.Err? ==> r.error.TaskFailed? && Unsolvable(tasks))
  {
    var layer := LayerAt(tasks, k);
    LayerMembers(tasks, k);
    forall t, u | t in layer && u in layer && t.name == u.name ensures t == u {
      UniqueTasks(tasks, t, u);
    }
    var r := RunLayer(layer, results, results);
    if r.Ok? {
      RunLayerCorrect(layer, results, results);
      LayerNames(tasks, k, layer);
      NextCompleted(tasks, results.Keys, k, layer);
      LayerSolved(tasks, k, results, r.value);
    } else {
      var i := RunLayerFailsFirst(layer, results, results);
      var t := layer[i];
      forall s ensures !IsSolution(tasks, s) {
        if IsSolution(tasks, s) {
          SolutionsAgree(tasks, results, s, k);
          AgreeingInputs(tasks, t, results, s, k);
        }
      }
    }
  }

  /** Running the layers from depth k on completes a partial solution, or shows that there is none. */
  lemma {:induction false} RunLayersCorrect<V(!new), E(!new)>(tasks: seq<Task<V, E>>, k: nat, results: Inputs<V>)
    requires AllKnown(tasks) && Acyclic(tasks) && UniqueNames(tasks)
    requires CompletedBelow(tasks, results.Keys, k) && SolvesBelow(tasks, results, k)
    ensures SolvedOrUnsolvable(tasks, RunLayers(LayersFrom(tasks, k), results))
    decreases |tasks| - k
  {
    AcyclicIsShallow(tasks);
    if k >= |tasks| || AllAbove(tasks, k) {
      if k >= |tasks| {
        ShallowStays(tasks, |tasks|, k);
      }
      NothingLeft(tasks, k, results);
    } else {
      LayerStep(tasks, k, results);
      var r := RunLayer(LayerAt(tasks, k), results, results);
      if r.Ok? {
        RunLayersCorrect(tasks, k + 1, r.value);
      }
      FirstLayer(LayerAt(tasks, k), LayersFrom(tasks, k + 1), results);
    }
  }

  /** After layer k the partial solution covers depth k. */
  lemma LayerSolved<V(!new), E(!new)>(tasks: seq<Task<V, E>>, k: nat, before: Inputs<V>, after: Inputs<V>)
    requires AllKnown(tasks)
    requires CompletedBelow(tasks, before.Keys, k) && SolvesBelow(tasks, before, k)
    requires after.Keys == before.Keys + NamesOf(LayerAt(tasks, k))
    requires forall n :: n in before && n !in NamesOf(LayerAt(tasks, k)) ==> after[n] == before[n]
    requires forall t :: t in LayerAt(tasks, k) ==> TaskRan(t, before, after)
    ensures SolvesBelow(tasks, after, k + 1)
  {
    LayerMembers(tasks, k);
    LayerNames(tasks, k, LayerAt(tasks, k));
    forall u | u in tasks && !HasChain(tasks, u.name, k)
      ensures u.name in before && u.name in after && before[u.name] == after[u.name]
    {
      assert IsTask(tasks, u.name);
    }
    forall t | t in tasks && !HasChain(tasks, t.name, k + 1) ensures Solves(t, after) {
      AgreeingInputs(tasks, t, before, after, k);
      if HasChain(tasks, t.name, k) {
        assert t in LayerAt(tasks, k);
      } else {
        assert Solves(t, before);
      }
    }
  }

  /** A run returns the solution; it fails in a task only when there is no solution. */
  lemma OutcomeIsSolution<V(!new), E(!new)>(tasks: seq<Task<V, E>>)
    requires UniqueNames(tasks)
    ensures var r := Outcome(tasks);
            && (r.Ok? ==> AllKnown(tasks) && Acyclic(tasks) && IsSolution(tasks, r.value))
            && (r.Err? && r.error.TaskFailed? ==> Unsolvable(tasks))
            && (AllKnown(tasks) && Acyclic(tasks) && r.Err? ==> r.error.TaskFailed?)
  {
    if AllKnown(tasks) && Acyclic(tasks) {
      NothingCompleted(tasks);
      RunLayersCorrect(tasks, 0, map[]);
    }
  }

  // What a caller sees of a run

  /** inputs holds the values of the task's dependencies and nothing else. */
  ghost predicate Handed<V(!new), E(!new)>(t: Task<V, E>, values: Inputs<V>, inputs: Inputs<V>) {
    && (forall d :: d in inputs <==> d in t.dependsOn)
    && (forall d :: d in inputs ==> d in values && inputs[d] == values[d])
  }

  /** The task's function gives r on the values of its dependencies. */
  ghost predicate Gives<V(!new), E(!new)>(t: Task<V, E>, values: Inputs<V>, r: Result<V, E>) {
    exists inputs :: Handed(t, values, inputs) && t.run(inputs) == r
  }

  /** Every task, and no other name, has the value that its function gives. */
  ghost predicate Fulfils<V(!new), E(!new)>(tasks: seq<Task<V, E>>, values: Inputs<V>) {
    && (forall n :: n in values <==> IsTask(tasks, n))
    && (forall t :: t in tasks ==> t.name in values && Gives(t, values, Ok(values[t.name])))
  }

  /** Task i of layer k is the first to fail: all earlier layers and all earlier names succeed. */
  ghost predicate FirstFailure<V(!new), E(!new)>(layers: seq<seq<Task<V, E>>>, k: nat, i: nat, values: Inputs<V>,
                                                 error: E)
  {
    && k < |layers| && i < |layers[k]|
    && (forall n :: n in values <==> InEarlier(layers, k, n))
    && (forall j: nat, t :: j < k && t in layers[j] ==> t.name in values && Gives(t, values, Ok(values[t.name])))
    && (forall j :: 0 <= j < i ==> Succeeds(layers[k][j], values))
    && Gives(layers[k][i], values, Err(error))
  }

  ghost predicate Succeeds<V(!new), E(!new)>(t: Task<V, E>, values: Inputs<V>) {
    exists v :: Gives(t, values, Ok(v))
  }

  ghost predicate FailsIn<V(!new), E(!new)>(layers: seq<seq<Task<V, E>>>, error: E) {
    exists k: nat, i: nat, values :: FirstFailure(layers, k, i, values, error)
  }

  /** A run of these tasks fails with this error, wherever tasks are scheduled as early as possible. */
  ghost predicate Fails<V(!new), E(!new)>(tasks: seq<Task<V, E>>, error: E) {
    exists layers :: Scheduled(tasks, layers) && FailsIn(layers, error)
  }

  /** A task depends on the name, and no task has it. */
  ghost predicate Missing<V(!new), E(!new)>(tasks: seq<Task<V, E>>, name: string) {
    (exists t :: t in tasks && name in t.dependsOn) && forall t :: t in tasks ==> t.name != name
  }

  /** Which result a run has, and for which tasks. */
  ghost predicate Ran<V(!new), E(!new)>(tasks: seq<Task<V, E>>, r: Result<Inputs<V>, FlowError<E>>) {
    match r
    case Ok(values) => AllKnown(tasks) && Acyclic(tasks) && Fulfils(tasks, values)
    case Err(UnknownDependencies(names)) => names != {} && forall n :: n in names <==> Missing(tasks, n)
    case Err(DependencyCycle) => AllKnown(tasks) && !Acyclic(tasks)
    case Err(TaskFailed(e)) =>
      AllKnown(tasks) && Acyclic(tasks) && Fails(tasks, e) && forall values :: !Fulfils(tasks, values)
    case Err(_) => false
  }

  lemma NamedIff<V(!new), E(!new)>(tasks: seq<Task<V, E>>, name: string)
    ensures IsTask(tasks, name) <==> exists t :: t in tasks && t.name == name
  {
    if i: nat :| i < |tasks| && tasks[i].name == name {
      assert tasks[i] in tasks;
    }
    if t :| t in tasks && t.name == name {
      var i :| 0 <= i < |tasks| && tasks[i] == t;
    }
  }

  lemma UnknownAreMissing<V(!new), E(!new)>(tasks: seq<Task<V, E>>)
    requires !AllKnown(tasks)
    ensures Ran(tasks, Err(UnknownDependencies(UnknownNames(tasks, tasks))))
  {
    forall n ensures n in UnknownNames(tasks, tasks) <==> Missing(tasks, n) {
      if n in UnknownNames(tasks, tasks) {
        var i :| 0 <= i < |tasks| && n in tasks[i].dependsOn && !IsTask(tasks, n);
        assert tasks[i] in tasks;
      }
      if Missing(tasks, n) {
        var t :| t in tasks && n in t.dependsOn;
        var i :| 0 <= i < |tasks| && tasks[i] == t;
        NamedIff(tasks, n);
      }
    }
    var a, b :| DependsOn(tasks, a, b) && !IsTask(tasks, b);
    var i :| 0 <= i < |tasks| && tasks[i].name == a && b in tasks[i].dependsOn;
    assert b in UnknownNames(tasks, tasks);
  }

  lemma GivesExactly<V(!new), E(!new)>(t: Task<V, E>, values: Inputs<V>, r: Result<V, E>)
    requires forall d :: d in t.dependsOn ==> d in values
    ensures Gives(t, values, r) <==> t.run(InputsFor(t, values)) == r
  {
    assert Handed(t, values, InputsFor(t, values));
    forall inputs | Handed(t, values, inputs) ensures inputs == InputsFor(t, values) {
    }
  }

  lemma DependenciesAreTasks<V(!new), E(!new)>(tasks: seq<Task<V, E>>, t: Task<V, E>)
    requires AllKnown(tasks) && t in tasks
    ensures forall d :: d in t.dependsOn ==> IsTask(tasks, d)
  {
    forall d | d in t.dependsOn ensures IsTask(tasks, d) {
      assert DependsOn(tasks, t.name, d);
    }
  }

  lemma SolutionFulfils<V(!new), E(!new)>(tasks: seq<Task<V, E>>, values: Inputs<V>)
    requires AllKnown(tasks)
    ensures IsSolution(tasks, values) <==> Fulfils(tasks, values)
  {
    hide AllKnown, IsTask, Gives, InputsFor;
    if forall n :: n in values <==> IsTask(tasks, n) {
      forall t | t in tasks ensures t.name in values ==> (Solves(t, values) <==> Gives(t, values, Ok(values[t.name]))) {
        DependenciesAreTasks(tasks, t);
        if t.name in values {
          GivesExactly(t, values, Ok(values[t.name]));
        }
      }
      assert values.Keys == NamesOf(tasks);
    } else {
      assert values.Keys != NamesOf(tasks);
    }
  }

  /** What is completed below depth k are the names in the layers before k. */
  lemma CompletedInEarlier<V(!new), E(!new)>(tasks: seq<Task<V, E>>, layers: seq<seq<Task<V, E>>>, names: set<string>,
                                             k: nat)
    requires AreLayers(tasks, layers) && k < |layers| && CompletedBelow(tasks, names, k)
    ensures forall n :: n in names <==> InEarlier(layers, k, n)
  {
    hide AreLayers, DepthIs, HasChain;
    forall n ensures n in names <==> InEarlier(layers, k, n) {
      if n in names {
        var m := DepthExists(tasks, n, k);
        AtItsDepth(tasks, layers, n, m);
      }
      if j: nat :| j < k && IsTask(layers[j], n) {
        var i :| 0 <= i < |layers[j]| && layers[j][i].name == n;
        InLayer(tasks, layers, j, layers[j][i]);
        ShallowAndNamed(tasks, layers[j][i], j, k);
      }
    }
  }

  lemma ShallowAndNamed<V(!new), E(!new)>(tasks: seq<Task<V, E>>, t: Task<V, E>, j: nat, k: nat)
    requires t in tasks && DepthIs(tasks, t.name, j) && j < k
    ensures IsTask(tasks, t.name) && !HasChain(tasks, t.name, k)
  {
    if HasChain(tasks, t.name, k) {
      ChainShortens(tasks, t.name, k, j + 1);
    }
  }

  /** Tasks of a layer up to k find their dependencies among the names completed below k. */
  lemma LayerGives<V(!new), E(!new)>(tasks: seq<Task<V, E>>, layers: seq<seq<Task<V, E>>>, values: Inputs<V>, j: nat,
                                     k: nat, t: Task<V, E>, r: Result<V, E>)
    requires AllKnown(tasks) && AreLayers(tasks, layers) && j <= k < |layers| && CompletedBelow(tasks, values.Keys, k)
    requires t in layers[j]
    ensures Gives(t, values, r) <==> t.run(InputsFor(t, values)) == r
  {
    hide AllKnown, AreLayers, IsTask, HasChain, InEarlier, Gives, InputsFor;
    InLayer(tasks, layers, j, t);
    forall d | d in t.dependsOn ensures d in values {
      DependencyEarlier(tasks, layers, j, t, d);
      CompletedInEarlier(tasks, layers, values.Keys, k);
      StillEarlier(layers, j, k, d);
    }
    GivesExactly(t, values, r);
  }

  lemma StillEarlier<V(!new), E(!new)>(layers: seq<seq<Task<V, E>>>, j: nat, k: nat, name: string)
    requires j <= k <= |layers| && InEarlier(layers, j, name)
    ensures InEarlier(layers, k, name)
  {
  }

  lemma SolvedEarlier<V(!new), E(!new)>(tasks: seq<Task<V, E>>, layers: seq<seq<Task<V, E>>>, values: Inputs<V>,
                                        j: nat, k: nat, t: Task<V, E>)
    requires AllKnown(tasks) && AreLayers(tasks, layers) && j < k < |layers| && CompletedBelow(tasks, values.Keys, k)
    requires SolvesBelow(tasks, values, k) && t in layers[j]
    ensures t.name in values && Gives(t, values, Ok(values[t.name]))
  {
    hide AllKnown, AreLayers, CompletedBelow, Gives;
    InLayer(tasks, layers, j, t);
    ShallowAndNamed(tasks, t, j, k);
    assert Solves(t, values);
    LayerGives(tasks, layers, values, j, k, t, Ok(values[t.name]));
  }

  /** When layer k fails, the error is that of the first task to fail. */
  lemma LayerFailsFirst<V(!new), E(!new)>(tasks: seq<Task<V, E>>, layers: seq<seq<Task<V, E>>>, k: nat,
                                          values: Inputs<V>)
    requires AllKnown(tasks) && AreLayers(tasks, layers) && k < |layers|
    requires CompletedBelow(tasks, values.Keys, k) && SolvesBelow(tasks, values, k)
    requires RunLayer(layers[k], values, values).Err?
    ensures RunLayer(layers[k], values, values).error.TaskFailed?
    ensures FailsIn(layers, RunLayer(layers[k], values, values).error.error)
  {
    hide AllKnown, AreLayers, CompletedBelow, SolvesBelow, InEarlier, Gives, InputsFor, RunLayer;
    var layer := layers[k];
    var i := RunLayerFailsFirst(layer, values, values);
    var error := RunLayer(layer, values, values).error.error;
    CompletedInEarlier(tasks, layers, values.Keys, k);
    forall j: nat, t | j < k && t in layers[j] ensures t.name in values && Gives(t, values, Ok(values[t.name])) {
      SolvedEarlier(tasks, layers, values, j, k, t);
    }
    forall j | 0 <= j < i ensures Succeeds(layer[j], values) {
      var v := layer[j].run(InputsFor(layer[j], values)).value;
      LayerGives(tasks, layers, values, k, k, layer[j], Ok(v));
    }
    LayerGives(tasks, layers, values, k, k, layer[i], Err(error));
    assert FirstFailure(layers, k, i, values, error);
  }

  lemma NotLayered<V(!new), E(!new)>(tasks: seq<Task<V, E>>, error: FlowError<E>)
    requires error == if AllKnown(tasks) then DependencyCycle else UnknownDependencies(UnknownNames(tasks, tasks))
    requires AllKnown(tasks) ==> !Acyclic(tasks)
    ensures Ran(tasks, Err(error)) && Outcome(tasks) == Err(error)
  {
    if !AllKnown(tasks) {
      UnknownAreMissing(tasks);
    }
  }

  lemma NothingRun<V(!new), E(!new)>(tasks: seq<Task<V, E>>, none: Inputs<V>)
    requires none == map[]
    ensures CompletedBelow(tasks, none.Keys, 0) && SolvesBelow(tasks, none, 0)
  {
    forall name ensures HasChain(tasks, name, 0) {
      ChainOfNone(tasks, name);
    }
  }

  lemma FailedRun<V(!new), E(!new)>(tasks: seq<Task<V, E>>, layers: seq<seq<Task<V, E>>>, k: nat, values: Inputs<V>)
    requires AllKnown(tasks) && Acyclic(tasks) && UniqueNames(tasks) && AreLayers(tasks, layers)
    requires Scheduled(tasks, layers) && k < |layers|
    requires CompletedBelow(tasks, values.Keys, k) && SolvesBelow(tasks, values, k)
    requires RunLayer(layers[k], values, values).Err?
    ensures Ran(tasks, RunLayer(layers[k], values, values))
  {
    hide AllKnown, Acyclic, UniqueNames, Scheduled, AreLayers, CompletedBelow, SolvesBelow, RunLayer, IsSolution,
         Fulfils,
         FailsIn, IsLayer;
    LayerFailsFirst(tasks, layers, k, values);
    IsLayerAt(tasks, layers, k);
    LayerStep(tasks, k, values);
    forall s ensures !Fulfils(tasks, s) {
      SolutionFulfils(tasks, s);
      assert !IsSolution(tasks, s);
    }
  }

  lemma IsLayerAt<V(!new), E(!new)>(tasks: seq<Task<V, E>>, layers: seq<seq<Task<V, E>>>, k: nat)
    requires AreLayers(tasks, layers) && k < |layers|
    ensures layers[k] == LayerAt(tasks, k)
  {
    assert IsLayer(tasks, k, layers[k]);
  }

  lemma FinishedRun<V(!new), E(!new)>(tasks: seq<Task<V, E>>, k: nat, values: Inputs<V>)
    requires AllKnown(tasks) && Acyclic(tasks) && AllAbove(tasks, k)
    requires CompletedBelow(tasks, values.Keys, k) && SolvesBelow(tasks, values, k)
    ensures Ran(tasks, Ok(values))
  {
    NothingLeft(tasks, k, values);
    SolutionFulfils(tasks, values);
  }

  // Scheduling

  /** One task after the other, each on all the results so far. */
  method RunSequentially<V(!new), E(!new)>(ghost tasks: seq<Task<V, E>>, ghost k: nat, layer: seq<Task<V, E>>,
                                           results: Inputs<V>)
    returns (r: Result<Inputs<V>, FlowError<E>>)
    requires AllKnown(tasks) && layer == LayerAt(tasks, k) && CompletedBelow(tasks, results.Keys, k)
    ensures r == RunLayer(layer, results, results)
  {
    var now := results;
    for i := 0 to |layer|
      invariant RunLayer(layer, results, results) == RunLayer(layer[i..], results, now)
      invariant forall n :: n in results ==> n in now && now[n] == results[n]
    {
      var task := layer[i];
      assert layer[i..][0] == task && layer[i..][1..] == layer[i + 1..];
      LayerInputs(tasks, k, results.Keys, task);
      SameInputs(task, results, now);
      match task.run(InputsFor(task, now)) {
        case Err(e) => return Err(TaskFailed(e));
        case Ok(v) => now := now[task.name := v];
      }
    }
    return Ok(now);
  }

  function ByFirst<V(!new), E(!new)>(): Less<(string, Result<V, E>)> {
    (a: (string, Result<V, E>), b: (string, Result<V, E>)) => NameLess(a.0, b.0)
  }

  /** All tasks at once on the results before the layer; results are collected in order of name. */
  method RunInParallel<V(!new), E(!new)>(ghost tasks: seq<Task<V, E>>, ghost k: nat, layer: seq<Task<V, E>>,
                                         results: Inputs<V>)
    returns (r: Result<Inputs<V>, FlowError<E>>)
    requires layer == LayerAt(tasks, k)
    ensures r == RunLayer(layer, results, results)
  {
    var futures :=
      seq(|layer|, i requires 0 <= i < |layer| => (layer[i].name, layer[i].run(InputsFor(layer[i], results))));
    LayerMembers(tasks, k);
    FuturesSorted(layer, futures);
    var collected := Values(ByFirst(), futures);
    var now := results;
    for i := 0 to |collected|
      invariant RunLayer(layer, results, results) == RunLayer(layer[i..], results, now)
    {
      assert layer[i..][0] == layer[i] && layer[i..][1..] == layer[i + 1..];
      match collected[i].1 {
        case Err(e) => return Err(TaskFailed(e));
        case Ok(v) => now := now[collected[i].0 := v];
      }
    }
    return Ok(now);
  }

  lemma ByFirstIsOrdered<V(!new), E(!new)>()
    ensures StrictWeak(ByFirst<V, E>())
  {
    forall a: (string, Result<V, E>), b: (string, Result<V, E>), c: (string, Result<V, E>)
      ensures !NameLess(a.0, a.0)
      ensures NameLess(a.0, b.0) ==> !NameLess(b.0, a.0)
      ensures NameLess(a.0, c.0) ==> NameLess(a.0, b.0) || NameLess(b.0, c.0)
    {
      NameLessAt(a.0, b.0, c.0);
    }
  }

  /** The futures of a sorted layer are in order already. */
  lemma FuturesSorted<V(!new), E(!new)>(layer: seq<Task<V, E>>, futures: seq<(string, Result<V, E>)>)
    requires Sorted(ByName(), layer) && |futures| == |layer|
    requires forall i :: 0 <= i < |layer| ==> futures[i].0 == layer[i].name
    ensures Values(ByFirst(), futures) == futures
  {
    ByFirstIsOrdered<V, E>();
    assert Sorted(ByFirst(), futures);
    SortedStays(ByFirst(), futures);
  }

  class Flow<V(!new), E(!new)> {
    var tasks: seq<Task<V, E>>

    ghost predicate Valid()
      reads this
    {
      && UniqueNames(tasks)
      && forall t :: t in tasks ==> t.name != "" && t.name !in t.dependsOn
    }

    constructor ()
      ensures Valid() && tasks == []
    {
      tasks := [];
    }

    method AddTask(name: string, run: Inputs<V> -> Result<V, E>, dependsOn: seq<string>)
      returns (r: Result<(), FlowError<E>>)
      requires Valid()
      modifies this
      ensures Valid()
      ensures r == if name == "" || IsTask(old(tasks), name) then Err(InvalidName)
                   else if name in dependsOn then Err(SelfDependency) else Ok(())
      ensures tasks == if r.Ok? then old(tasks) + [Task(name, run, dependsOn)] else old(tasks)
    {
      if name == "" || IsTask(tasks, name) {
        return Err(InvalidName);
      }
      if name in dependsOn {
        return Err(SelfDependency);
      }
      tasks := tasks + [Task(name, run, dependsOn)];
      return Ok(());
    }

    /**
     Succeeds exactly when all dependencies are known and acyclic, and then lists the tasks by
     depth: layer k holds those whose longest dependency chain has k steps.
     */
    method Layers() returns (r: Result<seq<seq<Task<V, E>>>, FlowError<E>>)
      requires Valid()
      ensures !AllKnown(tasks) ==> r == Err(UnknownDependencies(UnknownNames(tasks, tasks)))
      ensures AllKnown(tasks) ==> (r.Ok? <==> Acyclic(tasks))
      ensures AllKnown(tasks) && r.Err? ==> r == Err(DependencyCycle)
      ensures r.Ok? ==> AllAbove(tasks, |r.value|)
      ensures r.Ok? ==> AreLayers(tasks, r.value)
      ensures r.Ok? ==> Scheduled(tasks, r.value)
    {
      var remaining := tasks;
      var completed: set<string> := {};
      var layers: seq<seq<Task<V, E>>> := [];
      NothingCompleted(tasks);
      while remaining != []
        invariant remaining == Open(tasks, completed)
        invariant !AllKnown(tasks) ==> remaining == tasks
        invariant CompletedBelow(tasks, completed, |layers|)
        invariant AreLayers(tasks, layers)
        decreases |remaining|
      {
        var missing := UnknownNames(remaining, tasks);
        MissingMeansUnknown(remaining, tasks, completed);
        if missing != {} {
          return Err(UnknownDependencies(missing));
        }
        var ready;
        ready, remaining, completed := TakeLayer(tasks, remaining, completed, |layers|);
        if ready == [] {
          return Err(DependencyCycle);
        }
        AppendLayer(tasks, layers, ready);
        layers := layers + [ready];
      }
      AllCompleted(tasks, completed, |layers|);
      LayersAreScheduled(tasks, layers);
      return Ok(layers);
    }

    /**
     The outcome is the same for every choice of parallel: the values that fulfil all tasks, or the
     error of the first task that fails, in order of layers and names.
     */
    method Run(parallel: bool) returns (r: Result<Inputs<V>, FlowError<E>>)
      requires Valid()
      ensures r == Outcome(tasks)
      ensures Ran(tasks, r)
    {
      hide UniqueNames, AllKnown, Acyclic, AllAbove, AreLayers, Scheduled, CompletedBelow, SolvesBelow, Ran, RunLayer;
      var layers := Layers();
      if layers.Err? {
        NotLayered(tasks, layers.error);
        return Err(layers.error);
      }
      LayersAreAll(tasks, layers.value, 0);
      assert layers.value[0..] == layers.value;
      var results: Inputs<V> := map[];
      NothingRun(tasks, results);
      for i := 0 to |layers.value|
        invariant CompletedBelow(tasks, results.Keys, i) && SolvesBelow(tasks, results, i)
        invariant Outcome(tasks) == RunLayers(layers.value[i..], results)
      {
        var layer := layers.value[i];
        IsLayerAt(tasks, layers.value, i);
        assert layers.value[i..][0] == layer && layers.value[i..][1..] == layers.value[i + 1..];
        var next;
        if parallel && |layer| > 1 {
          next := RunInParallel(tasks, i, layer, results);
        } else {
          next := RunSequentially(tasks, i, layer, results);
        }
        if next.Err? {
          FailedRun(tasks, layers.value, i, results);
          return Err(next.error);
        }
        LayerStep(tasks, i, results);
        results := next.value;
      }
      FinishedRun(tasks, |layers.value|, results);
      return Ok(results);
    }
  }
}
