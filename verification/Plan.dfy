/** The plan tooling: `validate` with its in-place Kahn cycle check, the readiness filter of
    `plan_next`, and runs that complete one listed task at a time. */
module Plan {
  import opened Wrappers
  import opened Sorting

  datatype Status =
    | Pending | Ready | InProgress | BlockedHuman | BlockedAuthorization | BlockedExternal
    | BlockedTime | BlockedBudget | Failed | Done | Superseded

  // The position of a level in A0..A6.
  type AuthLevel = n: nat | n <= 6

  datatype Task = Task(
    id: string,
    dependsOn: seq<string>,
    status: Status,
    authorizationMin: AuthLevel,
    requiresDecision: bool,
    decisionIds: seq<string>)

  datatype CriterionResult = Pass | NotApplicable | Fail

  datatype Receipt = Receipt(taskId: string, selfAsserted: bool, criteria: seq<CriterionResult>)

  datatype Error =
    | DuplicateId(id: string)
    | UnknownDependency(id: string, dep: string)
    | Cycle
    | DoneWithoutEvidence(id: string)

  // ------------------------------------------------------------------ the graph

  ghost function Ids(tasks: seq<Task>): set<string> {
    set t | t in tasks :: t.id
  }

  ghost predicate UniqueIds(tasks: seq<Task>) {
    forall i, j | 0 <= i < j < |tasks| :: tasks[i].id != tasks[j].id
  }

  // The ids of the plan, and its dependency pairs (task, dependency) in the order the
  // source's nested loops meet them; a dependency may be repeated or unknown.
  datatype Graph = Graph(ids: set<string>, pairs: seq<(string, string)>)

  ghost function GraphOf(tasks: seq<Task>): Graph {
    Graph(Ids(tasks), Pairs(tasks))
  }

  ghost function PairsOf(t: Task): seq<(string, string)> {
    seq(|t.dependsOn|, j requires 0 <= j < |t.dependsOn| => (t.id, t.dependsOn[j]))
  }

  ghost function Pairs(tasks: seq<Task>): seq<(string, string)> {
    if tasks == [] then []
    else Pairs(tasks[..|tasks| - 1]) + PairsOf(tasks[|tasks| - 1])
  }

  // Task a depends on b, and b is an id of the plan.
  ghost predicate DependsOn(g: Graph, a: string, b: string) {
    b in g.ids && (a, b) in g.pairs
  }

  // p follows dependencies from each id to the next.
  ghost predicate Walk(g: Graph, p: seq<string>) {
    |p| > 0 && forall i, j | 0 <= i < j < |p| && j == i + 1 :: DependsOn(g, p[i], p[j])
  }

  ghost predicate HasCycle(g: Graph) {
    exists p :: Walk(g, p) && |p| > 1 && p[0] == p[|p| - 1]
  }

  ghost predicate Distinct(s: seq<string>) {
    forall i, j | 0 <= i < j < |s| :: s[i] != s[j]
  }

  ghost function Elements(s: seq<string>): set<string> {
    set x | x in s
  }

  lemma ElementsSnoc(s: seq<string>, x: string)
    ensures Elements(s + [x]) == Elements(s) + {x}
    ensures Distinct(s) && x !in s ==> Distinct(s + [x])
  {
  }

  lemma {:induction false} DistinctCardinality(s: seq<string>)
    requires Distinct(s)
    ensures |Elements(s)| == |s|
  {
    if s != [] {
      DistinctCardinality(s[1..]);
      assert Elements(s) == {s[0]} + Elements(s[1..]);
    }
  }

  // The pairs mean what the tasks say: some task named a lists b.
  lemma {:induction false} PairMeaning(tasks: seq<Task>, a: string, b: string)
    ensures (a, b) in Pairs(tasks) <==> exists t :: t in tasks && t.id == a && b in t.dependsOn
  {
    if tasks != [] {
      var init, last := tasks[..|tasks| - 1], tasks[|tasks| - 1];
      PairMeaning(init, a, b);
      assert tasks == init + [last];
      assert (a, b) in PairsOf(last) <==> last.id == a && b in last.dependsOn by {
        if last.id == a && b in last.dependsOn {
          var j :| 0 <= j < |last.dependsOn| && last.dependsOn[j] == b;
          assert PairsOf(last)[j] == (a, b);
        }
      }
    }
  }

  // The number of pairs that leave m for an id in s, repetitions included.
  ghost function Out(pairs: seq<(string, string)>, m: string, s: set<string>): nat {
    if pairs == [] then 0
    else
      var e := pairs[|pairs| - 1];
      Out(pairs[..|pairs| - 1], m, s) + if e.0 == m && e.1 in s then 1 else 0
  }

  // The tasks of the pairs that depend on n, one entry per pair.
  ghost function Dependents(pairs: seq<(string, string)>, n: string): seq<string> {
    if pairs == [] then []
    else
      var e := pairs[|pairs| - 1];
      Dependents(pairs[..|pairs| - 1], n) + if e.1 == n then [e.0] else []
  }

  lemma {:induction false} OutPositive(pairs: seq<(string, string)>, m: string, s: set<string>)
    ensures Out(pairs, m, s) > 0 <==> exists d :: d in s && (m, d) in pairs
  {
    if pairs != [] {
      var init, e := pairs[..|pairs| - 1], pairs[|pairs| - 1];
      OutPositive(init, m, s);
      assert pairs == init + [e];
      if e.0 == m && e.1 in s {
        assert (m, e.1) in pairs;
      }
    }
  }

  lemma {:induction false} OutRemove(pairs: seq<(string, string)>, m: string, s: set<string>, n: string)
    requires n in s
    ensures Out(pairs, m, s) == Out(pairs, m, s - {n}) + Occurrences(Dependents(pairs, n), m)
  {
    if pairs != [] {
      var init, e := pairs[..|pairs| - 1], pairs[|pairs| - 1];
      OutRemove(init, m, s, n);
      OccurrencesSnoc(Dependents(init, n), e.0, m);
      assert Dependents(init, n) + [] == Dependents(init, n);
    }
  }

  ghost function Occurrences(s: seq<string>, m: string): nat {
    if s == [] then 0 else Occurrences(s[..|s| - 1], m) + if s[|s| - 1] == m then 1 else 0
  }

  lemma OccurrencesSnoc(s: seq<string>, x: string, m: string)
    ensures Occurrences(s + [x], m) == Occurrences(s, m) + if x == m then 1 else 0
  {
    assert (s + [x])[..|s|] == s;
  }

  lemma {:induction false} OccurrencesPrefix(s: seq<string>, k: nat, m: string)
    requires k <= |s|
    ensures Occurrences(s[..k], m) <= Occurrences(s, m)
    decreases |s|
  {
    if k < |s| {
      OccurrencesPrefix(s[..|s| - 1], k, m);
      assert s[..|s| - 1][..k] == s[..k];
    } else {
      assert s[..k] == s;
    }
  }

  lemma {:induction false} DependentsMeaning(pairs: seq<(string, string)>, n: string, m: string)
    ensures m in Dependents(pairs, n) <==> (m, n) in pairs
  {
    if pairs != [] {
      var init, e := pairs[..|pairs| - 1], pairs[|pairs| - 1];
      DependentsMeaning(init, n, m);
      assert pairs == init + [e];
    }
  }

  lemma DependentsAreTasks(tasks: seq<Task>, n: string)
    ensures forall m | m in Dependents(Pairs(tasks), n) :: m in Ids(tasks)
  {
    forall m | m in Dependents(Pairs(tasks), n) ensures m in Ids(tasks) {
      DependentsMeaning(Pairs(tasks), n, m);
      PairMeaning(tasks, m, n);
    }
  }

  // ------------------------------------------------------------------ the cycle criterion

  // Every known dependency of an id of the list stands earlier in the list.
  ghost predicate DependenciesFirst(g: Graph, order: seq<string>) {
    forall k, d | 0 <= k < |order| && DependsOn(g, order[k], d) :: d in order[..k]
  }

  ghost predicate DependsInto(g: Graph, m: string, s: set<string>) {
    exists d :: d in s && DependsOn(g, m, d)
  }

  // Every id of s has a dependency in s.
  ghost predicate EachDependsWithin(g: Graph, s: set<string>) {
    forall m {:trigger DependsInto(g, m, s)} :: m in s ==> DependsInto(g, m, s)
  }

  lemma WalkSuffix(g: Graph, p: seq<string>, k: nat)
    requires Walk(g, p) && k < |p|
    ensures Walk(g, p[k..])
  {
    var q := p[k..];
    forall i, j | 0 <= i < j < |q| && j == i + 1 ensures DependsOn(g, q[i], q[j]) {
      assert DependsOn(g, p[k + i], p[k + j]);
    }
  }

  lemma WalkSnoc(g: Graph, p: seq<string>, d: string)
    requires Walk(g, p) && DependsOn(g, p[|p| - 1], d)
    ensures Walk(g, p + [d])
  {
    var q := p + [d];
    forall i, j | 0 <= i < j < |q| && j == i + 1 ensures DependsOn(g, q[i], q[j]) {
      if j < |p| {
        assert DependsOn(g, p[i], p[j]);
      }
    }
  }

  // In a dependencies-first list, a walk moves strictly towards the front.
  lemma {:induction false} WalkDescends(g: Graph, order: seq<string>, p: seq<string>, k: nat)
    returns (j: nat)
    requires DependenciesFirst(g, order) && Walk(g, p)
    requires k < |order| && order[k] == p[0]
    ensures j <= k && order[j] == p[|p| - 1] && (|p| > 1 ==> j < k)
    decreases |p|
  {
    if |p| == 1 {
      j := k;
    } else {
      assert DependsOn(g, p[0], p[1]);
      assert p[1] in order[..k];
      var i :| 0 <= i < k && order[i] == p[1];
      WalkSuffix(g, p, 1);
      j := WalkDescends(g, order, p[1..], i);
    }
  }

  lemma RepeatMeansCycle(g: Graph, p: seq<string>, d: string)
    requires Walk(g, p + [d]) && d in p
    ensures HasCycle(g)
  {
    var k :| 0 <= k < |p| && p[k] == d;
    WalkSuffix(g, p + [d], k);
    var c := (p + [d])[k..];
    assert c[0] == d && c[|c| - 1] == d;
  }

  // A set whose members all depend within it holds a cycle: keep walking until an id repeats.
  lemma {:induction false} WalkMeetsItself(g: Graph, s: set<string>, p: seq<string>)
    requires EachDependsWithin(g, s)
    requires Walk(g, p) && Distinct(p) && Elements(p) <= s
    ensures HasCycle(g)
    decreases |s - Elements(p)|
  {
    assert p[|p| - 1] in Elements(p);
    assert DependsInto(g, p[|p| - 1], s);
    var d :| d in s && DependsOn(g, p[|p| - 1], d);
    WalkSnoc(g, p, d);
    if d in p {
      RepeatMeansCycle(g, p, d);
    } else {
      ElementsSnoc(p, d);
      assert s - Elements(p + [d]) == (s - Elements(p)) - {d};
      WalkMeetsItself(g, s, p + [d]);
    }
  }

  lemma StuckSetMeansCycle(g: Graph, s: set<string>, m: string)
    requires EachDependsWithin(g, s) && m in s
    ensures HasCycle(g)
  {
    assert Elements([m]) == {m};
    WalkMeetsItself(g, s, [m]);
  }

  // A maximal dependencies-first list covers the plan exactly when the plan is acyclic.
  lemma KahnCriterion(g: Graph, order: seq<string>)
    requires Distinct(order) && Elements(order) <= g.ids
    requires DependenciesFirst(g, order)
    requires EachDependsWithin(g, g.ids - Elements(order))
    ensures Elements(order) == g.ids <==> !HasCycle(g)
  {
    if Elements(order) != g.ids {
      var m :| m in g.ids && m !in Elements(order);
      StuckSetMeansCycle(g, g.ids - Elements(order), m);
    } else if HasCycle(g) {
      var p :| Walk(g, p) && |p| > 1 && p[0] == p[|p| - 1];
      assert DependsOn(g, p[|p| - 2], p[|p| - 1]);
      assert p[0] in Elements(order);
      var k :| 0 <= k < |order| && order[k] == p[0];
      var j := WalkDescends(g, order, p, k);
      assert false;
    }
  }

  // An id with no unpopped dependency may be popped next.
  lemma PopKeepsOrder(g: Graph, popped: seq<string>, n: string)
    requires DependenciesFirst(g, popped)
    requires Out(g.pairs, n, g.ids - Elements(popped)) == 0
    ensures DependenciesFirst(g, popped + [n])
  {
    var q := popped + [n];
    forall k, d | 0 <= k < |q| && DependsOn(g, q[k], d) ensures d in q[..k] {
      if k < |popped| {
        assert d in popped[..k];
        assert q[..k] == popped[..k];
      } else {
        assert q[..k] == popped;
        OutPositive(g.pairs, n, g.ids - Elements(popped));
      }
    }
  }

  lemma SubsetSize<T>(a: set<T>, b: set<T>)
    requires a <= b
    ensures |a| <= |b| && (|a| == |b| <==> a == b)
  {
    assert b == a + (b - a);
  }

  // ------------------------------------------------------------------ the cycle check

  ghost function Lookup(m: map<string, seq<string>>, k: string): seq<string> {
    if k in m then m[k] else []
  }

  // The pairs seen after j dependencies of the i-th task.
  ghost function Seen(tasks: seq<Task>, i: nat, j: nat): seq<(string, string)>
    requires i < |tasks| && j <= |tasks[i].dependsOn|
  {
    Pairs(tasks[..i]) + PairsOf(tasks[i])[..j]
  }

  lemma SeenSteps(tasks: seq<Task>, i: nat)
    requires i < |tasks|
    ensures Seen(tasks, i, 0) == Pairs(tasks[..i])
    ensures Seen(tasks, i, |tasks[i].dependsOn|) == Pairs(tasks[..i + 1])
    ensures forall j | 0 <= j < |tasks[i].dependsOn| ::
        Seen(tasks, i, j + 1) == Seen(tasks, i, j) + [(tasks[i].id, tasks[i].dependsOn[j])]
  {
    assert tasks[..i + 1][..i] == tasks[..i];
    var w := PairsOf(tasks[i]);
    assert w[..|w|] == w;
    forall j | 0 <= j < |w| ensures Seen(tasks, i, j + 1) == Seen(tasks, i, j) + [w[j]] {
      assert w[..j + 1] == w[..j] + [w[j]];
    }
  }

  lemma OutSnoc(pairs: seq<(string, string)>, e: (string, string), s: set<string>)
    ensures forall m :: Out(pairs + [e], m, s) == Out(pairs, m, s) + if e.0 == m && e.1 in s then 1 else 0
  {
    assert (pairs + [e])[..|pairs|] == pairs;
  }

  lemma DependentsSnoc(pairs: seq<(string, string)>, e: (string, string))
    ensures forall n :: Dependents(pairs + [e], n) == Dependents(pairs, n) + if e.1 == n then [e.0] else []
  {
    assert (pairs + [e])[..|pairs|] == pairs;
  }

  // The counting loops: how many known dependencies each id has, repetitions included.
  method CountDependencies(tasks: seq<Task>) returns (indeg: map<string, int>)
    ensures indeg.Keys == Ids(tasks)
    ensures forall m | m in Ids(tasks) :: indeg[m] == Out(Pairs(tasks), m, Ids(tasks))
  {
    ghost var ids := Ids(tasks);
    indeg := map t | t in tasks :: t.id := 0;
    for i := 0 to |tasks|
      invariant indeg.Keys == ids
      invariant forall m | m in ids :: indeg[m] == Out(Pairs(tasks[..i]), m, ids)
    {
      var t := tasks[i];
      SeenSteps(tasks, i);
      for j := 0 to |t.dependsOn|
        invariant indeg.Keys == ids
        invariant forall m | m in ids :: indeg[m] == Out(Seen(tasks, i, j), m, ids)
      {
        OutSnoc(Seen(tasks, i, j), (t.id, t.dependsOn[j]), ids);
        if t.dependsOn[j] in indeg {
          indeg := indeg[t.id := indeg[t.id] + 1];
        }
      }
    }
    assert tasks[..|tasks|] == tasks;
  }

  lemma NamedBy(dependents: map<string, seq<string>>, pairs: seq<(string, string)>, e: (string, string))
    requires forall n :: Lookup(dependents, n) == Dependents(pairs, n)
    ensures forall n :: Lookup(dependents[e.1 := Lookup(dependents, e.1) + [e.0]], n) == Dependents(pairs + [e], n)
  {
    DependentsSnoc(pairs, e);
  }

  // The reverse index: for each dependency, the tasks that name it.
  method IndexDependents(tasks: seq<Task>) returns (dependents: map<string, seq<string>>)
    ensures forall n :: Lookup(dependents, n) == Dependents(Pairs(tasks), n)
  {
    dependents := map[];
    for i := 0 to |tasks|
      invariant forall n :: Lookup(dependents, n) == Dependents(Pairs(tasks[..i]), n)
    {
      var t := tasks[i];
      SeenSteps(tasks, i);
      for j := 0 to |t.dependsOn|
        invariant forall n :: Lookup(dependents, n) == Dependents(Seen(tasks, i, j), n)
      {
        var d := t.dependsOn[j];
        NamedBy(dependents, Seen(tasks, i, j), (t.id, d));
        dependents := dependents[d := (if d in dependents then dependents[d] else []) + [t.id]];
      }
    }
    assert tasks[..|tasks|] == tasks;
  }

  // The ids whose count is zero, in the insertion order of the dict.
  method InitialQueue(tasks: seq<Task>, indeg: map<string, int>) returns (queue: seq<string>)
    requires indeg.Keys == Ids(tasks)
    ensures Distinct(queue)
    ensures forall m :: m in queue <==> m in indeg && indeg[m] == 0
  {
    queue := [];
    for i := 0 to |tasks|
      invariant Distinct(queue)
      invariant forall m :: m in queue <==> m in indeg && indeg[m] == 0 && m in Ids(tasks[..i])
    {
      var m := tasks[i].id;
      assert m in Ids(tasks);
      assert Ids(tasks[..i + 1]) == Ids(tasks[..i]) + {m};
      if indeg[m] == 0 && m !in queue {
        queue := queue + [m];
      }
    }
    assert tasks[..|tasks|] == tasks;
  }

  // indeg counts, for each id, the pairs to ids not popped yet; the queue holds, once each,
  // the unpopped ids whose count is zero.
  ghost predicate Counts(g: Graph, popped: seq<string>, indeg: map<string, int>, queue: seq<string>) {
    && indeg.Keys == g.ids
    && (forall m | m in g.ids :: indeg[m] == Out(g.pairs, m, g.ids - Elements(popped)))
    && Queued(g, popped, indeg, queue)
  }

  ghost predicate Queued(g: Graph, popped: seq<string>, indeg: map<string, int>, queue: seq<string>)
    requires indeg.Keys == g.ids
  {
    && Distinct(queue)
    && (forall m | m in queue :: m in g.ids && m !in popped)
    && (forall m | m in g.ids :: m in popped || m in queue <==> indeg[m] == 0)
  }

  // The counts after subtracting one for each entry of ds.
  ghost predicate Reduced(g: Graph, left: set<string>, ds: seq<string>, indeg: map<string, int>)
    requires indeg.Keys == g.ids
  {
    forall m | m in g.ids :: indeg[m] == Out(g.pairs, m, left) - Occurrences(ds, m)
  }

  // One pop of the queue: subtract one for every pair that names n and enqueue the tasks
  // that reach zero.
  method Release(ghost g: Graph, ghost popped: seq<string>, ghost left: set<string>, ghost n: string,
                 ds: seq<string>, indeg0: map<string, int>, queue0: seq<string>)
    returns (indeg: map<string, int>, queue: seq<string>)
    requires ds == Dependents(g.pairs, n) && (forall m | m in ds :: m in g.ids) && n in left
    requires indeg0.Keys == g.ids && Reduced(g, left, [], indeg0)
    requires Queued(g, popped, indeg0, queue0)
    ensures indeg.Keys == g.ids && Reduced(g, left, ds, indeg)
    ensures Queued(g, popped, indeg, queue)
  {
    indeg, queue := indeg0, queue0;
    for k := 0 to |ds|
      invariant indeg.Keys == g.ids
      invariant Reduced(g, left, ds[..k], indeg)
      invariant Queued(g, popped, indeg, queue)
    {
      StillToSubtract(g, left, n, ds, k, indeg);
      ReducedSnoc(g, left, ds[..k], indeg, ds[k]);
      assert ds[..k + 1] == ds[..k] + [ds[k]];
      indeg, queue := Decrement(g, popped, indeg, queue, ds[k]);
    }
    assert ds[..|ds|] == ds;
  }

  // An id that has not had its whole share subtracted still counts something.
  lemma StillToSubtract(g: Graph, left: set<string>, n: string, ds: seq<string>, k: nat, indeg: map<string, int>)
    requires ds == Dependents(g.pairs, n) && k < |ds| && ds[k] in g.ids && n in left
    requires indeg.Keys == g.ids && Reduced(g, left, ds[..k], indeg)
    ensures indeg[ds[k]] > 0
  {
    OccurrencesSnoc(ds[..k], ds[k], ds[k]);
    assert ds[..k + 1] == ds[..k] + [ds[k]];
    OccurrencesPrefix(ds, k + 1, ds[k]);
    OutRemove(g.pairs, ds[k], left, n);
  }

  method Decrement(ghost g: Graph, ghost popped: seq<string>, indeg0: map<string, int>, queue0: seq<string>,
                   m: string)
    returns (indeg: map<string, int>, queue: seq<string>)
    requires indeg0.Keys == g.ids && m in g.ids && indeg0[m] > 0
    requires Queued(g, popped, indeg0, queue0)
    ensures indeg == indeg0[m := indeg0[m] - 1]
    ensures Queued(g, popped, indeg, queue)
  {
    Decremented(g, popped, indeg0, queue0, m);
    indeg, queue := indeg0[m := indeg0[m] - 1], queue0;
    if indeg[m] == 0 {
      queue := queue + [m];
    }
  }

  lemma ReducedSnoc(g: Graph, left: set<string>, ds: seq<string>, indeg: map<string, int>, m: string)
    requires indeg.Keys == g.ids && m in g.ids && Reduced(g, left, ds, indeg)
    ensures Reduced(g, left, ds + [m], indeg[m := indeg[m] - 1])
  {
    forall x ensures Occurrences(ds + [m], x) == Occurrences(ds, x) + if m == x then 1 else 0 {
      OccurrencesSnoc(ds, m, x);
    }
  }

  lemma AllReduced(g: Graph, popped: seq<string>, n: string, ds: seq<string>, indeg: map<string, int>)
    requires indeg.Keys == g.ids && n in g.ids && n !in popped && ds == Dependents(g.pairs, n)
    requires Reduced(g, g.ids - Elements(popped), ds, indeg)
    ensures forall m | m in g.ids :: indeg[m] == Out(g.pairs, m, g.ids - Elements(popped + [n]))
  {
    var left := g.ids - Elements(popped);
    ElementsSnoc(popped, n);
    assert g.ids - Elements(popped + [n]) == left - {n};
    forall m | m in g.ids ensures indeg[m] == Out(g.pairs, m, left - {n}) {
      OutRemove(g.pairs, m, left, n);
    }
  }

  lemma PoppedMoves(g: Graph, popped: seq<string>, indeg: map<string, int>, queue: seq<string>, n: string)
    requires indeg.Keys == g.ids
    requires Queued(g, popped, indeg, queue + [n])
    ensures Queued(g, popped + [n], indeg, queue) && n in g.ids && n !in popped
  {
    var q := queue + [n];
    assert n in q;
    assert forall i | 0 <= i < |queue| :: queue[i] == q[i] && q[i] in q;
    assert q[|queue|] == n;
    forall m | m in queue ensures m in g.ids && m !in popped + [n] {
      assert m in q;
    }
    forall m | m in g.ids ensures m in popped + [n] || m in queue <==> indeg[m] == 0 {
      assert m in popped || m in q <==> indeg[m] == 0;
    }
  }

  lemma Decremented(g: Graph, popped: seq<string>, indeg: map<string, int>, queue: seq<string>, m: string)
    requires indeg.Keys == g.ids && m in g.ids && indeg[m] > 0
    requires Queued(g, popped, indeg, queue)
    ensures indeg[m] == 1 ==> Queued(g, popped, indeg[m := 0], queue + [m])
    ensures indeg[m] > 1 ==> Queued(g, popped, indeg[m := indeg[m] - 1], queue)
  {
    assert m !in queue && m !in popped;
  }

  // The pops so far: each id once, dependencies first.
  ghost predicate PopOrder(g: Graph, popped: seq<string>) {
    Distinct(popped) && Elements(popped) <= g.ids && DependenciesFirst(g, popped)
  }

  lemma NextPop(g: Graph, popped: seq<string>, indeg: map<string, int>, rest: seq<string>, n: string)
    requires Counts(g, popped, indeg, rest + [n]) && PopOrder(g, popped)
    ensures PopOrder(g, popped + [n])
    ensures n in g.ids && n !in popped
    ensures Queued(g, popped + [n], indeg, rest) && Reduced(g, g.ids - Elements(popped), [], indeg)
    ensures |g.ids - Elements(popped + [n])| < |g.ids - Elements(popped)|
  {
    PoppedMoves(g, popped, indeg, rest, n);
    assert n in rest + [n];
    PopKeepsOrder(g, popped, n);
    ElementsSnoc(popped, n);
    assert g.ids - Elements(popped + [n]) == (g.ids - Elements(popped)) - {n};
  }

  // The queue loop.  `seen` counts the pops; every id is popped at most once, and the count
  // reaches the number of ids exactly when the graph is acyclic.
  method CountPops(tasks: seq<Task>) returns (seen: nat, ghost popped: seq<string>)
    ensures seen == |popped| && PopOrder(GraphOf(tasks), popped)
    ensures seen <= |Ids(tasks)|
    ensures seen == |Ids(tasks)| <==> !HasCycle(GraphOf(tasks))
  {
    ghost var g := GraphOf(tasks);
    var indeg := CountDependencies(tasks);
    var queue := InitialQueue(tasks, indeg);
    seen, popped := 0, [];
    var dependents := IndexDependents(tasks);
    assert g.ids - Elements(popped) == g.ids;
    while queue != []
      invariant Counts(g, popped, indeg, queue)
      invariant PopOrder(g, popped)
      invariant seen == |popped|
      decreases |g.ids - Elements(popped)|
    {
      var n := queue[|queue| - 1];
      var rest := queue[..|queue| - 1];
      assert queue == rest + [n];
      seen := seen + 1;
      NextPop(g, popped, indeg, rest, n);
      var ds := if n in dependents then dependents[n] else [];
      assert ds == Lookup(dependents, n);
      DependentsAreTasks(tasks, n);
      ghost var left := g.ids - Elements(popped);
      indeg, queue := Release(g, popped + [n], left, n, ds, indeg, rest);
      AllReduced(g, popped, n, ds, indeg);
      popped := popped + [n];
    }
    NothingLeftToPop(g, popped, indeg);
    KahnCriterion(g, popped);
    DistinctCardinality(popped);
    SubsetSize(Elements(popped), g.ids);
  }

  lemma NothingLeftToPop(g: Graph, popped: seq<string>, indeg: map<string, int>)
    requires Counts(g, popped, indeg, [])
    ensures EachDependsWithin(g, g.ids - Elements(popped))
  {
    var left := g.ids - Elements(popped);
    forall m | m in left ensures DependsInto(g, m, left) {
      OutPositive(g.pairs, m, left);
      var d :| d in left && (m, d) in g.pairs;
      assert DependsOn(g, m, d);
    }
  }

  // ------------------------------------------------------------------ validate

  ghost function DuplicateErrors(tasks: seq<Task>): seq<Error> {
    if tasks == [] then []
    else
      var init, t := tasks[..|tasks| - 1], tasks[|tasks| - 1];
      DuplicateErrors(init) + if t.id in Ids(init) then [DuplicateId(t.id)] else []
  }

  ghost function UnknownErrors(pairs: seq<(string, string)>, ids: set<string>): seq<Error> {
    if pairs == [] then []
    else
      var e := pairs[|pairs| - 1];
      UnknownErrors(pairs[..|pairs| - 1], ids) + if e.1 !in ids then [UnknownDependency(e.0, e.1)] else []
  }

  predicate Verified(receipts: seq<Receipt>, id: string) {
    exists r :: r in receipts && r.taskId == id && !r.selfAsserted && Fail !in r.criteria
  }

  ghost function EvidenceErrors(tasks: seq<Task>, receipts: seq<Receipt>): seq<Error> {
    if tasks == [] then []
    else
      var t := tasks[|tasks| - 1];
      EvidenceErrors(tasks[..|tasks| - 1], receipts)
      + if t.status == Done && !Verified(receipts, t.id) then [DoneWithoutEvidence(t.id)] else []
  }

  method FindDuplicates(tasks: seq<Task>) returns (errors: seq<Error>, ids: set<string>)
    ensures ids == Ids(tasks) && errors == DuplicateErrors(tasks)
  {
    errors, ids := [], {};
    for i := 0 to |tasks|
      invariant ids == Ids(tasks[..i]) && errors == DuplicateErrors(tasks[..i])
    {
      var t := tasks[i];
      assert tasks[..i + 1] == tasks[..i] + [t];
      UniqueIdsSnoc(tasks[..i], t);
      if t.id in ids {
        errors := errors + [DuplicateId(t.id)];
      }
      ids := ids + {t.id};
    }
    assert tasks[..|tasks|] == tasks;
  }

  lemma UnknownSnoc(pairs: seq<(string, string)>, e: (string, string), ids: set<string>)
    ensures UnknownErrors(pairs + [e], ids)
         == UnknownErrors(pairs, ids) + if e.1 !in ids then [UnknownDependency(e.0, e.1)] else []
  {
    assert (pairs + [e])[..|pairs|] == pairs;
  }

  method FindUnknown(tasks: seq<Task>, ids: set<string>) returns (errors: seq<Error>)
    ensures errors == UnknownErrors(Pairs(tasks), ids)
  {
    errors := [];
    for i := 0 to |tasks|
      invariant errors == UnknownErrors(Pairs(tasks[..i]), ids)
    {
      var t := tasks[i];
      SeenSteps(tasks, i);
      for j := 0 to |t.dependsOn|
        invariant errors == UnknownErrors(Seen(tasks, i, j), ids)
      {
        UnknownSnoc(Seen(tasks, i, j), (t.id, t.dependsOn[j]), ids);
        if t.dependsOn[j] !in ids {
          errors := errors + [UnknownDependency(t.id, t.dependsOn[j])];
        }
      }
    }
    assert tasks[..|tasks|] == tasks;
  }

  method FindUnevidenced(tasks: seq<Task>, receipts: seq<Receipt>) returns (errors: seq<Error>)
    ensures errors == EvidenceErrors(tasks, receipts)
  {
    errors := [];
    for i := 0 to |tasks|
      invariant errors == EvidenceErrors(tasks[..i], receipts)
    {
      var t := tasks[i];
      assert tasks[..i + 1][..i] == tasks[..i];
      if t.status == Done && !Verified(receipts, t.id) {
        errors := errors + [DoneWithoutEvidence(t.id)];
      }
    }
    assert tasks[..|tasks|] == tasks;
  }

  // The errors, in the order they are reported.
  method Validate(tasks: seq<Task>, receipts: seq<Receipt>) returns (errors: seq<Error>)
    ensures errors == DuplicateErrors(tasks) + UnknownErrors(Pairs(tasks), Ids(tasks))
                      + (if UniqueIds(tasks) && !HasCycle(GraphOf(tasks)) then [] else [Cycle])
                      + EvidenceErrors(tasks, receipts)
  {
    var duplicates, ids := FindDuplicates(tasks);
    var unknown := FindUnknown(tasks, ids);
    var seen, popped := CountPops(tasks);
    UniqueIdsCount(tasks);
    var graph := if seen != |tasks| then [Cycle] else [];
    var evidence := FindUnevidenced(tasks, receipts);
    errors := duplicates + unknown + graph + evidence;
  }

  // Which errors there are, in the tasks' own fields: an id that stands twice in the plan,
  lemma DuplicatesListed(tasks: seq<Task>, id: string)
    ensures DuplicateId(id) in DuplicateErrors(tasks) <==>
            exists i, j :: 0 <= i < j < |tasks| && tasks[i].id == id && tasks[j].id == id
  {
    if i, j :| 0 <= i < j < |tasks| && tasks[i].id == id && tasks[j].id == id {
      TwiceIsListed(tasks, i, j);
    }
    if DuplicateId(id) in DuplicateErrors(tasks) {
      var i, j := ListedIsTwice(tasks, id);
    }
  }

  lemma {:induction false} TwiceIsListed(tasks: seq<Task>, i: nat, j: nat)
    requires i < j < |tasks| && tasks[i].id == tasks[j].id
    ensures DuplicateId(tasks[i].id) in DuplicateErrors(tasks)
  {
    var init := tasks[..|tasks| - 1];
    if j < |init| {
      TwiceIsListed(init, i, j);
    } else {
      assert init[i] in init;
    }
  }

  lemma {:induction false} ListedIsTwice(tasks: seq<Task>, id: string) returns (i: nat, j: nat)
    requires DuplicateId(id) in DuplicateErrors(tasks)
    ensures i < j < |tasks| && tasks[i].id == id && tasks[j].id == id
  {
    var init := tasks[..|tasks| - 1];
    if DuplicateId(id) in DuplicateErrors(init) {
      i, j := ListedIsTwice(init, id);
    } else {
      var t :| t in init && t.id == id;
      i :| 0 <= i < |init| && init[i] == t;
      j := |init|;
    }
  }

  // a dependency that is no id of the plan,
  lemma UnknownListed(tasks: seq<Task>, a: string, b: string)
    ensures UnknownDependency(a, b) in UnknownErrors(Pairs(tasks), Ids(tasks)) <==>
            (exists t :: t in tasks && t.id == a && b in t.dependsOn) && forall t | t in tasks :: t.id != b
  {
    UnknownInPairs(Pairs(tasks), Ids(tasks), a, b);
    PairMeaning(tasks, a, b);
  }

  lemma {:induction false} UnknownInPairs(pairs: seq<(string, string)>, ids: set<string>, a: string, b: string)
    ensures UnknownDependency(a, b) in UnknownErrors(pairs, ids) <==> (a, b) in pairs && b !in ids
  {
    if pairs != [] {
      UnknownInPairs(pairs[..|pairs| - 1], ids, a, b);
      assert pairs == pairs[..|pairs| - 1] + [pairs[|pairs| - 1]];
    }
  }

  // a finished task for which every receipt is its own assertion or has a failed criterion,
  lemma {:induction false} UnevidencedListed(tasks: seq<Task>, receipts: seq<Receipt>, id: string)
    ensures DoneWithoutEvidence(id) in EvidenceErrors(tasks, receipts) <==>
            && (exists t :: t in tasks && t.id == id && t.status == Done)
            && forall r | r in receipts && r.taskId == id :: r.selfAsserted || exists c :: c in r.criteria && c == Fail
  {
    if tasks != [] {
      var init, t := tasks[..|tasks| - 1], tasks[|tasks| - 1];
      UnevidencedListed(init, receipts, id);
      assert tasks == init + [t];
    }
  }

  // Some task named a lists b among its dependencies.
  ghost predicate Names(tasks: seq<Task>, a: string, b: string) {
    exists t :: t in tasks && t.id == a && b in t.dependsOn
  }

  lemma DependsOnMeaning(tasks: seq<Task>, a: string, b: string)
    ensures DependsOn(GraphOf(tasks), a, b) <==>
            (exists t :: t in tasks && t.id == a && b in t.dependsOn) && exists t :: t in tasks && t.id == b
  {
    PairMeaning(tasks, a, b);
  }

  // and a cycle, which is a list of ids each with a task that depends on the next: every such
  // list makes one,
  lemma CycleOfTasks(tasks: seq<Task>, p: seq<string>)
    requires |p| > 1 && p[0] == p[|p| - 1]
    requires forall k, l | 0 <= k < l < |p| && l == k + 1 :: Names(tasks, p[k], p[l])
    requires forall k | 0 <= k < |p| :: exists t :: t in tasks && t.id == p[k]
    ensures HasCycle(GraphOf(tasks))
  {
    forall k, l | 0 <= k < l < |p| && l == k + 1 ensures DependsOn(GraphOf(tasks), p[k], p[l]) {
      DependsOnMeaning(tasks, p[k], p[l]);
    }
    assert Walk(GraphOf(tasks), p);
  }

  // and where there is a cycle there is such a list.
  lemma TasksOfCycle(tasks: seq<Task>) returns (p: seq<string>)
    requires HasCycle(GraphOf(tasks))
    ensures |p| > 1 && p[0] == p[|p| - 1]
    ensures forall k, l | 0 <= k < l < |p| && l == k + 1 :: Names(tasks, p[k], p[l])
    ensures forall k | 0 <= k < |p| :: exists t :: t in tasks && t.id == p[k]
  {
    p :| Walk(GraphOf(tasks), p) && |p| > 1 && p[0] == p[|p| - 1];
    forall k, l | 0 <= k < l < |p| && l == k + 1 ensures Names(tasks, p[k], p[l]) {
      assert DependsOn(GraphOf(tasks), p[k], p[l]);
      DependsOnMeaning(tasks, p[k], p[l]);
    }
    forall k | 0 <= k < |p| ensures exists t :: t in tasks && t.id == p[k] {
      var l := if k < |p| - 1 then k + 1 else 1;
      assert DependsOn(GraphOf(tasks), p[l - 1], p[l]) && p[l - 1] == p[k];
      DependsOnMeaning(tasks, p[l - 1], p[l]);
    }
  }

  // The errors of each kind stand in the order of what they report: the repeated ids in that of
  // the tasks that repeat one,
  lemma {:induction false} DuplicatesInOrder(tasks: seq<Task>, marks: seq<bool>)
    requires |marks| == |tasks| && forall i | 0 <= i < |tasks| :: marks[i] <==> tasks[i].id in Ids(tasks[..i])
    ensures var repeats := Chosen(tasks, marks, true);
      && |DuplicateErrors(tasks)| == |repeats|
      && forall k | 0 <= k < |repeats| :: DuplicateErrors(tasks)[k] == DuplicateId(repeats[k].id)
  {
    if tasks != [] {
      var n := |tasks| - 1;
      forall i | 0 <= i < n ensures marks[..n][i] <==> tasks[..n][i].id in Ids(tasks[..n][..i]) {
        assert tasks[..n][..i] == tasks[..i];
      }
      DuplicatesInOrder(tasks[..n], marks[..n]);
      ChosenSnoc(tasks, marks, n);
    }
  }

  lemma ChosenSnoc<T>(s: seq<T>, marks: seq<bool>, n: nat)
    requires |s| == |marks| == n + 1
    ensures Chosen(s, marks, true) == Chosen(s[..n], marks[..n], true) + if marks[n] then [s[n]] else []
  {
    ChosenConcat(s[..n], marks[..n], [s[n]], [marks[n]], true);
    assert s == s[..n] + [s[n]] && marks == marks[..n] + [marks[n]];
  }

  // the unknown dependencies in that of the pairs,
  lemma {:induction false} UnknownInOrder(pairs: seq<(string, string)>, ids: set<string>, marks: seq<bool>)
    requires |marks| == |pairs| && forall i | 0 <= i < |pairs| :: marks[i] <==> pairs[i].1 !in ids
    ensures var unknown := Chosen(pairs, marks, true);
      && |UnknownErrors(pairs, ids)| == |unknown|
      && forall k | 0 <= k < |unknown| :: UnknownErrors(pairs, ids)[k] == UnknownDependency(unknown[k].0, unknown[k].1)
  {
    if pairs != [] {
      var n := |pairs| - 1;
      UnknownInOrder(pairs[..n], ids, marks[..n]);
      ChosenSnoc(pairs, marks, n);
    }
  }

  // which is that of the tasks, and within a task that of its dependencies,
  lemma {:induction false} PairAt(tasks: seq<Task>, i: nat, j: nat)
    requires i < |tasks| && j < |tasks[i].dependsOn|
    ensures |Pairs(tasks[..i])| + j < |Pairs(tasks)|
    ensures Pairs(tasks)[|Pairs(tasks[..i])| + j] == (tasks[i].id, tasks[i].dependsOn[j])
  {
    var init := tasks[..|tasks| - 1];
    if i < |init| {
      PairAt(init, i, j);
      assert init[..i] == tasks[..i];
    }
  }

  // and the finished tasks without evidence in plan order.
  lemma {:induction false} UnevidencedInOrder(tasks: seq<Task>, receipts: seq<Receipt>, marks: seq<bool>)
    requires |marks| == |tasks|
    requires forall i | 0 <= i < |tasks| :: marks[i] <==> tasks[i].status == Done && !Verified(receipts, tasks[i].id)
    ensures var bare := Chosen(tasks, marks, true);
      && |EvidenceErrors(tasks, receipts)| == |bare|
      && forall k | 0 <= k < |bare| :: EvidenceErrors(tasks, receipts)[k] == DoneWithoutEvidence(bare[k].id)
  {
    if tasks != [] {
      var n := |tasks| - 1;
      UnevidencedInOrder(tasks[..n], receipts, marks[..n]);
      ChosenSnoc(tasks, marks, n);
    }
  }

  lemma UniqueIdsSnoc(init: seq<Task>, t: Task)
    ensures Ids(init + [t]) == Ids(init) + {t.id}
    ensures UniqueIds(init + [t]) <==> UniqueIds(init) && t.id !in Ids(init)
  {
    var tasks := init + [t];
    if UniqueIds(tasks) {
      forall i, j | 0 <= i < j < |init| ensures init[i].id != init[j].id {
        assert tasks[i].id != tasks[j].id;
      }
      forall u | u in init ensures u.id != t.id {
        var i :| 0 <= i < |init| && init[i] == u;
        assert tasks[i].id != tasks[|init|].id;
      }
    }
  }

  // There are as many ids as tasks exactly when no id repeats.
  lemma {:induction false} UniqueIdsCount(tasks: seq<Task>)
    ensures |Ids(tasks)| <= |tasks|
    ensures |Ids(tasks)| == |tasks| <==> UniqueIds(tasks)
  {
    if tasks != [] {
      var init, t := tasks[..|tasks| - 1], tasks[|tasks| - 1];
      UniqueIdsCount(init);
      UniqueIdsSnoc(init, t);
      assert tasks == init + [t];
    }
  }

  lemma {:induction false} ListedDuplicates(tasks: seq<Task>)
    ensures Cycle !in DuplicateErrors(tasks)
    ensures DuplicateErrors(tasks) == [] <==> UniqueIds(tasks)
  {
    if tasks != [] {
      var init, t := tasks[..|tasks| - 1], tasks[|tasks| - 1];
      ListedDuplicates(init);
      UniqueIdsSnoc(init, t);
      assert tasks == init + [t];
    }
  }

  lemma {:induction false} ListedEvidence(tasks: seq<Task>, receipts: seq<Receipt>)
    ensures Cycle !in EvidenceErrors(tasks, receipts)
    ensures EvidenceErrors(tasks, receipts) == []
            <==> forall t | t in tasks && t.status == Done :: Verified(receipts, t.id)
  {
    if tasks != [] {
      var init, t := tasks[..|tasks| - 1], tasks[|tasks| - 1];
      ListedEvidence(init, receipts);
      assert tasks == init + [t];
    }
  }

  lemma {:induction false} ListedUnknown(pairs: seq<(string, string)>, ids: set<string>)
    ensures Cycle !in UnknownErrors(pairs, ids)
    ensures UnknownErrors(pairs, ids) == [] <==> forall e | e in pairs :: e.1 in ids
  {
    if pairs != [] {
      ListedUnknown(pairs[..|pairs| - 1], ids);
      assert pairs == pairs[..|pairs| - 1] + [pairs[|pairs| - 1]];
    }
  }

  ghost predicate Resolved(tasks: seq<Task>) {
    forall t, d | t in tasks && d in t.dependsOn :: d in Ids(tasks)
  }

  // What `validate` reports, for every task list whatever its repetitions and unknown ids:
  // a cycle when the graph has one or an id repeats, and nothing at all for exactly the
  // well-formed plans.
  method ValidateVerdict(tasks: seq<Task>, receipts: seq<Receipt>) returns (cycle: bool, ok: bool)
    ensures cycle <==> !UniqueIds(tasks) || HasCycle(GraphOf(tasks))
    ensures ok <==> UniqueIds(tasks) && Resolved(tasks) && !HasCycle(GraphOf(tasks))
                    && forall t | t in tasks && t.status == Done :: Verified(receipts, t.id)
  {
    var errors := Validate(tasks, receipts);
    ListedDuplicates(tasks);
    ListedEvidence(tasks, receipts);
    ListedUnknown(Pairs(tasks), Ids(tasks));
    assert Resolved(tasks) <==> forall e | e in Pairs(tasks) :: e.1 in Ids(tasks) by {
      forall a, b ensures (a, b) in Pairs(tasks) <==> exists t :: t in tasks && t.id == a && b in t.dependsOn {
        PairMeaning(tasks, a, b);
      }
      if Resolved(tasks) {
        forall e | e in Pairs(tasks) ensures e.1 in Ids(tasks) {
          assert (e.0, e.1) in Pairs(tasks);
        }
      } else {
        var t, d :| t in tasks && d in t.dependsOn && d !in Ids(tasks);
        assert (t.id, d) in Pairs(tasks);
      }
    }
    cycle, ok := Cycle in errors, errors == [];
  }

  // A plan with a repeated id and no cycle: one task without dependencies, declared twice.
  lemma RepeatedIdWithoutCycle(t: Task)
    requires t.dependsOn == []
    ensures !UniqueIds([t, t]) && !HasCycle(GraphOf([t, t]))
  {
    assert [t, t][0].id == [t, t][1].id;
    forall a, b ensures (a, b) !in Pairs([t, t]) {
      PairMeaning([t, t], a, b);
    }
    assert forall p | |p| > 1 :: Walk(GraphOf([t, t]), p) ==> DependsOn(GraphOf([t, t]), p[0], p[1]);
  }

  // ------------------------------------------------------------------ plan_next

  // What the readiness filter reads beside the tasks.
  datatype Settings = Settings(
    decisions: set<string>,
    currentLevel: AuthLevel,
    sessionCeiling: Option<int>,
    dayCeiling: Option<int>)

  // by_id[d]: the last task of that id, as a dict built in task order keeps it.
  function Find(tasks: seq<Task>, d: string): (r: Option<Task>)
    ensures r.Some? ==> r.value in tasks && r.value.id == d
    ensures r.None? ==> forall t | t in tasks :: t.id != d
  {
    if tasks == [] then None
    else if tasks[|tasks| - 1].id == d then Some(tasks[|tasks| - 1])
    else Find(tasks[..|tasks| - 1], d)
  }

  predicate IsDone(tasks: seq<Task>, d: string) {
    Find(tasks, d).Some? && Find(tasks, d).value.status == Done
  }

  predicate Allowed(t: Task, env: Settings) {
    && t.authorizationMin <= env.currentLevel
    && (t.requiresDecision ==> forall d | d in t.decisionIds :: d in env.decisions)
  }

  predicate Open(t: Task) {
    t.status in {Pending, Ready}
  }

  // The task may be worked on next.
  predicate IsReady(tasks: seq<Task>, t: Task, env: Settings) {
    && Open(t)
    && (forall d | d in t.dependsOn :: IsDone(tasks, d))
    && Allowed(t, env)
  }

  // The listing fails closed when a cost ceiling is unset; otherwise it holds exactly the
  // ids of the ready tasks, in plan order.
  method PlanNext(tasks: seq<Task>, env: Settings) returns (listed: Option<seq<string>>)
    ensures listed.None? <==> env.sessionCeiling.None? || env.dayCeiling.None?
    ensures listed.Some? ==> listed.value == ReadyIds(tasks, tasks, env)
    ensures listed.Some? ==> forall id :: id in listed.value <==>
      exists i :: 0 <= i < |tasks| && tasks[i].id == id
        && tasks[i].status in {Pending, Ready}
        && tasks[i].authorizationMin <= env.currentLevel
        && (tasks[i].requiresDecision ==> forall d | d in tasks[i].decisionIds :: d in env.decisions)
        && forall d | d in tasks[i].dependsOn ::
             exists j :: 0 <= j < |tasks| && tasks[j].id == d && tasks[j].status == Done
               && forall k | j < k < |tasks| :: tasks[k].id != d
  {
    forall id {
      ListedExactly(tasks, env, id);
    }
    if env.sessionCeiling.None? || env.dayCeiling.None? {
      return None;
    }
    var ready := [];
    for i := 0 to |tasks|
      invariant ready == ReadyIds(tasks, tasks[..i], env)
    {
      var t := tasks[i];
      assert tasks[..i + 1][..i] == tasks[..i];
      if !Open(t) {
        continue;
      }
      if exists d :: d in t.dependsOn && !IsDone(tasks, d) {
        continue;
      }
      if t.authorizationMin > env.currentLevel {
        continue;
      }
      if t.requiresDecision && exists d :: d in t.decisionIds && d !in env.decisions {
        continue;
      }
      ready := ready + [t.id];
    }
    assert tasks[..|tasks|] == tasks;
    return Some(ready);
  }

  ghost function ReadyIds(tasks: seq<Task>, prefix: seq<Task>, env: Settings): seq<string> {
    if prefix == [] then []
    else
      var t := prefix[|prefix| - 1];
      ReadyIds(tasks, prefix[..|prefix| - 1], env) + if IsReady(tasks, t, env) then [t.id] else []
  }

  lemma {:induction false} ListedMeansReady(tasks: seq<Task>, prefix: seq<Task>, env: Settings, id: string)
    ensures id in ReadyIds(tasks, prefix, env)
            <==> exists t :: t in prefix && t.id == id && IsReady(tasks, t, env)
  {
    if prefix != [] {
      var init, t := prefix[..|prefix| - 1], prefix[|prefix| - 1];
      ListedMeansReady(tasks, init, env, id);
      assert prefix == init + [t];
    }
  }

  // A dependency is met when the last task of that id is done.
  lemma DoneMeaning(tasks: seq<Task>, d: string)
    ensures IsDone(tasks, d) <==>
            exists j :: 0 <= j < |tasks| && tasks[j].id == d && tasks[j].status == Done
              && forall k | j < k < |tasks| :: tasks[k].id != d
  {
    if Find(tasks, d).Some? {
      var i := FoundAt(tasks, d);
      if j :| 0 <= j < |tasks| && tasks[j].id == d && forall k | j < k < |tasks| :: tasks[k].id != d {
        assert i == j;
      }
    }
  }

  lemma {:induction false} FoundAt(tasks: seq<Task>, d: string) returns (j: nat)
    requires Find(tasks, d).Some?
    ensures j < |tasks| && tasks[j].id == d && tasks[j] == Find(tasks, d).value
    ensures forall k | j < k < |tasks| :: tasks[k].id != d
  {
    j := |tasks| - 1;
    if tasks[j].id != d {
      j := FoundAt(tasks[..j], d);
    }
  }

  lemma ReadyMeaning(tasks: seq<Task>, t: Task, env: Settings)
    ensures IsReady(tasks, t, env) <==>
        && t.status in {Pending, Ready}
        && t.authorizationMin <= env.currentLevel
        && (t.requiresDecision ==> forall d | d in t.decisionIds :: d in env.decisions)
        && forall d | d in t.dependsOn ::
             exists j :: 0 <= j < |tasks| && tasks[j].id == d && tasks[j].status == Done
               && forall k | j < k < |tasks| :: tasks[k].id != d
  {
    forall d | d in t.dependsOn {
      DoneMeaning(tasks, d);
    }
  }

  // What is listed, in the tasks' own fields.
  lemma ListedExactly(tasks: seq<Task>, env: Settings, id: string)
    ensures id in ReadyIds(tasks, tasks, env) <==>
      exists i :: 0 <= i < |tasks| && tasks[i].id == id
        && tasks[i].status in {Pending, Ready}
        && tasks[i].authorizationMin <= env.currentLevel
        && (tasks[i].requiresDecision ==> forall d | d in tasks[i].decisionIds :: d in env.decisions)
        && forall d | d in tasks[i].dependsOn ::
             exists j :: 0 <= j < |tasks| && tasks[j].id == d && tasks[j].status == Done
               && forall k | j < k < |tasks| :: tasks[k].id != d
  {
    ListedMeansReady(tasks, tasks, env, id);
    forall i | 0 <= i < |tasks| {
      ReadyMeaning(tasks, tasks[i], env);
    }
  }

  // The list keeps the plan order.
  lemma {:induction false} ListedInOrder(tasks: seq<Task>, prefix: seq<Task>, env: Settings, marks: seq<bool>)
    requires |marks| == |prefix| && forall i | 0 <= i < |prefix| :: marks[i] <==> IsReady(tasks, prefix[i], env)
    ensures var ready := Chosen(prefix, marks, true);
      && |ReadyIds(tasks, prefix, env)| == |ready|
      && forall k | 0 <= k < |ready| :: ReadyIds(tasks, prefix, env)[k] == ready[k].id
  {
    if prefix != [] {
      var n := |prefix| - 1;
      ListedInOrder(tasks, prefix[..n], env, marks[..n]);
      ChosenSnoc(prefix, marks, n);
    }
  }

  // ------------------------------------------------------------------ runs of the plan

  // The plan after a listed task has been completed.
  ghost function Complete(tasks: seq<Task>, id: string): seq<Task> {
    seq(|tasks|, i requires 0 <= i < |tasks| =>
      if tasks[i].id == id then tasks[i].(status := Done) else tasks[i])
  }

  // Each id of the run is on the list that plan_next gives at that moment.
  ghost predicate IsRun(tasks: seq<Task>, env: Settings, run: seq<string>)
    decreases |run|
  {
    run == []
    || (run[0] in ReadyIds(tasks, tasks, env) && IsRun(Complete(tasks, run[0]), env, run[1..]))
  }

  ghost function After(tasks: seq<Task>, run: seq<string>): seq<Task>
    decreases |run|
  {
    if run == [] then tasks else After(Complete(tasks, run[0]), run[1..])
  }

  ghost function Unfinished(tasks: seq<Task>): set<string> {
    set t | t in tasks && t.status != Done :: t.id
  }

  // Everything a finished task depends on is finished.
  ghost predicate DoneIsClosed(tasks: seq<Task>) {
    forall t, d | t in tasks && t.status == Done && d in t.dependsOn :: d in Ids(tasks) && d !in Unfinished(tasks)
  }

  // A valid plan in which nothing but dependencies holds a task back.
  ghost predicate Runnable(tasks: seq<Task>, env: Settings) {
    && UniqueIds(tasks) && Resolved(tasks) && !HasCycle(GraphOf(tasks))
    && forall t | t in tasks && t.status != Done :: Open(t) && Allowed(t, env)
  }

  lemma CompleteKeepsTasks(tasks: seq<Task>, id: string)
    ensures |Complete(tasks, id)| == |tasks|
    ensures forall i | 0 <= i < |tasks| ::
        Complete(tasks, id)[i] == (if tasks[i].id == id then tasks[i].(status := Done) else tasks[i])
    ensures Ids(Complete(tasks, id)) == Ids(tasks)
    ensures Unfinished(Complete(tasks, id)) == Unfinished(tasks) - {id}
  {
    var after := Complete(tasks, id);
    forall x ensures x in Ids(after) <==> x in Ids(tasks) {
      if x in Ids(tasks) {
        var i :| 0 <= i < |tasks| && tasks[i].id == x;
        assert after[i] in after;
      }
      if x in Ids(after) {
        var i :| 0 <= i < |after| && after[i].id == x;
        assert tasks[i] in tasks;
      }
    }
    forall x ensures x in Unfinished(after) <==> x in Unfinished(tasks) - {id} {
      if x in Unfinished(after) {
        var i :| 0 <= i < |after| && after[i].id == x && after[i].status != Done;
        assert tasks[i] in tasks;
      }
      if x in Unfinished(tasks) - {id} {
        var i :| 0 <= i < |tasks| && tasks[i].id == x && tasks[i].status != Done;
        assert after[i] in after;
      }
    }
  }

  lemma {:induction false} SamePairs(tasks: seq<Task>, after: seq<Task>)
    requires |tasks| == |after|
    requires forall i | 0 <= i < |tasks| :: after[i].id == tasks[i].id && after[i].dependsOn == tasks[i].dependsOn
    ensures Pairs(after) == Pairs(tasks)
  {
    if tasks != [] {
      SamePairs(tasks[..|tasks| - 1], after[..|tasks| - 1]);
    }
  }

  // In a plan with unique ids, done as the filter reads it is done as the tasks say.
  lemma DoneMeansFinished(tasks: seq<Task>, d: string)
    requires UniqueIds(tasks)
    ensures IsDone(tasks, d) <==> d in Ids(tasks) && d !in Unfinished(tasks)
  {
    if d in Ids(tasks) {
      var t := Find(tasks, d).value;
      forall u | u in tasks && u.id == d ensures u == t {
        var i :| 0 <= i < |tasks| && tasks[i] == u;
        var j :| 0 <= j < |tasks| && tasks[j] == t;
        assert i == j;
      }
    }
  }

  // While a task is unfinished, at least one is listed.
  lemma Progress(tasks: seq<Task>, env: Settings)
    requires Runnable(tasks, env) && Unfinished(tasks) != {}
    ensures ReadyIds(tasks, tasks, env) != []
  {
    if ReadyIds(tasks, tasks, env) == [] {
      var g, left := GraphOf(tasks), Unfinished(tasks);
      forall m | m in left ensures DependsInto(g, m, left) {
        var t :| t in tasks && t.status != Done && t.id == m;
        ListedMeansReady(tasks, tasks, env, m);
        assert !IsReady(tasks, t, env);
        var d :| d in t.dependsOn && !IsDone(tasks, d);
        DoneMeansFinished(tasks, d);
        PairMeaning(tasks, m, d);
        assert DependsOn(g, m, d);
      }
      var m :| m in left;
      StuckSetMeansCycle(g, left, m);
    }
  }

  // Completing a listed task finishes exactly that one, whose dependencies are all finished,
  // and leaves the plan runnable.
  lemma StepFinishesOne(tasks: seq<Task>, env: Settings, id: string)
    requires Runnable(tasks, env) && id in ReadyIds(tasks, tasks, env)
    ensures Runnable(Complete(tasks, id), env)
    ensures id in Unfinished(tasks) && Unfinished(Complete(tasks, id)) == Unfinished(tasks) - {id}
  {
    var after := Complete(tasks, id);
    CompleteKeepsTasks(tasks, id);
    SamePairs(tasks, after);
    ListedMeansReady(tasks, tasks, env, id);
    forall t | t in after && t.status != Done ensures Open(t) && Allowed(t, env) {
      var i :| 0 <= i < |after| && after[i] == t;
      assert tasks[i] in tasks;
    }
    forall t, d | t in after && d in t.dependsOn ensures d in Ids(after) {
      var i :| 0 <= i < |after| && after[i] == t;
      assert tasks[i] in tasks && d in tasks[i].dependsOn;
    }
  }

  lemma StepKeepsClosed(tasks: seq<Task>, env: Settings, id: string)
    requires UniqueIds(tasks) && DoneIsClosed(tasks) && id in ReadyIds(tasks, tasks, env)
    ensures UniqueIds(Complete(tasks, id)) && DoneIsClosed(Complete(tasks, id))
  {
    var after := Complete(tasks, id);
    CompleteKeepsTasks(tasks, id);
    forall t, d | t in after && t.status == Done && d in t.dependsOn
      ensures d in Ids(after) && d !in Unfinished(after)
    {
      var i :| 0 <= i < |after| && after[i] == t;
      assert tasks[i] in tasks;
      if tasks[i].id == id {
        ListedDependsOnDone(tasks, env, tasks[i], d);
      }
    }
  }

  // The task a listed id names depends on finished tasks only.
  lemma ListedDependsOnDone(tasks: seq<Task>, env: Settings, t: Task, d: string)
    requires UniqueIds(tasks) && t in tasks && t.id in ReadyIds(tasks, tasks, env) && d in t.dependsOn
    ensures d in Ids(tasks) && d !in Unfinished(tasks)
  {
    ListedMeansReady(tasks, tasks, env, t.id);
    var r :| r in tasks && r.id == t.id && IsReady(tasks, r, env);
    var i :| 0 <= i < |tasks| && tasks[i] == t;
    var j :| 0 <= j < |tasks| && tasks[j] == r;
    assert i == j;
    DoneMeansFinished(tasks, d);
  }

  // Whatever listed tasks a run completes, in any plan with unique ids: no task is finished
  // before something it depends on.
  lemma {:induction false} RunKeepsClosed(tasks: seq<Task>, env: Settings, run: seq<string>)
    requires UniqueIds(tasks) && DoneIsClosed(tasks) && IsRun(tasks, env, run)
    ensures DoneIsClosed(After(tasks, run))
    decreases |run|
  {
    if run != [] {
      StepKeepsClosed(tasks, env, run[0]);
      RunKeepsClosed(Complete(tasks, run[0]), env, run[1..]);
    }
  }

  // A run of a runnable plan with n unfinished tasks takes at most n steps, and it comes to
  // an end, with nothing listed, exactly when it has taken n steps and finished them all.
  lemma {:induction false} RunFinishesAll(tasks: seq<Task>, env: Settings, run: seq<string>)
    requires Runnable(tasks, env) && IsRun(tasks, env, run)
    ensures |run| + |Unfinished(After(tasks, run))| == |Unfinished(tasks)|
    ensures Runnable(After(tasks, run), env)
    ensures ReadyIds(After(tasks, run), After(tasks, run), env) == [] <==> |run| == |Unfinished(tasks)|
    decreases |run|
  {
    if run == [] {
      if Unfinished(tasks) != {} {
        Progress(tasks, env);
      } else if ReadyIds(tasks, tasks, env) != [] {
        var id := ReadyIds(tasks, tasks, env)[0];
        StepFinishesOne(tasks, env, id);
        assert false;
      }
    } else {
      StepFinishesOne(tasks, env, run[0]);
      RunFinishesAll(Complete(tasks, run[0]), env, run[1..]);
    }
  }

  // Such a run exists: choosing any listed task at each step finishes the plan.
  lemma {:induction false} FinishingRun(tasks: seq<Task>, env: Settings) returns (run: seq<string>)
    requires Runnable(tasks, env)
    ensures IsRun(tasks, env, run) && |run| == |Unfinished(tasks)|
    ensures Unfinished(After(tasks, run)) == {}
    decreases |Unfinished(tasks)|
  {
    run := [];
    if Unfinished(tasks) != {} {
      Progress(tasks, env);
      var id := ReadyIds(tasks, tasks, env)[0];
      StepFinishesOne(tasks, env, id);
      var rest := FinishingRun(Complete(tasks, id), env);
      run := [id] + rest;
      assert run[1..] == rest;
    }
  }
}
