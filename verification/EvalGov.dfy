/** The one-time assignment of evaluation items to partitions by hash bucket. */
module EvalGov {
  import opened Strings
  import opened Sorting

  // The weights in the order the loop visits them: the partition names sorted.
  datatype Part = Part(name: string, weight: nat)

  ghost function Sum(parts: seq<Part>): nat {
    if parts == [] then 0 else Sum(parts[..|parts| - 1]) + parts[|parts| - 1].weight
  }

  // The position of the partition a bucket falls in.
  ghost function PartOf(parts: seq<Part>, bucket: nat): (i: nat)
    requires bucket < Sum(parts)
    ensures i < |parts| && Sum(parts[..i]) <= bucket < Sum(parts[..i]) + parts[i].weight
  {
    var init := parts[..|parts| - 1];
    if bucket < Sum(init) then
      var i := PartOf(init, bucket);
      assert init[..i] == parts[..i];
      i
    else |parts| - 1
  }

  lemma SumSnoc(parts: seq<Part>, p: Part)
    ensures Sum([]) == 0 && Sum(parts + [p]) == Sum(parts) + p.weight
  {
    assert (parts + [p])[..|parts|] == parts;
  }

  // The accumulating loop always finds the partition; the source's fallback return after it
  // is never reached.
  method AssignBucket(parts: seq<Part>, bucket: nat) returns (i: nat)
    requires bucket < Sum(parts)
    ensures i == PartOf(parts, bucket)
  {
    var acc := 0;
    i := 0;
    assert parts[..|parts|] == parts;
    while i < |parts|
      invariant i <= |parts| && acc == Sum(parts[..i]) && acc <= bucket
    {
      assert parts[..i + 1][..i] == parts[..i];
      acc := acc + parts[i].weight;
      if bucket < acc {
        OnlyPart(parts, bucket, i, PartOf(parts, bucket));
        return;
      }
      i := i + 1;
    }
    assert false;
  }

  // Partitions do not overlap: a bucket lies within the bounds of one only.
  lemma OnlyPart(parts: seq<Part>, bucket: nat, i: nat, j: nat)
    requires i < |parts| && j < |parts|
    requires Sum(parts[..i]) <= bucket < Sum(parts[..i]) + parts[i].weight
    requires Sum(parts[..j]) <= bucket < Sum(parts[..j]) + parts[j].weight
    ensures i == j
  {
    assert parts[..i + 1][..i] == parts[..i] && parts[..j + 1][..j] == parts[..j];
    if i < j {
      SumMonotone(parts, i + 1, j);
    } else if j < i {
      SumMonotone(parts, j + 1, i);
    }
  }

  lemma {:induction false} SumMonotone(parts: seq<Part>, i: nat, j: nat)
    requires i <= j <= |parts|
    ensures Sum(parts[..i]) <= Sum(parts[..j])
    decreases j
  {
    if i < j {
      SumMonotone(parts, i, j - 1);
      assert parts[..j][..j - 1] == parts[..j - 1];
    }
  }

  ghost function BucketsOf(parts: seq<Part>, i: nat): set<nat>
    requires i < |parts|
  {
    set b: nat | b < Sum(parts) && PartOf(parts, b) == i
  }

  ghost function Interval(lo: nat, n: nat): (s: set<nat>)
    ensures |s| == n && forall b: nat :: b in s <==> lo <= b < lo + n
  {
    if n == 0 then {} else Interval(lo, n - 1) + {lo + n - 1}
  }

  // Over all bucket values, each partition gets exactly its weight.
  lemma EachPartGetsItsWeight(parts: seq<Part>, i: nat)
    requires i < |parts|
    ensures |BucketsOf(parts, i)| == parts[i].weight
  {
    var lo := Sum(parts[..i]);
    SumMonotone(parts, i + 1, |parts|);
    assert parts[..|parts|] == parts;
    assert parts[..i + 1][..i] == parts[..i];
    forall b: nat ensures b in BucketsOf(parts, i) <==> lo <= b < lo + parts[i].weight {
      if lo <= b < lo + parts[i].weight {
        OnlyPart(parts, b, i, PartOf(parts, b));
      }
    }
    assert BucketsOf(parts, i) == Interval(lo, parts[i].weight);
  }

  // ------------------------------------------------------------------ the assignment

  ghost function Names(parts: seq<Part>): seq<string> {
    seq(|parts|, i requires 0 <= i < |parts| => parts[i].name)
  }

  predicate ByName(p: Part, q: Part) {
    LexLeq(p.name, q.name)
  }

  ghost predicate DistinctNames(parts: seq<Part>) {
    forall i, j | 0 <= i < j < |parts| :: parts[i].name != parts[j].name
  }

  // The partition of an item.  `hash` is the integer value of SHA-256.
  method AssignPartition(weights: seq<Part>, salt: string, itemKey: string, hash: string -> nat)
    returns (name: string)
    requires DistinctNames(weights) && exists p :: p in weights && p.weight > 0
    ensures var parts := StableSort(ByName, weights);
      && Sum(parts) > 0
      && name == parts[PartOf(parts, hash(salt + "\n" + itemKey) % Sum(parts))].name
      && multiset(parts) == multiset(weights)
      && forall i, j | 0 <= i < j < |parts| :: LexLeq(parts[i].name, parts[j].name)
  {
    ByNameIsPreorder();
    SortSorts(ByName, weights);
    var parts := StableSort(ByName, weights);
    ghost var p :| p in weights && p.weight > 0;
    SomeWeight(weights, p);
    var total := 0;
    for i := 0 to |parts|
      invariant total == Sum(parts[..i])
    {
      assert parts[..i + 1][..i] == parts[..i];
      total := total + parts[i].weight;
    }
    assert parts[..|parts|] == parts;
    var i := AssignBucket(parts, hash(salt + "\n" + itemKey) % total);
    return parts[i].name;
  }

  lemma SomeWeight(weights: seq<Part>, p: Part)
    requires p in weights && p.weight > 0
    ensures Sum(StableSort(ByName, weights)) > 0
  {
    ByNameIsPreorder();
    SortSorts(ByName, weights);
    assert p in multiset(weights);
    assert p in multiset(StableSort(ByName, weights));
    SumPositive(StableSort(ByName, weights), p);
  }

  lemma {:induction false} SumPositive(parts: seq<Part>, p: Part)
    requires p in parts
    ensures Sum(parts) >= p.weight
  {
    var init, last := parts[..|parts| - 1], parts[|parts| - 1];
    assert parts == init + [last];
    if p in init {
      SumPositive(init, p);
    }
  }

  // Listing the same weights in another order leads to the same sorted list, hence to the same
  // partition for every item.
  lemma AssignmentIgnoresListingOrder(a: seq<Part>, b: seq<Part>)
    requires DistinctNames(a) && multiset(a) == multiset(b)
    ensures StableSort(ByName, a) == StableSort(ByName, b)
  {
    ByNameIsPreorder();
    SortSorts(ByName, a);
    SortSorts(ByName, b);
    var s := StableSort(ByName, a);
    forall p | p in s ensures p in a {
      assert p in multiset(s);
    }
    SortedUnique(s, StableSort(ByName, b), a);
  }

  lemma ByNameIsPreorder()
    ensures TotalPreorder(ByName)
  {
    forall p: Part, q: Part ensures ByName(p, q) || ByName(q, p) {
      LexTotal(p.name, q.name);
    }
    forall p: Part, q: Part, r: Part | ByName(p, q) && ByName(q, r) ensures ByName(p, r) {
      LexTransitive(p.name, q.name, r.name);
    }
  }

  // In a list with distinct names, parts with one name are one part.
  lemma NameIdentifies(parts: seq<Part>, p: Part, q: Part)
    requires DistinctNames(parts) && p in parts && q in parts && p.name == q.name
    ensures p == q
  {
    var i :| 0 <= i < |parts| && parts[i] == p;
    var j :| 0 <= j < |parts| && parts[j] == q;
    assert i == j;
  }

  lemma {:induction false} SortedUnique(s: seq<Part>, t: seq<Part>, all: seq<Part>)
    requires SortedBy(ByName, s) && SortedBy(ByName, t) && multiset(s) == multiset(t)
    requires DistinctNames(all) && (forall p | p in s :: p in all)
    ensures s == t
  {
    assert |s| == |multiset(s)| == |multiset(t)| == |t|;
    if s != [] {
      SameFirst(s, t, all);
      TailSorted(s);
      TailSorted(t);
      assert forall p | p in s[1..] :: p in s;
      SortedUnique(s[1..], t[1..], all);
      assert s == [s[0]] + s[1..] && t == [t[0]] + t[1..];
    }
  }

  lemma SameFirst(s: seq<Part>, t: seq<Part>, all: seq<Part>)
    requires SortedBy(ByName, s) && SortedBy(ByName, t) && multiset(s) == multiset(t) && s != [] && t != []
    requires DistinctNames(all) && (forall p | p in s :: p in all)
    ensures s[0] == t[0] && multiset(s[1..]) == multiset(t[1..])
  {
    assert s[0] in multiset(t) && t[0] in multiset(s);
    assert s[0] in t && t[0] in s;
    LeastFirst(s, t[0]);
    LeastFirst(t, s[0]);
    LexAntisymmetric(s[0].name, t[0].name);
    NameIdentifies(all, s[0], t[0]);
    assert s == [s[0]] + s[1..] && t == [t[0]] + t[1..];
    assert multiset(s[1..]) == multiset(s) - multiset{s[0]};
    assert multiset(t[1..]) == multiset(t) - multiset{t[0]};
  }

  lemma LeastFirst(s: seq<Part>, p: Part)
    requires SortedBy(ByName, s) && p in s
    ensures ByName(s[0], p)
  {
    LexTotal(p.name, p.name);
    var i :| 0 <= i < |s| && s[i] == p;
    assert i > 0 ==> ByName(s[0], s[i]);
  }

  lemma TailSorted(s: seq<Part>)
    requires SortedBy(ByName, s) && s != []
    ensures SortedBy(ByName, s[1..])
  {
    forall i, j | 0 <= i < j < |s[1..]| ensures ByName(s[1..][i], s[1..][j]) {
      assert ByName(s[i + 1], s[j + 1]);
    }
  }
}
