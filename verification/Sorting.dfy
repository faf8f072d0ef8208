/** The stable sort behind the source's `sorted`, with its three characteristic facts. */
module Sorting {

  ghost predicate TotalPreorder<T(!new)>(leq: (T, T) -> bool) {
    && (forall x, y :: leq(x, y) || leq(y, x))
    && (forall x, y, z :: leq(x, y) && leq(y, z) ==> leq(x, z))
  }

  ghost predicate SortedBy<T(!new)>(leq: (T, T) -> bool, s: seq<T>) {
    forall i, j | 0 <= i < j < |s| :: leq(s[i], s[j])
  }

  // Puts x in front of the first element it does not exceed.
  function Insert<T>(leq: (T, T) -> bool, x: T, s: seq<T>): seq<T> {
    if s == [] || leq(x, s[0]) then [x] + s else [s[0]] + Insert(leq, x, s[1..])
  }

  function StableSort<T>(leq: (T, T) -> bool, s: seq<T>): seq<T> {
    if s == [] then [] else Insert(leq, s[0], StableSort(leq, s[1..]))
  }

  // The elements of s ranked equal to x, in their order in s.
  ghost function Ties<T>(leq: (T, T) -> bool, x: T, s: seq<T>): seq<T> {
    if s == [] then []
    else (if leq(x, s[0]) && leq(s[0], x) then [s[0]] else []) + Ties(leq, x, s[1..])
  }

  lemma {:induction false} InsertSorted<T(!new)>(leq: (T, T) -> bool, x: T, s: seq<T>)
    requires TotalPreorder(leq) && SortedBy(leq, s)
    ensures SortedBy(leq, Insert(leq, x, s))
    ensures multiset(Insert(leq, x, s)) == multiset(s) + multiset{x}
  {
    if s == [] || leq(x, s[0]) {
      ConsSorted(leq, x, s);
    } else {
      InsertSorted(leq, x, s[1..]);
      var r := Insert(leq, x, s[1..]);
      assert s == [s[0]] + s[1..];
      forall y | y in r ensures leq(s[0], y) {
        assert y in multiset(r);
        if y != x {
          var i :| 0 <= i < |s[1..]| && s[1..][i] == y;
          assert s[i + 1] == y;
        }
      }
      AllAfterSorted(leq, s[0], r);
    }
  }

  lemma ConsSorted<T(!new)>(leq: (T, T) -> bool, x: T, s: seq<T>)
    requires TotalPreorder(leq) && SortedBy(leq, s) && (s == [] || leq(x, s[0]))
    ensures SortedBy(leq, [x] + s)
  {
    forall y | y in s ensures leq(x, y) {
      var i :| 0 <= i < |s| && s[i] == y;
      assert i > 0 ==> leq(s[0], s[i]);
    }
    AllAfterSorted(leq, x, s);
  }

  lemma AllAfterSorted<T(!new)>(leq: (T, T) -> bool, x: T, s: seq<T>)
    requires SortedBy(leq, s) && forall y | y in s :: leq(x, y)
    ensures SortedBy(leq, [x] + s)
  {
    var r := [x] + s;
    forall i, j | 0 <= i < j < |r| ensures leq(r[i], r[j]) {
      assert r[j] == s[j - 1] && (i > 0 ==> r[i] == s[i - 1]);
    }
  }

  // The result is in order and is a permutation of the input.
  lemma {:induction false} SortSorts<T(!new)>(leq: (T, T) -> bool, s: seq<T>)
    requires TotalPreorder(leq)
    ensures SortedBy(leq, StableSort(leq, s))
    ensures multiset(StableSort(leq, s)) == multiset(s)
    ensures |StableSort(leq, s)| == |s|
  {
    if s != [] {
      SortSorts(leq, s[1..]);
      InsertSorted(leq, s[0], StableSort(leq, s[1..]));
      assert s == [s[0]] + s[1..];
    }
    assert |multiset(StableSort(leq, s))| == |multiset(s)|;
  }

  lemma {:induction false} InsertTies<T(!new)>(leq: (T, T) -> bool, e: T, x: T, s: seq<T>)
    requires TotalPreorder(leq)
    ensures Ties(leq, e, Insert(leq, x, s)) == Ties(leq, e, [x]) + Ties(leq, e, s)
  {
    if s == [] {
    } else if leq(x, s[0]) {
      assert ([x] + s)[1..] == s;
    } else {
      InsertTies(leq, e, x, s[1..]);
      var y, r := s[0], Insert(leq, x, s[1..]);
      assert leq(x, e) && leq(e, y) ==> leq(x, y);
      TiesCons(leq, e, y, r);
      TiesCons(leq, e, x, []);
      assert Ties(leq, e, [x]) == [] || !(leq(e, y) && leq(y, e));
    }
  }

  lemma TiesCons<T>(leq: (T, T) -> bool, e: T, y: T, s: seq<T>)
    ensures Ties(leq, e, [y] + s) == (if leq(e, y) && leq(y, e) then [y] else []) + Ties(leq, e, s)
  {
    assert ([y] + s)[1..] == s;
  }

  // Equally ranked elements keep their relative order.
  lemma {:induction false} SortIsStable<T(!new)>(leq: (T, T) -> bool, e: T, s: seq<T>)
    requires TotalPreorder(leq)
    ensures Ties(leq, e, StableSort(leq, s)) == Ties(leq, e, s)
  {
    if s != [] {
      SortIsStable(leq, e, s[1..]);
      InsertTies(leq, e, s[0], StableSort(leq, s[1..]));
    }
  }

  lemma {:induction false} InsertIntoFront<T(!new)>(leq: (T, T) -> bool, x: T, s: seq<T>, t: seq<T>)
    requires forall b | b in t :: leq(x, b)
    ensures Insert(leq, x, s + t) == Insert(leq, x, s) + t
  {
    if s == [] {
      assert s + t == t;
    } else {
      assert (s + t)[1..] == s[1..] + t;
      if leq(x, s[0]) {
        assert [x] + (s + t) == [x] + s + t;
      } else {
        InsertIntoFront(leq, x, s[1..], t);
      }
    }
  }

  lemma {:induction false} InsertPastFront<T(!new)>(leq: (T, T) -> bool, x: T, s: seq<T>, t: seq<T>)
    requires forall a | a in s :: !leq(x, a)
    ensures Insert(leq, x, s + t) == s + Insert(leq, x, t)
  {
    if s == [] {
      assert s + t == t;
    } else {
      assert (s + t)[1..] == s[1..] + t && (s + t)[0] == s[0];
      InsertPastFront(leq, x, s[1..], t);
      assert s == [s[0]] + s[1..];
    }
  }

  // The elements of s that are marked as wanted.
  ghost function Chosen<T>(s: seq<T>, marks: seq<bool>, wanted: bool): seq<T>
    requires |s| == |marks|
  {
    if s == [] then [] else (if marks[0] == wanted then [s[0]] else []) + Chosen(s[1..], marks[1..], wanted)
  }

  lemma {:induction false} ChosenConcat<T>(s: seq<T>, m: seq<bool>, t: seq<T>, n: seq<bool>, wanted: bool)
    requires |s| == |m| && |t| == |n|
    ensures Chosen(s + t, m + n, wanted) == Chosen(s, m, wanted) + Chosen(t, n, wanted)
  {
    if s == [] {
      assert s + t == t && m + n == n;
    } else {
      ChosenConcat(s[1..], m[1..], t, n, wanted);
      var u, o, head := s + t, m + n, if m[0] == wanted then [s[0]] else [];
      assert u[0] == s[0] && o[0] == m[0] && u[1..] == s[1..] + t && o[1..] == m[1..] + n;
      assert Chosen(u, o, wanted) == head + (Chosen(s[1..], m[1..], wanted) + Chosen(t, n, wanted));
    }
  }

  lemma {:induction false} ChosenAll<T>(s: seq<T>, marks: seq<bool>, wanted: bool)
    requires |s| == |marks| && forall i | 0 <= i < |marks| :: marks[i] == wanted
    ensures Chosen(s, marks, wanted) == s && Chosen(s, marks, !wanted) == []
  {
    if s != [] {
      ChosenAll(s[1..], marks[1..], wanted);
    }
  }

  lemma {:induction false} ChosenFrom<T>(s: seq<T>, marks: seq<bool>, wanted: bool, x: T)
    requires |s| == |marks| && x in Chosen(s, marks, wanted)
    ensures exists i :: 0 <= i < |s| && marks[i] == wanted && s[i] == x
  {
    if x != s[0] || marks[0] != wanted {
      ChosenFrom(s[1..], marks[1..], wanted, x);
      var i :| 0 <= i < |s[1..]| && marks[1..][i] == wanted && s[1..][i] == x;
      assert s[i + 1] == x;
    }
  }

  // Every marked element ranks before every other: it is no greater, and smaller where it
  // stands behind.
  ghost predicate MarkedLead<T(!new)>(leq: (T, T) -> bool, s: seq<T>, marks: seq<bool>)
    requires |s| == |marks|
  {
    forall i, j | 0 <= i < |s| && 0 <= j < |s| && marks[i] && !marks[j] ::
      if i < j then leq(s[i], s[j]) else !leq(s[j], s[i])
  }

  // The marked elements then come first in the sorted order, as if the others were not there;
  // and likewise the others after them.
  lemma {:induction false} SortSplits<T(!new)>(leq: (T, T) -> bool, s: seq<T>, marks: seq<bool>)
    requires TotalPreorder(leq) && |s| == |marks| && MarkedLead(leq, s, marks)
    ensures StableSort(leq, s) == StableSort(leq, Chosen(s, marks, true)) + StableSort(leq, Chosen(s, marks, false))
  {
    if s != [] {
      var rest, m := s[1..], marks[1..];
      MarkedLeadTail(leq, s, marks);
      SortSplits(leq, rest, m);
      var front, back := Chosen(rest, m, true), Chosen(rest, m, false);
      HeadAgainst(leq, s, marks);
      if marks[0] {
        InsertIntoFront(leq, s[0], StableSort(leq, front), StableSort(leq, back));
        assert ([s[0]] + front)[1..] == front;
        assert [] + back == back;
      } else {
        InsertPastFront(leq, s[0], StableSort(leq, front), StableSort(leq, back));
        assert ([s[0]] + back)[1..] == back;
        assert [] + front == front;
      }
    }
  }

  lemma MarkedLeadTail<T(!new)>(leq: (T, T) -> bool, s: seq<T>, marks: seq<bool>)
    requires |s| == |marks| && MarkedLead(leq, s, marks) && s != []
    ensures MarkedLead(leq, s[1..], marks[1..])
  {
    forall i, j | 0 <= i < |s[1..]| && 0 <= j < |s[1..]| && marks[1..][i] && !marks[1..][j]
      ensures if i < j then leq(s[1..][i], s[1..][j]) else !leq(s[1..][j], s[1..][i])
    {
      assert marks[i + 1] && !marks[j + 1];
    }
  }

  // How the first element ranks against the sorted elements of the other mark.
  lemma HeadAgainst<T(!new)>(leq: (T, T) -> bool, s: seq<T>, marks: seq<bool>)
    requires TotalPreorder(leq) && |s| == |marks| && MarkedLead(leq, s, marks) && s != []
    ensures marks[0] ==> forall b | b in StableSort(leq, Chosen(s[1..], marks[1..], false)) :: leq(s[0], b)
    ensures !marks[0] ==> forall a | a in StableSort(leq, Chosen(s[1..], marks[1..], true)) :: !leq(s[0], a)
  {
    var others := Chosen(s[1..], marks[1..], !marks[0]);
    SortSorts(leq, others);
    forall b | b in StableSort(leq, others) ensures if marks[0] then leq(s[0], b) else !leq(s[0], b) {
      assert b in multiset(StableSort(leq, others));
      assert b in others;
      ChosenFrom(s[1..], marks[1..], !marks[0], b);
      var i :| 0 <= i < |s[1..]| && marks[1..][i] == !marks[0] && s[1..][i] == b;
      assert s[i + 1] == b && marks[i + 1] == !marks[0];
    }
  }
}
