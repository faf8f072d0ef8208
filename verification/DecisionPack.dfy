/** The weekly decision pack: a greedy selection in priority order under four caps, and the
    single-use view links. */
module DecisionPack {
  import opened Wrappers
  import opened Sorting

  datatype Item = Item(
    priority: string,
    ageSeconds: int,
    value: int,
    minutes: int,
    isComplex: bool,
    isRecord: bool,
    question: string)

  function Rank(priority: string): int {
    if priority == "P0" then 0 else if priority == "P1" then 1 else if priority == "P2" then 2 else 3
  }

  // a may stand before b: more urgent first, then older, then more valuable.
  predicate Before(a: Item, b: Item) {
    var p, q := Rank(a.priority), Rank(b.priority);
    p < q || (p == q && (a.ageSeconds > b.ageSeconds
                         || (a.ageSeconds == b.ageSeconds && a.value >= b.value)))
  }

  lemma BeforeIsPreorder()
    ensures TotalPreorder(Before)
  {
  }

  // The order, in the items' own fields.
  lemma BeforeExactly(a: Item, b: Item)
    ensures Before(a, b) <==>
      && (b.priority == "P0" ==> a.priority == "P0")
      && (b.priority == "P1" ==> a.priority in {"P0", "P1"})
      && (b.priority == "P2" ==> a.priority in {"P0", "P1", "P2"})
      && (a.priority == b.priority || (a.priority !in {"P0", "P1", "P2"} && b.priority !in {"P0", "P1", "P2"})
          ==> a.ageSeconds > b.ageSeconds || (a.ageSeconds == b.ageSeconds && a.value >= b.value))
  {
  }

  function Ordered(items: seq<Item>): seq<Item> {
    StableSort(Before, items)
  }

  // What a pack holds of each capped quantity.
  datatype Load = Load(cards: int, minutes: int, complexes: int, records: int)

  const EMPTY := Load(0, 0, 0, 0)

  function Add(l: Load, it: Item): Load {
    Load(l.cards + 1, l.minutes + it.minutes, l.complexes + (if it.isComplex then 1 else 0),
         l.records + (if it.isRecord then 1 else 0))
  }

  predicate WithinCaps(l: Load) {
    l.minutes <= 240 && l.cards <= 25 && l.records <= 12 && l.complexes <= 3
  }

  // ------------------------------------------------------------------ selections

  // A selection says, for each item of the priority order, whether it is in the pack.
  type Selection = seq<bool>

  ghost function Total(l: Load, items: seq<Item>, sel: Selection): Load
    requires |items| == |sel|
    decreases |items|
  {
    if items == [] then l else Total(if sel[0] then Add(l, items[0]) else l, items[1..], sel[1..])
  }

  ghost function Greedy(l: Load, items: seq<Item>): (sel: Selection)
    ensures |sel| == |items|
    decreases |items|
  {
    if items == [] then []
    else
      var take := WithinCaps(Add(l, items[0]));
      [take] + Greedy(if take then Add(l, items[0]) else l, items[1..])
  }

  // a is b, or a takes the item at the first place where they differ.
  ghost predicate AtLeast(a: Selection, b: Selection)
    requires |a| == |b|
  {
    a == [] || (a[0] && !b[0]) || (a[0] == b[0] && AtLeast(a[1..], b[1..]))
  }

  // Every beginning of the selection stays within the caps.
  ghost predicate AlwaysWithin(l: Load, items: seq<Item>, sel: Selection)
    requires |items| == |sel|
    decreases |items|
  {
    WithinCaps(l) && (items == [] || AlwaysWithin(if sel[0] then Add(l, items[0]) else l, items[1..], sel[1..]))
  }

  // ------------------------------------------------------------------ the selection loop

  // After i items the loop holds what the greedy selection makes of them.
  ghost predicate SelectedSoFar(ordered: seq<Item>, i: nat, l: Load, included: seq<Item>, excess: seq<Item>)
    requires i <= |ordered|
  {
    var all, rest := Greedy(EMPTY, ordered), Greedy(l, ordered[i..]);
    && WithinCaps(l)
    && included + Chosen(ordered[i..], rest, true) == Chosen(ordered, all, true)
    && excess + Chosen(ordered[i..], rest, false) == Chosen(ordered, all, false)
    && Total(l, ordered[i..], rest) == Total(EMPTY, ordered, all)
  }

  lemma SelectNext(ordered: seq<Item>, i: nat, l: Load, included: seq<Item>, excess: seq<Item>)
    requires i < |ordered| && SelectedSoFar(ordered, i, l, included, excess)
    ensures if WithinCaps(Add(l, ordered[i]))
      then SelectedSoFar(ordered, i + 1, Add(l, ordered[i]), included + [ordered[i]], excess)
      else SelectedSoFar(ordered, i + 1, l, included, excess + [ordered[i]])
  {
    assert ordered[i..][1..] == ordered[i + 1..];
    var take := WithinCaps(Add(l, ordered[i]));
    var next := if take then Add(l, ordered[i]) else l;
    var rest := Greedy(next, ordered[i + 1..]);
    assert Greedy(l, ordered[i..]) == [take] + rest;
    assert ([take] + rest)[1..] == rest;
    assert included + ([ordered[i]] + Chosen(ordered[i + 1..], rest, true))
        == included + [ordered[i]] + Chosen(ordered[i + 1..], rest, true);
    assert excess + ([ordered[i]] + Chosen(ordered[i + 1..], rest, false))
        == excess + [ordered[i]] + Chosen(ordered[i + 1..], rest, false);
  }

  // What a list of items takes of each capped quantity.
  ghost function Minutes(items: seq<Item>): int {
    if items == [] then 0 else items[0].minutes + Minutes(items[1..])
  }

  ghost function Complexes(items: seq<Item>): int {
    if items == [] then 0 else (if items[0].isComplex then 1 else 0) + Complexes(items[1..])
  }

  ghost function Records(items: seq<Item>): int {
    if items == [] then 0 else (if items[0].isRecord then 1 else 0) + Records(items[1..])
  }

  lemma {:induction false} TotalMeaning(l: Load, items: seq<Item>, sel: Selection)
    requires |items| == |sel|
    ensures var picked := Chosen(items, sel, true);
      Total(l, items, sel)
      == Load(l.cards + |picked|, l.minutes + Minutes(picked), l.complexes + Complexes(picked),
              l.records + Records(picked))
    decreases |items|
  {
    if items != [] {
      TotalMeaning(if sel[0] then Add(l, items[0]) else l, items[1..], sel[1..]);
      var rest := Chosen(items[1..], sel[1..], true);
      assert ([items[0]] + rest)[1..] == rest;
      assert [] + rest == rest;
    }
  }

  // The greedy selection up to any place is that of the items up to it.
  lemma {:induction false} GreedyAt(l: Load, items: seq<Item>, k: nat)
    requires k < |items|
    ensures var sel := Greedy(l, items);
      && sel[..k] == Greedy(l, items[..k])
      && (sel[k] <==> WithinCaps(Add(Total(l, items[..k], sel[..k]), items[k])))
    decreases |items|
  {
    var sel := Greedy(l, items);
    if k > 0 {
      var next := if sel[0] then Add(l, items[0]) else l;
      GreedyAt(next, items[1..], k - 1);
      assert items[..k][1..] == items[1..][..k - 1] && sel[..k][1..] == sel[1..][..k - 1];
      assert sel[1..] == Greedy(next, items[1..]);
      assert sel[..k] == [sel[0]] + sel[1..][..k - 1];
    } else {
      assert items[..0] == [] && sel[..0] == [];
    }
  }

  lemma {:induction false} GreedyWithin(l: Load, items: seq<Item>)
    requires WithinCaps(l)
    ensures WithinCaps(Total(l, items, Greedy(l, items)))
    decreases |items|
  {
    if items != [] {
      var sel := Greedy(l, items);
      assert sel[1..] == Greedy(if sel[0] then Add(l, items[0]) else l, items[1..]);
      GreedyWithin(if sel[0] then Add(l, items[0]) else l, items[1..]);
    }
  }

  // Whether an item is picked: exactly when it fits what has been picked before it, under
  // twenty-five cards, 240 minutes, three complex ones and twelve records.
  lemma PickedExactly(items: seq<Item>, k: nat)
    requires k < |items|
    ensures var sel := Greedy(EMPTY, items);
      var it, before := items[k], Chosen(items[..k], sel[..k], true);
      sel[k] <==>
        && |before| + 1 <= 25 && Minutes(before) + it.minutes <= 240
        && (it.isComplex ==> Complexes(before) + 1 <= 3) && (it.isRecord ==> Records(before) + 1 <= 12)
  {
    var sel := Greedy(EMPTY, items);
    GreedyAt(EMPTY, items, k);
    TotalMeaning(EMPTY, items[..k], sel[..k]);
    GreedyWithin(EMPTY, items[..k]);
  }

  // The whole pack keeps to the caps, whatever the estimates.
  lemma PackKeepsCaps(items: seq<Item>)
    ensures var pack := Chosen(items, Greedy(EMPTY, items), true);
      && |pack| <= 25 && Minutes(pack) <= 240 && Complexes(pack) <= 3 && Records(pack) <= 12
      && Total(EMPTY, items, Greedy(EMPTY, items)).minutes == Minutes(pack)
  {
    GreedyWithin(EMPTY, items);
    TotalMeaning(EMPTY, items, Greedy(EMPTY, items));
  }

  method BuildPack(items: seq<Item>) returns (included: seq<Item>, excess: seq<Item>, minutes: int, throttle: bool)
    ensures var ordered := Ordered(items);
      var sel := Greedy(EMPTY, ordered);
      && included == Chosen(ordered, sel, true) && excess == Chosen(ordered, sel, false)
      && minutes == Total(EMPTY, ordered, sel).minutes
    ensures throttle <==> excess != []
    ensures |included| <= 25 && Complexes(included) <= 3 && Records(included) <= 12
    ensures minutes == Minutes(included) <= 240
  {
    PackKeepsCaps(Ordered(items));
    var ordered := Ordered(items);
    included, excess, minutes := [], [], 0;
    var cards, complexes, records := 0, 0, 0;
    assert ordered[0..] == ordered;
    for i := 0 to |ordered|
      invariant SelectedSoFar(ordered, i, Load(cards, minutes, complexes, records), included, excess)
    {
      var it := ordered[i];
      SelectNext(ordered, i, Load(cards, minutes, complexes, records), included, excess);
      if cards + 1 > 25 || minutes + it.minutes > 240
         || (it.isComplex && complexes + 1 > 3) || (it.isRecord && records + 1 > 12) {
        excess := excess + [it];
        continue;
      }
      included := included + [it];
      cards := cards + 1;
      minutes := minutes + it.minutes;
      complexes := complexes + if it.isComplex then 1 else 0;
      records := records + if it.isRecord then 1 else 0;
    }
    throttle := excess != [];
  }

  // ------------------------------------------------------------------ what is selected

  // No selection that stays within the caps from the most urgent item on beats the greedy
  // one: at the first difference the greedy one has the item.
  lemma {:induction false} GreedyIsGreatest(l: Load, items: seq<Item>, sel: Selection)
    requires |sel| == |items| && AlwaysWithin(l, items, sel)
    ensures AtLeast(Greedy(l, items), sel)
    ensures AlwaysWithin(l, items, Greedy(l, items))
    decreases |items|
  {
    if items != [] {
      var g := Greedy(l, items);
      var next := if g[0] then Add(l, items[0]) else l;
      assert g[1..] == Greedy(next, items[1..]);
      if g[0] == sel[0] {
        GreedyIsGreatest(next, items[1..], sel[1..]);
      } else {
        NothingWithin(next, items[1..]);
        GreedyIsGreatest(next, items[1..], Nothing(|items| - 1));
      }
    }
  }

  ghost function Nothing(n: nat): (sel: Selection)
    ensures |sel| == n
  {
    seq(n, _ => false)
  }

  lemma {:induction false} NothingWithin(l: Load, items: seq<Item>)
    requires WithinCaps(l)
    ensures AlwaysWithin(l, items, Nothing(|items|))
  {
    if items != [] {
      assert Nothing(|items|)[1..] == Nothing(|items| - 1);
      NothingWithin(l, items[1..]);
    }
  }

  ghost predicate Under(a: Load, b: Load) {
    a.cards <= b.cards && a.minutes <= b.minutes && a.complexes <= b.complexes && a.records <= b.records
  }

  ghost predicate NoNegativeMinutes(items: seq<Item>) {
    forall it | it in items :: it.minutes >= 0
  }

  lemma {:induction false} TotalGrows(l: Load, items: seq<Item>, sel: Selection)
    requires |sel| == |items| && NoNegativeMinutes(items)
    ensures Under(l, Total(l, items, sel))
    decreases |items|
  {
    if items != [] {
      assert items[0] in items;
      TotalGrows(if sel[0] then Add(l, items[0]) else l, items[1..], sel[1..]);
    }
  }

  // Without negative estimates a selection that meets the caps meets them all along.
  lemma {:induction false} MeetsCapsAllAlong(l: Load, items: seq<Item>, sel: Selection)
    requires |sel| == |items| && NoNegativeMinutes(items)
    ensures WithinCaps(Total(l, items, sel)) <==> AlwaysWithin(l, items, sel)
    decreases |items|
  {
    TotalGrows(l, items, sel);
    if items != [] {
      MeetsCapsAllAlong(if sel[0] then Add(l, items[0]) else l, items[1..], sel[1..]);
    }
  }

  // The selections of the priority order that meet the four caps.
  ghost predicate Meets(items: seq<Item>, sel: Selection) {
    |sel| == |Ordered(items)| && WithinCaps(Total(EMPTY, Ordered(items), sel))
  }

  // The pack meets the four caps, and among all selections that do it is the lexicographically
  // greatest in the priority order: it, and no other, is at least as great as every one.
  lemma PackIsGreatest(items: seq<Item>, sel: Selection)
    requires NoNegativeMinutes(items) && |sel| == |Ordered(items)|
    ensures Meets(items, sel) && (forall other | Meets(items, other) :: AtLeast(sel, other))
            <==> sel == Greedy(EMPTY, Ordered(items))
  {
    var pack := Greedy(EMPTY, Ordered(items));
    PackMeetsCaps(items);
    forall other | Meets(items, other) ensures AtLeast(pack, other) {
      PackBeats(items, other);
    }
    if Meets(items, sel) && AtLeast(sel, pack) {
      PackBeats(items, sel);
      GreatestIsUnique(sel, pack);
    }
  }

  lemma OrderedMinutes(items: seq<Item>)
    requires NoNegativeMinutes(items)
    ensures NoNegativeMinutes(Ordered(items))
  {
    SortedItems(items);
    forall it | it in Ordered(items) ensures it.minutes >= 0 {
      assert it in multiset(Ordered(items));
      assert it in multiset(items);
    }
  }

  lemma PackMeetsCaps(items: seq<Item>)
    requires NoNegativeMinutes(items)
    ensures Meets(items, Greedy(EMPTY, Ordered(items)))
  {
    var ordered := Ordered(items);
    OrderedMinutes(items);
    NothingWithin(EMPTY, ordered);
    GreedyIsGreatest(EMPTY, ordered, Nothing(|ordered|));
    MeetsCapsAllAlong(EMPTY, ordered, Greedy(EMPTY, ordered));
  }

  lemma PackBeats(items: seq<Item>, sel: Selection)
    requires NoNegativeMinutes(items) && Meets(items, sel)
    ensures AtLeast(Greedy(EMPTY, Ordered(items)), sel)
  {
    OrderedMinutes(items);
    MeetsCapsAllAlong(EMPTY, Ordered(items), sel);
    GreedyIsGreatest(EMPTY, Ordered(items), sel);
  }

  lemma {:induction false} GreatestIsUnique(a: Selection, b: Selection)
    requires |a| == |b| && AtLeast(a, b) && AtLeast(b, a)
    ensures a == b
  {
    if a != [] {
      GreatestIsUnique(a[1..], b[1..]);
      assert a == [a[0]] + a[1..] && b == [b[0]] + b[1..];
    }
  }

  lemma SortedItems(items: seq<Item>)
    ensures SortedBy(Before, Ordered(items)) && multiset(Ordered(items)) == multiset(items)
    ensures forall e :: Ties(Before, e, Ordered(items)) == Ties(Before, e, items)
  {
    BeforeIsPreorder();
    SortSorts(Before, items);
    forall e ensures Ties(Before, e, Ordered(items)) == Ties(Before, e, items) {
      SortIsStable(Before, e, items);
    }
  }

  lemma {:induction false} ChosenPartition(items: seq<Item>, sel: Selection)
    requires |sel| == |items|
    ensures multiset(Chosen(items, sel, true)) + multiset(Chosen(items, sel, false)) == multiset(items)
  {
    if items != [] {
      ChosenPartition(items[1..], sel[1..]);
      assert items == [items[0]] + items[1..];
    }
  }

  // Included and queued items together are exactly the items given, repetitions counted.
  lemma NothingLostOrAdded(items: seq<Item>)
    ensures var ordered := Ordered(items);
      var sel := Greedy(EMPTY, ordered);
      multiset(Chosen(ordered, sel, true)) + multiset(Chosen(ordered, sel, false)) == multiset(items)
  {
    SortedItems(items);
    ChosenPartition(Ordered(items), Greedy(EMPTY, Ordered(items)));
  }

  lemma {:induction false} RejectedNeverFits(l: Load, items: seq<Item>, it: Item)
    requires WithinCaps(l) && NoNegativeMinutes(items)
    requires it in Chosen(items, Greedy(l, items), false)
    ensures !WithinCaps(Add(Total(l, items, Greedy(l, items)), it))
    decreases |items|
  {
    var g := Greedy(l, items);
    var next := if g[0] then Add(l, items[0]) else l;
    assert g[1..] == Greedy(next, items[1..]);
    if it in Chosen(items[1..], g[1..], false) {
      RejectedNeverFits(next, items[1..], it);
    } else {
      TotalGrows(next, items[1..], g[1..]);
    }
  }

  // No queued item would still fit the finished pack.
  lemma QueuedItemsDoNotFit(items: seq<Item>, it: Item)
    requires NoNegativeMinutes(items)
    requires it in Chosen(Ordered(items), Greedy(EMPTY, Ordered(items)), false)
    ensures !WithinCaps(Add(Total(EMPTY, Ordered(items), Greedy(EMPTY, Ordered(items))), it))
  {
    OrderedMinutes(items);
    RejectedNeverFits(EMPTY, Ordered(items), it);
  }

  lemma {:induction false} GreedyPrefix(l: Load, a: seq<Item>, b: seq<Item>)
    ensures Greedy(l, a) <= Greedy(l, a + b)
    decreases |a|
  {
    if a == [] {
      assert a + b == b;
    } else {
      assert (a + b)[1..] == a[1..] + b;
      var take := WithinCaps(Add(l, a[0]));
      GreedyPrefix(if take then Add(l, a[0]) else l, a[1..], b);
    }
  }

  // Wherever they stand in the input, the items that rank before all the others are ordered
  // and chosen as if they alone had been given.
  lemma EarlierChoiceStands(items: seq<Item>, marks: seq<bool>)
    requires |items| == |marks| && MarkedLead(Before, items, marks)
    ensures var earlier := Chosen(items, marks, true);
      && Ordered(earlier) <= Ordered(items)
      && Greedy(EMPTY, Ordered(earlier)) <= Greedy(EMPTY, Ordered(items))
  {
    BeforeIsPreorder();
    SortSplits(Before, items, marks);
    GreedyPrefix(EMPTY, Ordered(Chosen(items, marks, true)), Ordered(Chosen(items, marks, false)));
  }

  ghost function Marks(n: nat, value: bool): seq<bool> {
    seq(n, _ => value)
  }

  // Items put anywhere into the input that rank after all those given, in front of them also
  // strictly, neither reorder them nor change which of them are chosen.
  lemma LaterItemsChangeNothing(a: seq<Item>, later: seq<Item>, b: seq<Item>)
    requires forall u, x | u in a && x in later :: Before(u, x)
    requires forall u, x | u in b && x in later :: !Before(x, u)
    ensures Ordered(a + b) <= Ordered(a + later + b)
    ensures Greedy(EMPTY, Ordered(a + b)) <= Greedy(EMPTY, Ordered(a + later + b))
  {
    var ma, mx, mb := Marks(|a|, true), Marks(|later|, false), Marks(|b|, true);
    ChosenAll(a, ma, true);
    ChosenAll(later, mx, false);
    ChosenAll(b, mb, true);
    ChosenConcat(a, ma, later, mx, true);
    ChosenConcat(a + later, ma + mx, b, mb, true);
    assert a + [] == a;
    BeforeIsPreorder();
    EarlierChoiceStands(a + later + b, ma + mx + mb);
  }

  // Which items an item between a and b ranks behind.
  ghost function Ahead(a: seq<Item>, x: Item): seq<bool> {
    seq(|a|, i requires 0 <= i < |a| => Before(a[i], x))
  }

  ghost function StrictlyAhead(b: seq<Item>, x: Item): seq<bool> {
    seq(|b|, i requires 0 <= i < |b| => !Before(x, b[i]))
  }

  lemma AheadLeads(a: seq<Item>, x: Item, b: seq<Item>)
    ensures MarkedLead(Before, a + [x] + b, Ahead(a, x) + [false] + StrictlyAhead(b, x))
  {
    BeforeIsPreorder();
    var s, marks := a + [x] + b, Ahead(a, x) + [false] + StrictlyAhead(b, x);
    forall i | 0 <= i < |s|
      ensures marks[i] <==> if i < |a| then Before(s[i], x) else i > |a| && !Before(x, s[i])
    {
    }
    forall i, j | 0 <= i < |s| && 0 <= j < |s| && marks[i] && !marks[j]
      ensures if i < j then Before(s[i], s[j]) else !Before(s[j], s[i])
    {
    }
  }

  lemma LeadWithout(a: seq<Item>, x: Item, b: seq<Item>, ma: seq<bool>, mb: seq<bool>)
    requires |a| == |ma| && |b| == |mb| && MarkedLead(Before, a + [x] + b, ma + [false] + mb)
    ensures MarkedLead(Before, a + b, ma + mb)
  {
    var s, marks := a + [x] + b, ma + [false] + mb;
    var t, rest := a + b, ma + mb;
    forall i, j | 0 <= i < |t| && 0 <= j < |t| && rest[i] && !rest[j]
      ensures if i < j then Before(t[i], t[j]) else !Before(t[j], t[i])
    {
      var k, l := if i < |a| then i else i + 1, if j < |a| then j else j + 1;
      assert marks[k] == rest[i] && s[k] == t[i] && marks[l] == rest[j] && s[l] == t[j];
    }
  }

  lemma ChosenAround(a: seq<Item>, x: Item, b: seq<Item>, ma: seq<bool>, mb: seq<bool>)
    requires |a| == |ma| && |b| == |mb|
    ensures Chosen(a + [x] + b, ma + [false] + mb, true) == Chosen(a, ma, true) + Chosen(b, mb, true)
  {
    ChosenConcat(a + [x], ma + [false], b, mb, true);
    assert Chosen(a + [x], ma + [false], true) == Chosen(a, ma, true) by {
      ChosenConcat(a, ma, [x], [false], true);
      assert Chosen([x], [false], true) == [];
    }
  }

  // One more item x, anywhere in the input and of any rank: the items that rank before it are
  // ordered and chosen alike with it and without it.
  lemma InsertedItemChangesNothingEarlier(a: seq<Item>, x: Item, b: seq<Item>)
    ensures var earlier := Chosen(a, Ahead(a, x), true) + Chosen(b, StrictlyAhead(b, x), true);
      && Ordered(earlier) <= Ordered(a + b) && Ordered(earlier) <= Ordered(a + [x] + b)
      && Greedy(EMPTY, Ordered(earlier)) <= Greedy(EMPTY, Ordered(a + b))
      && Greedy(EMPTY, Ordered(earlier)) <= Greedy(EMPTY, Ordered(a + [x] + b))
  {
    var ma, mb := Ahead(a, x), StrictlyAhead(b, x);
    AheadLeads(a, x, b);
    LeadWithout(a, x, b, ma, mb);
    ChosenConcat(a, ma, b, mb, true);
    ChosenAround(a, x, b, ma, mb);
    EarlierChoiceStands(a + b, ma + mb);
    EarlierChoiceStands(a + [x] + b, ma + [false] + mb);
  }

  // ------------------------------------------------------------------ view links

  datatype Link = Link(itemId: string, expiresAt: int)

  datatype Links = Links(issued: map<string, Link>, consumed: set<string>)

  datatype LinkCall = Issue(token: string, itemId: string, expiresAt: int) | Consume(token: string, now: int)

  // The token opens the view now: it was issued, has not been used and has not expired.
  predicate Opens(s: Links, token: string, now: int) {
    token in s.issued && token !in s.consumed && now < s.issued[token].expiresAt
  }

  function ApplyLink(s: Links, c: LinkCall): Links {
    match c
    case Issue(token, itemId, expiresAt) => s.(issued := s.issued[token := Link(itemId, expiresAt)])
    case Consume(token, now) => if Opens(s, token, now) then s.(consumed := s.consumed + {token}) else s
  }

  class ViewLinkStore {
    // The token of an item, expiry and salt: "vl_" and a truncated SHA-256.
    const tokenOf: (string, int, string) -> string
    var issued: map<string, Link>
    var consumed: set<string>

    ghost function State(): Links
      reads this
    {
      Links(issued, consumed)
    }

    constructor (tokenOf: (string, int, string) -> string)
      ensures State() == Links(map[], {}) && this.tokenOf == tokenOf
    {
      this.tokenOf := tokenOf;
      issued, consumed := map[], {};
    }

    method IssueLink(itemId: string, expiresAt: int, salt: string) returns (token: string)
      modifies this
      ensures token == tokenOf(itemId, expiresAt, salt)
      ensures State() == ApplyLink(old(State()), Issue(token, itemId, expiresAt))
      ensures issued == old(issued)[token := Link(itemId, expiresAt)] && consumed == old(consumed)
    {
      token := tokenOf(itemId, expiresAt, salt);
      issued := issued[token := Link(itemId, expiresAt)];
    }

    // The item the link shows, or None where the source raises.
    method ConsumeLink(token: string, now: int) returns (itemId: Option<string>)
      modifies this
      ensures State() == ApplyLink(old(State()), Consume(token, now))
      ensures itemId == if Opens(old(State()), token, now) then Some(old(issued)[token].itemId) else None
      ensures issued == old(issued)
      ensures if token in issued && token !in old(consumed) && now < issued[token].expiresAt
              then itemId == Some(issued[token].itemId) && consumed == old(consumed) + {token}
              else itemId == None && consumed == old(consumed)
    {
      if token !in issued || token in consumed {
        return None;
      }
      if now >= issued[token].expiresAt {
        return None;
      }
      consumed := consumed + {token};
      return Some(issued[token].itemId);
    }
  }

  ghost function RunLinks(s: Links, calls: seq<LinkCall>): Links {
    if calls == [] then s else ApplyLink(RunLinks(s, calls[..|calls| - 1]), calls[|calls| - 1])
  }

  // The number of calls of the run that opened the view with the token.
  ghost function Openings(s: Links, calls: seq<LinkCall>, token: string): nat {
    if calls == [] then 0
    else
      var init, c := calls[..|calls| - 1], calls[|calls| - 1];
      Openings(s, init, token)
      + if c.Consume? && c.token == token && Opens(RunLinks(s, init), token, c.now) then 1 else 0
  }

  // Whatever is issued and consumed, even if the token is issued again, a link opens the
  // view at most once, and not at all once it is spent.
  lemma {:induction false} LinksAreSingleUse(s: Links, calls: seq<LinkCall>, token: string)
    ensures Openings(s, calls, token) + (if token in s.consumed then 1 else 0)
            == (if token in RunLinks(s, calls).consumed then 1 else 0)
  {
    if calls != [] {
      LinksAreSingleUse(s, calls[..|calls| - 1], token);
    }
  }
}
