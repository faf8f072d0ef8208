/** The two hash-chained audit ledgers: the audit_events table, whose rows carry their own
    hash, and the file log, whose events carry the hash of the event before them. */
module Audit {
  import opened Wrappers

  const GENESIS := "genesis"

  // A hash as the chains use it: distinct values have distinct hashes, none of which is the
  // genesis mark.  Stated on the values a chain actually hashes.
  ghost predicate Sound<T(!new)>(h: T -> string, values: set<T>) {
    && (forall x, y | x in values && y in values && h(x) == h(y) :: x == y)
    && (forall x | x in values :: h(x) != GENESIS)
  }

  // ------------------------------------------------------------------ the table

  // A JSON object: its keys, each with the canonical text of its value.
  type Json = map<string, string>

  datatype Row = Row(prevHash: string, eventHash: string, payload: Json)

  // {"prev": prev, **payload}: a key "prev" of the payload wins.
  function Merged(prev: string, payload: Json): Json {
    map["prev" := prev] + payload
  }

  function PrevOf(rows: seq<Row>, i: nat): string
    requires i <= |rows|
  {
    if i == 0 then GENESIS else rows[i - 1].eventHash
  }

  // The object hashed for row i.
  function ObjectAt(rows: seq<Row>, i: nat): Json
    requires i < |rows|
  {
    Merged(PrevOf(rows, i), rows[i].payload)
  }

  ghost predicate RowFits(h: Json -> string, rows: seq<Row>, i: nat)
    requires i < |rows|
  {
    rows[i].prevHash == PrevOf(rows, i) && rows[i].eventHash == h(ObjectAt(rows, i))
  }

  // What verification checks.
  ghost predicate ValidRows(h: Json -> string, rows: seq<Row>) {
    forall i | 0 <= i < |rows| :: RowFits(h, rows, i)
  }

  // The objects the chain hashes are among the values.
  ghost predicate HashesOnly(rows: seq<Row>, values: set<Json>) {
    forall i {:trigger ObjectAt(rows, i)} | 0 <= i < |rows| :: ObjectAt(rows, i) in values
  }

  // The payloads append_audit writes: their keys are actor, action, at and detail.
  ghost predicate Plain(rows: seq<Row>) {
    forall i | 0 <= i < |rows| :: "prev" !in rows[i].payload
  }

  function Extended(h: Json -> string, rows: seq<Row>, payload: Json): seq<Row> {
    var prev := PrevOf(rows, |rows|);
    rows + [Row(prev, h(Merged(prev, payload)), payload)]
  }

  class AuditTable {
    const h: Json -> string
    var rows: seq<Row>

    constructor (h: Json -> string)
      ensures rows == [] && this.h == h
    {
      this.h := h;
      rows := [];
    }

    // Every append extends a chain that verifies to one that verifies.
    method AppendAudit(actor: string, action: string, at: string, detail: string) returns (eventHash: string)
      modifies this
      ensures rows == Extended(h, old(rows), map["actor" := actor, "action" := action, "at" := at, "detail" := detail])
      ensures eventHash == PrevOf(rows, |rows|)
      ensures var prev := if old(rows) == [] then "genesis" else old(rows)[|old(rows)| - 1].eventHash;
        && eventHash == h(map["prev" := prev, "actor" := actor, "action" := action, "at" := at, "detail" := detail])
        && rows == old(rows) + [Row(prev, eventHash,
                                    map["actor" := actor, "action" := action, "at" := at, "detail" := detail])]
      ensures ValidRows(h, old(rows)) <==> ValidRows(h, rows)
      ensures Plain(old(rows)) <==> Plain(rows)
    {
      var prev := if rows == [] then GENESIS else rows[|rows| - 1].eventHash;
      var payload := map["actor" := actor, "action" := action, "at" := at, "detail" := detail];
      eventHash := h(Merged(prev, payload));
      assert Merged(prev, payload)
          == map["prev" := prev, "actor" := actor, "action" := action, "at" := at, "detail" := detail];
      ghost var before := rows;
      rows := rows + [Row(prev, eventHash, payload)];
      RowsSnoc(h, before, rows[|before|]);
      assert forall i | 0 <= i < |before| :: rows[i] == before[i];
    }

    // The number of rows, or None where the source raises at a broken link.
    method VerifyChain() returns (n: Option<nat>)
      ensures n == if ValidRows(h, rows) then Some(|rows|) else None
    {
      var prev, count := GENESIS, 0;
      while count < |rows|
        invariant count <= |rows| && prev == PrevOf(rows, count)
        invariant forall i | 0 <= i < count :: RowFits(h, rows, i)
      {
        var row := rows[count];
        var expected := h(Merged(prev, row.payload));
        if row.prevHash != prev || row.eventHash != expected {
          assert !RowFits(h, rows, count);
          return None;
        }
        prev := row.eventHash;
        count := count + 1;
      }
      return Some(count);
    }
  }

  lemma RowsSnoc(h: Json -> string, rows: seq<Row>, row: Row)
    ensures ValidRows(h, rows + [row]) <==> ValidRows(h, rows) && RowFits(h, rows + [row], |rows|)
  {
    forall i | 0 <= i < |rows| ensures RowFits(h, rows, i) <==> RowFits(h, rows + [row], i) {
    }
  }

  // What verification demands of a chain and its next row.
  lemma ValidRowsExactly(h: Json -> string, rows: seq<Row>, row: Row)
    ensures ValidRows(h, [])
    ensures ValidRows(h, rows + [row]) <==>
      && ValidRows(h, rows)
      && row.prevHash == (if rows == [] then "genesis" else rows[|rows| - 1].eventHash)
      && row.eventHash == h(if "prev" in row.payload then row.payload else row.payload["prev" := row.prevHash])
  {
    RowsSnoc(h, rows, row);
    MergedMeaning(PrevOf(rows, |rows|), row.payload);
    assert PrevOf(rows + [row], |rows|) == PrevOf(rows, |rows|);
  }

  lemma MergedMeaning(prev: string, payload: Json)
    ensures Merged(prev, payload) == if "prev" in payload then payload else payload["prev" := prev]
  {
  }

  ghost function Built(h: Json -> string, payloads: seq<Json>): seq<Row> {
    if payloads == [] then []
    else Extended(h, Built(h, payloads[..|payloads| - 1]), payloads[|payloads| - 1])
  }

  // A chain built by appends alone always verifies and holds the payloads in order.
  lemma {:induction false} AppendsVerify(h: Json -> string, payloads: seq<Json>)
    ensures ValidRows(h, Built(h, payloads)) && |Built(h, payloads)| == |payloads|
    ensures forall i | 0 <= i < |payloads| :: Built(h, payloads)[i].payload == payloads[i]
  {
    if payloads != [] {
      var before, rows := Built(h, payloads[..|payloads| - 1]), Built(h, payloads);
      AppendsVerify(h, payloads[..|payloads| - 1]);
      RowsSnoc(h, before, rows[|before|]);
      assert RowFits(h, rows, |before|);
    }
  }

  lemma PrefixOfValidRows(h: Json -> string, rows: seq<Row>, n: nat)
    requires ValidRows(h, rows) && n <= |rows|
    ensures ValidRows(h, rows[..n])
  {
    forall i | 0 <= i < n ensures RowFits(h, rows[..n], i) {
      assert RowFits(h, rows, i);
    }
  }

  lemma MergedInjective(p: string, q: string, a: Json, b: Json)
    requires "prev" !in a && "prev" !in b && Merged(p, a) == Merged(q, b)
    ensures p == q && a == b
  {
    assert Merged(p, a)["prev"] == p && Merged(q, b)["prev"] == q;
    assert a == Merged(p, a) - {"prev"} && b == Merged(q, b) - {"prev"};
  }

  lemma SameLastRow(h: Json -> string, a: seq<Row>, b: seq<Row>, values: set<Json>)
    requires ValidRows(h, a) && ValidRows(h, b) && Plain(a) && Plain(b)
    requires Sound(h, values) && HashesOnly(a, values) && HashesOnly(b, values)
    requires PrevOf(a, |a|) == PrevOf(b, |b|)
    ensures a == [] <==> b == []
    ensures a != [] ==> PrevOf(a, |a| - 1) == PrevOf(b, |b| - 1) && a[|a| - 1] == b[|b| - 1]
  {
    var m, n := |a| - 1, |b| - 1;
    assert a != [] ==> RowFits(h, a, m) && ObjectAt(a, m) in values;
    assert b != [] ==> RowFits(h, b, n) && ObjectAt(b, n) in values;
    if a != [] && b != [] {
      MergedInjective(PrevOf(a, m), PrevOf(b, n), a[m].payload, b[n].payload);
    }
  }

  lemma WithoutLastRow(h: Json -> string, rows: seq<Row>, values: set<Json>)
    requires ValidRows(h, rows) && Plain(rows) && HashesOnly(rows, values) && rows != []
    ensures var x := rows[..|rows| - 1];
      && ValidRows(h, x) && Plain(x) && HashesOnly(x, values) && PrevOf(x, |x|) == PrevOf(rows, |rows| - 1)
  {
    var x := rows[..|rows| - 1];
    PrefixOfValidRows(h, rows, |x|);
    forall i | 0 <= i < |x| ensures ObjectAt(x, i) in values {
      assert ObjectAt(x, i) == ObjectAt(rows, i);
    }
  }

  lemma {:induction false} PlainChainsAgree(h: Json -> string, a: seq<Row>, b: seq<Row>, values: set<Json>)
    requires ValidRows(h, a) && ValidRows(h, b) && Plain(a) && Plain(b)
    requires Sound(h, values) && HashesOnly(a, values) && HashesOnly(b, values)
    requires PrevOf(a, |a|) == PrevOf(b, |b|)
    ensures a == b
    decreases |a|
  {
    SameLastRow(h, a, b, values);
    if a != [] {
      WithoutLastRow(h, a, values);
      WithoutLastRow(h, b, values);
      PlainChainsAgree(h, a[..|a| - 1], b[..|b| - 1], values);
      assert a == a[..|a| - 1] + [a[|a| - 1]] && b == b[..|b| - 1] + [b[|b| - 1]];
    }
  }

  // A chain of appended payloads, and any chain that verifies and ends in the same hash: they
  // are the same chain exactly when the other one has no payload with a key "prev".  So no
  // insertion, deletion, swap or edit that adds no such key goes unnoticed while the end is
  // kept.
  lemma SameEndSameRows(h: Json -> string, a: seq<Row>, b: seq<Row>, values: set<Json>)
    requires ValidRows(h, a) && ValidRows(h, b) && Plain(a)
    requires Sound(h, values) && HashesOnly(a, values) && HashesOnly(b, values)
    requires PrevOf(a, |a|) == PrevOf(b, |b|)
    ensures a == b <==> Plain(b)
  {
    if Plain(b) {
      PlainChainsAgree(h, a, b, values);
    }
  }

  lemma MergedSame(p: string, payload: Json, q: Json)
    requires "prev" !in payload
    ensures Merged(p, q) == Merged(p, payload) <==> q == payload || q == payload["prev" := p]
  {
    assert Merged(p, payload["prev" := p]) == Merged(p, payload) == payload["prev" := p];
    if Merged(p, q) == Merged(p, payload) {
      if "prev" in q {
        assert q == Merged(p, q);
      } else {
        MergedInjective(p, p, q, payload);
      }
    }
  }

  lemma EditTouchesOneRow(h: Json -> string, rows: seq<Row>, i: nat, q: Json)
    requires ValidRows(h, rows) && i < |rows|
    ensures ValidRows(h, rows[i := rows[i].(payload := q)])
            <==> h(Merged(PrevOf(rows, i), q)) == h(Merged(PrevOf(rows, i), rows[i].payload))
  {
    var edited := rows[i := rows[i].(payload := q)];
    assert RowFits(h, rows, i);
    assert RowFits(h, edited, i)
      <==> h(Merged(PrevOf(rows, i), q)) == h(Merged(PrevOf(rows, i), rows[i].payload));
    forall k | 0 <= k < |rows| && k != i ensures RowFits(h, edited, k) {
      assert RowFits(h, rows, k);
    }
  }

  // Exactly which edits of one payload go unnoticed: the payload itself, and the payload with
  // a "prev" key added that repeats the link it already has.
  lemma EditsNoticedExactly(h: Json -> string, rows: seq<Row>, i: nat, q: Json)
    requires ValidRows(h, rows) && i < |rows| && "prev" !in rows[i].payload
    requires Sound(h, {ObjectAt(rows, i), Merged(PrevOf(rows, i), q)})
    ensures ValidRows(h, rows[i := rows[i].(payload := q)])
            <==> q == rows[i].payload || q == rows[i].payload["prev" := PrevOf(rows, i)]
  {
    EditTouchesOneRow(h, rows, i, q);
    MergedSame(PrevOf(rows, i), rows[i].payload, q);
  }

  // A row whose payload carries a "prev" key fixes nothing before it: put after any chain
  // that verifies, it verifies and leaves the same end hash.
  lemma PrevKeyHidesHistory(h: Json -> string, payload: Json, rows: seq<Row>)
    requires ValidRows(h, rows) && "prev" in payload
    ensures ValidRows(h, rows + [Row(PrevOf(rows, |rows|), h(payload), payload)])
  {
    var row := Row(PrevOf(rows, |rows|), h(payload), payload);
    assert Merged(PrevOf(rows, |rows|), payload) == payload;
    RowsSnoc(h, rows, row);
    assert RowFits(h, rows + [row], |rows|);
  }

  // So a "prev" key lets any history stand in for another: for every chain that verifies, the
  // last row of any other can follow it, rewritten, and the end hash is that of the other,
  // of the very same hashed object.
  lemma AnyHistoryFitsTheEnd(h: Json -> string, a: seq<Row>, c: seq<Row>) returns (b: seq<Row>)
    requires ValidRows(h, a) && ValidRows(h, c) && a != []
    ensures ValidRows(h, b) && |b| == |c| + 1 && b[..|c|] == c
    ensures PrevOf(b, |b|) == PrevOf(a, |a|)
    ensures ObjectAt(b, |c|) == ObjectAt(a, |a| - 1)
  {
    var m := |a| - 1;
    assert RowFits(h, a, m);
    var payload := ObjectAt(a, m);
    b := c + [Row(PrevOf(c, |c|), h(payload), payload)];
    PrevKeyHidesHistory(h, payload, c);
    assert Merged(PrevOf(b, |c|), payload) == payload;
  }

  // ------------------------------------------------------------------ the file log

  datatype Event = Event(seqNo: int, prevHash: string, actor: string, action: string, at: string, detail: string)

  ghost predicate EventFits(h: Event -> string, log: seq<Event>, i: nat)
    requires i < |log|
  {
    log[i].seqNo == i && log[i].prevHash == (if i == 0 then GENESIS else h(log[i - 1]))
  }

  ghost predicate ValidLog(h: Event -> string, log: seq<Event>) {
    forall i | 0 <= i < |log| :: EventFits(h, log, i)
  }

  // The event an append writes.
  function NextEvent(h: Event -> string, log: seq<Event>, actor: string, action: string, at: string, detail: string)
    : Event
  {
    if log == [] then Event(0, GENESIS, actor, action, at, detail)
    else Event(log[|log| - 1].seqNo + 1, h(log[|log| - 1]), actor, action, at, detail)
  }

  // Appending keeps a log verifying, and never repairs one that does not.
  lemma AppendKeepsLog(h: Event -> string, log: seq<Event>, actor: string, action: string, at: string, detail: string)
    ensures ValidLog(h, log + [NextEvent(h, log, actor, action, at, detail)]) <==> ValidLog(h, log)
  {
    LogSnoc(h, log, NextEvent(h, log, actor, action, at, detail));
    assert log != [] ==> (ValidLog(h, log) ==> EventFits(h, log, |log| - 1));
  }

  class FileLog {
    const h: Event -> string
    var log: seq<Event>

    constructor (h: Event -> string)
      ensures log == [] && this.h == h
    {
      this.h := h;
      log := [];
    }

    method AppendEvent(actor: string, action: string, at: string, detail: string) returns (event: Event)
      modifies this
      ensures log == old(log) + [event] && event == NextEvent(h, old(log), actor, action, at, detail)
      ensures event.seqNo == (if old(log) == [] then 0 else old(log)[|old(log)| - 1].seqNo + 1)
      ensures event.prevHash == (if old(log) == [] then "genesis" else h(old(log)[|old(log)| - 1]))
      ensures event.actor == actor && event.action == action && event.at == at && event.detail == detail
      ensures ValidLog(h, old(log)) <==> ValidLog(h, log)
    {
      var prevHash, seqNo := GENESIS, 0;
      if log != [] {
        var last := log[|log| - 1];
        seqNo := last.seqNo + 1;
        prevHash := h(last);
      }
      event := Event(seqNo, prevHash, actor, action, at, detail);
      AppendKeepsLog(h, log, actor, action, at, detail);
      log := log + [event];
    }

    // False where the source raises.
    method VerifyLog() returns (ok: bool)
      ensures ok <==> ValidLog(h, log)
    {
      var prevHash := GENESIS;
      for i := 0 to |log|
        invariant prevHash == if i == 0 then GENESIS else h(log[i - 1])
        invariant forall k | 0 <= k < i :: EventFits(h, log, k)
      {
        var ev := log[i];
        if ev.seqNo != i || ev.prevHash != prevHash {
          assert !EventFits(h, log, i);
          return false;
        }
        prevHash := h(ev);
      }
      return true;
    }
  }

  lemma LogSnoc(h: Event -> string, log: seq<Event>, e: Event)
    ensures ValidLog(h, log + [e]) <==> ValidLog(h, log) && EventFits(h, log + [e], |log|)
  {
    forall i | 0 <= i < |log| ensures EventFits(h, log, i) <==> EventFits(h, log + [e], i) {
    }
  }

  // What verification demands of a log and its next event.
  lemma ValidLogExactly(h: Event -> string, log: seq<Event>, e: Event)
    ensures ValidLog(h, [])
    ensures ValidLog(h, log + [e]) <==>
      ValidLog(h, log) && e.seqNo == |log| && e.prevHash == (if log == [] then "genesis" else h(log[|log| - 1]))
  {
    LogSnoc(h, log, e);
  }

  lemma PrefixOfValidLog(h: Event -> string, log: seq<Event>, n: nat)
    requires ValidLog(h, log) && n <= |log|
    ensures ValidLog(h, log[..n])
  {
    forall i | 0 <= i < n ensures EventFits(h, log[..n], i) {
      assert EventFits(h, log, i);
    }
  }

  // Two logs that verify and end in the same event are the same log.
  lemma {:induction false} SameEndSameLog(h: Event -> string, a: seq<Event>, b: seq<Event>)
    requires ValidLog(h, a) && ValidLog(h, b) && a != [] && b != []
    requires forall x, y | x in a && y in b && h(x) == h(y) :: x == y
    requires a[|a| - 1] == b[|b| - 1]
    ensures a == b
    decreases |a|
  {
    var n := |a| - 1;
    assert EventFits(h, a, n) && EventFits(h, b, |b| - 1);
    if n > 0 {
      PrefixOfValidLog(h, a, n);
      PrefixOfValidLog(h, b, n);
      assert a[n - 1] in a && b[n - 1] in b;
      SameEndSameLog(h, a[..n], b[..n]);
    }
    assert a == a[..n] + [a[n]] && b == b[..n] + [b[n]];
  }

  // The log does not hash its own last event: any event with the right number and link can
  // stand in its place, and no other.
  lemma LastEventIsNotProtected(h: Event -> string, log: seq<Event>, e: Event)
    requires ValidLog(h, log) && log != []
    ensures ValidLog(h, log[..|log| - 1] + [e])
            <==> e.seqNo == log[|log| - 1].seqNo && e.prevHash == log[|log| - 1].prevHash
  {
    var n := |log| - 1;
    PrefixOfValidLog(h, log, n);
    LogSnoc(h, log[..n], e);
    assert EventFits(h, log, n);
    assert n > 0 ==> (log[..n] + [e])[n - 1] == log[n - 1];
  }

  // Every other event is protected: changing it breaks the next link.
  lemma EarlierEventsAreProtected(h: Event -> string, log: seq<Event>, i: nat, e: Event)
    requires ValidLog(h, log) && i < |log| - 1
    requires h(e) == h(log[i]) ==> e == log[i]
    ensures ValidLog(h, log[i := e]) <==> e == log[i]
  {
    var edited := log[i := e];
    assert e == log[i] ==> edited == log;
    if ValidLog(h, edited) {
      assert EventFits(h, edited, i + 1) && EventFits(h, log, i + 1);
    }
  }
}
