/**
 FETCH of header fields (`_fetch_headers`) reads the headers of a batch of messages
 with one query and serves the following messages from memory. The query result is
 a table of rows; `ids` is the ascending list of fetched messages.
 */
module HeaderPrefetch {

  const BATCH: nat := 2000

  /** A rendered header line of one message. */
  datatype Row = Row(id: nat, text: string)

  // What a query for one message alone would give.

  function TextOf(rows: seq<Row>, id: nat): string {
    if rows == [] then ""
    else
      var n := |rows| - 1;
      TextOf(rows[..n], id) + if rows[n].id == id then rows[n].text else ""
  }

  function Get(headers: map<nat, string>, id: nat): string {
    if id in headers then headers[id] else ""
  }

  // The batch query: rows from `lo` to `hi`, of messages in `ids`.

  predicate Wanted(row: Row, ids: seq<nat>, lo: nat, hi: nat) {
    lo <= row.id <= hi && row.id in ids
  }

  function Insert(headers: map<nat, string>, rows: seq<Row>, ids: seq<nat>, lo: nat, hi: nat): map<nat, string> {
    if rows == [] then headers
    else
      var n := |rows| - 1;
      var before := Insert(headers, rows[..n], ids, lo, hi);
      if Wanted(rows[n], ids, lo, hi) then before[rows[n].id := Get(before, rows[n].id) + rows[n].text] else before
  }

  lemma {:induction false} InsertIs(headers: map<nat, string>, rows: seq<Row>, ids: seq<nat>, lo: nat, hi: nat, id: nat)
    ensures lo <= id <= hi && id in ids ==>
              Get(Insert(headers, rows, ids, lo, hi), id) == Get(headers, id) + TextOf(rows, id)
    ensures !(lo <= id <= hi && id in ids) ==>
              (id in Insert(headers, rows, ids, lo, hi) <==> id in headers) &&
              Get(Insert(headers, rows, ids, lo, hi), id) == Get(headers, id)
  {
    if rows != [] {
      var n := |rows| - 1;
      InsertIs(headers, rows[..n], ids, lo, hi, id);
      if lo <= id <= hi && id in ids && rows[n].id == id {
        assert Get(headers, id) + TextOf(rows[..n], id) + rows[n].text ==
               Get(headers, id) + (TextOf(rows[..n], id) + rows[n].text);
      }
    }
  }

  // The session state.

  /** The ids a query asked for. */
  datatype Span = Span(first: nat, last: nat)

  datatype State = State(lo: nat, ceiling: nat, headers: map<nat, string>, log: seq<Span>)

  datatype Served = Served(state: State, out: string)

  datatype Fetched = Fetched(state: State, outs: seq<string>)

  const START: State := State(0, 0, map[], [])

  predicate Ascending(ids: seq<nat>) {
    && (forall i | 0 <= i < |ids| :: ids[i] > 0)
    && forall i, j | 0 <= i < j < |ids| :: ids[i] < ids[j]
  }

  /** The position the `k`-th query reaches: `2000 k`, or the end of the list. */
  function Reach(n: nat, k: nat): nat
    requires n > 0
  {
    if 2000 * k < n then 2000 * k else n - 1
  }

  function High(ids: seq<nat>, lo: nat): nat
    requires ids != []
  {
    if lo + BATCH < |ids| then ids[lo + BATCH] else ids[|ids| - 1]
  }

  /** One message: from memory up to the ceiling, otherwise by a query. */
  function Serve(st: State, ids: seq<nat>, rows: seq<Row>, msg: nat): Served
    requires ids != []
  {
    if msg <= st.ceiling then Served(st, Get(st.headers, msg))
    else
      var hi := High(ids, st.lo);
      var headers := Insert(st.headers, rows, ids, msg, hi);
      Served(State(st.lo + BATCH, hi, headers, st.log + [Span(msg, hi)]), Get(headers, msg))
  }

  // The invariant, for messages fetched in ascending order with or without skips.

  /** The number of queries so far tells the cursor and the ceiling. */
  predicate Cursor(st: State, ids: seq<nat>)
    requires ids != []
  {
    && st.lo == BATCH * |st.log|
    && st.ceiling == if st.log == [] then 0 else ids[Reach(|ids|, |st.log|)]
  }

  predicate Covered(st: State, ids: seq<nat>, q: nat)
    requires q < |ids|
  {
    st.log != [] && q <= Reach(|ids|, |st.log|)
  }

  /** Messages yet to come are complete in memory below the ceiling and absent above. */
  predicate Ready(st: State, ids: seq<nat>, rows: seq<Row>, q: nat)
    requires q < |ids|
  {
    if Covered(st, ids, q) then Get(st.headers, ids[q]) == TextOf(rows, ids[q]) else ids[q] !in st.headers
  }

  predicate Inv(st: State, ids: seq<nat>, rows: seq<Row>, next: nat) {
    ids != [] && Cursor(st, ids) && forall q | next <= q < |ids| :: Ready(st, ids, rows, q)
  }

  lemma CeilingCovers(st: State, ids: seq<nat>, q: nat)
    requires Ascending(ids) && q < |ids| && Cursor(st, ids)
    ensures ids[q] <= st.ceiling <==> Covered(st, ids, q)
  {
    if st.log != [] {
      var r := Reach(|ids|, |st.log|);
      assert q < r ==> ids[q] < ids[r];
      assert r < q ==> ids[r] < ids[q];
    }
  }

  lemma CursorStep(st: State, ids: seq<nat>)
    requires ids != [] && Cursor(st, ids)
    ensures High(ids, st.lo) == ids[Reach(|ids|, |st.log| + 1)]
    ensures BATCH * (|st.log| + 1) == st.lo + BATCH
  {
  }

  lemma ServeCursor(st: State, ids: seq<nat>, rows: seq<Row>, msg: nat)
    requires ids != [] && Cursor(st, ids)
    ensures Cursor(Serve(st, ids, rows, msg).state, ids)
  {
    CursorStep(st, ids);
  }

  /** A query made for position `p` leaves every later position ready. */
  lemma QueryReady(st: State, ids: seq<nat>, rows: seq<Row>, p: nat, q: nat)
    requires Ascending(ids) && p <= q < |ids| && Cursor(st, ids) && !Covered(st, ids, p) && Ready(st, ids, rows, q)
    ensures Ready(Serve(st, ids, rows, ids[p]).state, ids, rows, q)
  {
    CeilingCovers(st, ids, p);
    CursorStep(st, ids);
    var r := Reach(|ids|, |st.log| + 1);
    assert !Covered(st, ids, q);
    InsertIs(st.headers, rows, ids, ids[p], ids[r], ids[q]);
    assert p < q ==> ids[p] < ids[q];
    assert r < q ==> ids[r] < ids[q];
    assert q < r ==> ids[q] < ids[r];
    assert "" + TextOf(rows, ids[q]) == TextOf(rows, ids[q]);
  }

  /** Fetching position `p` keeps the invariant for all later ones. */
  lemma ServeKeeps(st: State, ids: seq<nat>, rows: seq<Row>, next: nat, p: nat)
    requires Ascending(ids) && Inv(st, ids, rows, next) && next <= p < |ids|
    ensures Inv(Serve(st, ids, rows, ids[p]).state, ids, rows, p + 1)
  {
    ServeCursor(st, ids, rows, ids[p]);
    CeilingCovers(st, ids, p);
    var after := Serve(st, ids, rows, ids[p]).state;
    if Covered(st, ids, p) {
      assert after == st;
    } else {
      forall q | p + 1 <= q < |ids| ensures Ready(after, ids, rows, q) {
        QueryReady(st, ids, rows, p, q);
      }
    }
  }

  /**
   What is sent for position `p` is what a query for that message alone gives, if
   and only if the message has no such headers or the last query reached it.
   */
  lemma ServedExactly(st: State, ids: seq<nat>, rows: seq<Row>, next: nat, p: nat)
    requires Ascending(ids) && Inv(st, ids, rows, next) && next <= p < |ids|
    ensures var r := Serve(st, ids, rows, ids[p]);
            r.out == TextOf(rows, ids[p]) <==> TextOf(rows, ids[p]) == "" || p <= Reach(|ids|, |r.state.log|)
  {
    CeilingCovers(st, ids, p);
    assert Ready(st, ids, rows, p);
    if !Covered(st, ids, p) {
      QueryReady(st, ids, rows, p, p);
      var after := Serve(st, ids, rows, ids[p]).state;
      assert Ready(after, ids, rows, p);
    }
  }

  // Whole fetches.

  predicate Within(ps: seq<nat>, n: nat) {
    forall i | 0 <= i < |ps| :: ps[i] < n
  }

  /** The messages at the positions `ps` of the list, one after the other. */
  function FetchAt(st: State, ids: seq<nat>, rows: seq<Row>, ps: seq<nat>): Fetched
    requires Within(ps, |ids|)
  {
    if ps == [] then Fetched(st, [])
    else
      var n := |ps| - 1;
      var before := FetchAt(st, ids, rows, ps[..n]);
      var last := Serve(before.state, ids, rows, ids[ps[n]]);
      Fetched(last.state, before.outs + [last.out])
  }

  /** How many queries the positions cost, computed from the positions alone. */
  function Queries(n: nat, ps: seq<nat>): nat
    requires n > 0
  {
    if ps == [] then 0
    else
      var last := |ps| - 1;
      var k := Queries(n, ps[..last]);
      if k > 0 && ps[last] <= Reach(n, k) then k else k + 1
  }

  predicate Positions(n: nat, ps: seq<nat>) {
    Within(ps, n) && forall i, j | 0 <= i < j < |ps| :: ps[i] < ps[j]
  }

  function Next(ps: seq<nat>): nat {
    if ps == [] then 0 else ps[|ps| - 1] + 1
  }

  lemma {:induction false} FetchInv(ids: seq<nat>, rows: seq<Row>, ps: seq<nat>)
    requires Ascending(ids) && ids != [] && Positions(|ids|, ps)
    ensures Inv(FetchAt(START, ids, rows, ps).state, ids, rows, Next(ps))
    ensures |FetchAt(START, ids, rows, ps).state.log| == Queries(|ids|, ps)
    ensures |FetchAt(START, ids, rows, ps).outs| == |ps|
  {
    if ps != [] {
      var n := |ps| - 1;
      FetchInv(ids, rows, ps[..n]);
      var before := FetchAt(START, ids, rows, ps[..n]).state;
      assert n > 0 ==> ps[n - 1] < ps[n];
      ServeKeeps(before, ids, rows, Next(ps[..n]), ps[n]);
      CeilingCovers(before, ids, ps[n]);
    }
  }

  lemma {:induction false} OutputsGrow(ids: seq<nat>, rows: seq<Row>, ps: seq<nat>, i: nat)
    requires Within(ps, |ids|)
    requires i < |ps|
    ensures |FetchAt(START, ids, rows, ps).outs| == |ps| && |FetchAt(START, ids, rows, ps[..i + 1]).outs| == i + 1
    ensures FetchAt(START, ids, rows, ps).outs[i] == FetchAt(START, ids, rows, ps[..i + 1]).outs[i]
  {
    var n := |ps| - 1;
    if i == n {
      assert ps[..i + 1] == ps;
      OutputCount(ids, rows, ps);
    } else {
      assert ps[..n][..i + 1] == ps[..i + 1];
      OutputsGrow(ids, rows, ps[..n], i);
    }
  }

  lemma {:induction false} OutputCount(ids: seq<nat>, rows: seq<Row>, ps: seq<nat>)
    requires Within(ps, |ids|)
    ensures |FetchAt(START, ids, rows, ps).outs| == |ps|
  {
    if ps != [] {
      OutputCount(ids, rows, ps[..|ps| - 1]);
    }
  }

  /**
   Batching is invisible exactly as far as the queries reach: for every ascending
   choice of messages, each gets its own headers if and only if it has none or lies
   within the reach of the queries made until then.
   */
  lemma PrefetchExactly(ids: seq<nat>, rows: seq<Row>, ps: seq<nat>, i: nat)
    requires Ascending(ids) && Positions(|ids|, ps) && i < |ps|
    ensures |FetchAt(START, ids, rows, ps).outs| == |ps| && |ids| > 0 && ps[i] < |ids|
    ensures FetchAt(START, ids, rows, ps).outs[i] == TextOf(rows, ids[ps[i]]) <==>
            TextOf(rows, ids[ps[i]]) == "" || ps[i] <= Reach(|ids|, Queries(|ids|, ps[..i + 1]))
  {
    OutputsGrow(ids, rows, ps, i);
    var upto := ps[..i + 1];
    assert upto[..i] == ps[..i];
    FetchInv(ids, rows, upto);
    FetchInv(ids, rows, ps[..i]);
    var before := FetchAt(START, ids, rows, ps[..i]).state;
    assert i > 0 ==> ps[i - 1] < ps[i];
    ServedExactly(before, ids, rows, Next(ps[..i]), ps[i]);
  }

  /** Skipping the first batch and one more loses the headers of the next message. */
  lemma LongSkipMisses()
    ensures var ids := seq(2002, i => i + 1);
            var rows := [Row(2002, "Subject: x")];
            FetchAt(START, ids, rows, [2001]).outs != [TextOf(rows, 2002)]
  {
    var ids: seq<nat> := seq(2002, i => i + 1);
    var rows := [Row(2002, "Subject: x")];
    assert rows[..0] == [];
    assert TextOf(rows, 2002) == "Subject: x";
    assert [2001 as nat][..0] == [] && [2001 as nat][..1] == [2001];
    PrefetchExactly(ids, rows, [2001], 0);
  }

  // Without skips.

  function UpTo(n: nat): (ps: seq<nat>)
    ensures |ps| == n && forall i :: 0 <= i < n ==> ps[i] == i
  {
    seq(n, i => i)
  }

  lemma {:induction false} NoSkipReach(n: nat, m: nat)
    requires 0 < m <= n
    ensures Queries(n, UpTo(m)) > 0
    ensures m - 1 <= Reach(n, Queries(n, UpTo(m)))
    ensures Queries(n, UpTo(m)) == 1 || m - 1 > Reach(n, Queries(n, UpTo(m)) - 1)
  {
    assert UpTo(m)[..m - 1] == UpTo(m - 1);
    if m > 1 {
      NoSkipReach(n, m - 1);
    }
  }

  /** Without skips every message gets exactly its own headers. */
  lemma PrefetchInvisible(ids: seq<nat>, rows: seq<Row>, i: nat)
    requires Ascending(ids) && i < |ids|
    ensures var outs := FetchAt(START, ids, rows, UpTo(|ids|)).outs;
            |outs| == |ids| && outs[i] == TextOf(rows, ids[i])
  {
    PrefetchExactly(ids, rows, UpTo(|ids|), i);
    assert UpTo(|ids|)[..i + 1] == UpTo(i + 1);
    NoSkipReach(|ids|, i + 1);
  }

  /** The `k`-th query runs from the position after the previous reach to its own. */
  function First(n: nat, k: nat): nat
    requires n > 0
  {
    if k == 0 then 0 else Reach(n, k) + 1
  }

  predicate LogIs(log: seq<Span>, ids: seq<nat>)
    requires ids != []
  {
    forall k | 0 <= k < |log| ::
      First(|ids|, k) < |ids| && log[k] == Span(ids[First(|ids|, k)], ids[Reach(|ids|, k + 1)])
  }

  /** A query made for the first uncovered position extends the log as described. */
  lemma LogStep(st: State, ids: seq<nat>, rows: seq<Row>, p: nat)
    requires Ascending(ids) && p < |ids| && Cursor(st, ids) && LogIs(st.log, ids)
    requires p == if st.log == [] then 0 else Reach(|ids|, |st.log|) + 1
    ensures LogIs(Serve(st, ids, rows, ids[p]).state.log, ids)
  {
    CeilingCovers(st, ids, p);
    CursorStep(st, ids);
    assert First(|ids|, |st.log|) == p;
    var log := Serve(st, ids, rows, ids[p]).state.log;
    assert log == st.log + [Span(ids[p], ids[Reach(|ids|, |st.log| + 1)])];
  }

  lemma {:induction false} NoSkipLog(ids: seq<nat>, rows: seq<Row>, m: nat)
    requires Ascending(ids) && 0 < m <= |ids|
    ensures LogIs(FetchAt(START, ids, rows, UpTo(m)).state.log, ids)
  {
    assert UpTo(m)[..m - 1] == UpTo(m - 1);
    FetchInv(ids, rows, UpTo(m - 1));
    var before := FetchAt(START, ids, rows, UpTo(m - 1)).state;
    if m > 1 {
      NoSkipLog(ids, rows, m - 1);
      NoSkipReach(|ids|, m - 1);
    }
    CeilingCovers(before, ids, m - 1);
    if !Covered(before, ids, m - 1) {
      LogStep(before, ids, rows, m - 1);
    }
  }

  /**
   Each message is asked for exactly once: by the query whose range holds it, and
   after `k` queries the ceiling is `ids[min(2000 k, n - 1)]`.
   */
  lemma QueriedOnce(ids: seq<nat>, rows: seq<Row>, q: nat) returns (k: nat)
    requires Ascending(ids) && q < |ids|
    ensures var st := FetchAt(START, ids, rows, UpTo(|ids|)).state;
            && st.ceiling == ids[Reach(|ids|, |st.log|)] == ids[|ids| - 1]
            && k < |st.log| && st.log[k].first <= ids[q] <= st.log[k].last
            && forall j | 0 <= j < |st.log| && st.log[j].first <= ids[q] <= st.log[j].last :: j == k
  {
    var n := |ids|;
    var st := FetchAt(START, ids, rows, UpTo(n)).state;
    NoSkipLog(ids, rows, n);
    NoSkipReach(n, n);
    FetchInv(ids, rows, UpTo(n));
    k := if q == 0 then 0 else (q - 1) / BATCH;
    assert First(n, k) <= q <= Reach(n, k + 1);
    assert k <= |st.log| - 1;
    InRange(ids, First(n, k), q);
    InRange(ids, q, Reach(n, k + 1));
    forall j | 0 <= j < |st.log| && st.log[j].first <= ids[q] <= st.log[j].last ensures j == k {
      assert st.log[j] == Span(ids[First(n, j)], ids[Reach(n, j + 1)]);
      InRange(ids, First(n, j), q);
      InRange(ids, q, Reach(n, j + 1));
    }
  }

  lemma InRange(ids: seq<nat>, i: nat, j: nat)
    requires Ascending(ids) && i < |ids| && j < |ids|
    ensures ids[i] <= ids[j] <==> i <= j
  {
  }

  // The code.

  class Session {
    var ids: seq<nat>
    var lo: nat
    var ceiling: nat
    var headers: map<nat, string>
    ghost var log: seq<Span>

    ghost function Value(): State
      reads this
    {
      State(lo, ceiling, headers, log)
    }

    constructor (fetched: seq<nat>)
      ensures ids == fetched && Value() == START
    {
      ids := fetched;
      lo, ceiling, headers, log := 0, 0, map[], [];
    }

    /** Appends the rows of a query result to the headers in memory. */
    method ReadRows(rows: seq<Row>, from: nat, hi: nat)
      modifies `headers
      ensures headers == Insert(old(headers), rows, ids, from, hi)
    {
      var i := 0;
      while i < |rows|
        invariant 0 <= i <= |rows|
        invariant headers == Insert(old(headers), rows[..i], ids, from, hi)
      {
        assert rows[..i + 1][..i] == rows[..i];
        if from <= rows[i].id <= hi && rows[i].id in ids {
          var line := if rows[i].id in headers then headers[rows[i].id] else "";
          headers := headers[rows[i].id := line + rows[i].text];
        }
        i := i + 1;
      }
      assert rows[..i] == rows;
    }

    /** `_fetch_headers` for one message. */
    method FetchHeaders(rows: seq<Row>, msg: nat) returns (out: string)
      requires ids != []
      modifies `lo, `ceiling, `headers, `log
      ensures Served(Value(), out) == Serve(old(Value()), ids, rows, msg)
    {
      if msg > ceiling {
        var hi := if lo + BATCH < |ids| then ids[lo + BATCH] else ids[|ids| - 1];
        ReadRows(rows, msg, hi);
        lo := lo + BATCH;
        ceiling := hi;
        log := log + [Span(msg, hi)];
      }
      out := if msg in headers then headers[msg] else "";
    }

    /** A FETCH of all the listed messages sends each one its own headers. */
    method FetchAll(rows: seq<Row>) returns (outs: seq<string>)
      requires Ascending(ids) && Value() == START
      modifies `lo, `ceiling, `headers, `log
      ensures |outs| == |ids| && forall i | 0 <= i < |ids| :: outs[i] == TextOf(rows, ids[i])
    {
      outs := [];
      var i := 0;
      while i < |ids|
        invariant 0 <= i <= |ids|
        invariant FetchAt(START, ids, rows, UpTo(i)) == Fetched(Value(), outs)
      {
        assert UpTo(i + 1)[..i] == UpTo(i);
        var out := FetchHeaders(rows, ids[i]);
        outs := outs + [out];
        i := i + 1;
      }
      OutputCount(ids, rows, UpTo(|ids|));
      forall k | 0 <= k < |ids| ensures outs[k] == TextOf(rows, ids[k]) {
        PrefetchInvisible(ids, rows, k);
      }
    }
  }
}
