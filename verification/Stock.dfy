/** Stock records, the map a store stands for, and what each request does to that map. */
module Stock {
  import opened Text

  /** stock_status_t, with one value of the model's own: `Halted` means that the process ended
      inside the call (exit, kill or power loss), so no status was ever returned. */
  datatype Status = Ok | NotFound | Insufficient | Invalid | Io | Internal | Halted

  datatype Item = Item(stock: int, price: int)

  type Holdings = map<int, Item>

  datatype Row = Row(id: int, stock: int, price: int) {
    function Payload(): Item { Item(stock, price) }

    /** What apply_stock_record accepts, in the range of int. */
    predicate Good() {
      0 < id <= INT_MAX && 0 <= stock <= INT_MAX && 0 <= price <= INT_MAX
    }
  }

  /** The store invariant: positive ids, non-negative stock and price. */
  ghost predicate GoodStore(m: Holdings) {
    forall id :: id in m ==> Row(id, m[id].stock, m[id].price).Good()
  }

  // ---------- sorted listings ----------

  ghost predicate Ascending(rows: seq<Row>) {
    forall i, j :: 0 <= i < j < |rows| ==> rows[i].id < rows[j].id
  }

  ghost predicate GoodRows(rows: seq<Row>) {
    forall i :: 0 <= i < |rows| ==> rows[i].Good()
  }

  function MapOf(rows: seq<Row>): Holdings {
    if rows == [] then map[] else
      var last := rows[|rows| - 1];
      MapOf(rows[..|rows| - 1])[last.id := last.Payload()]
  }

  lemma MapOfAppend(rows: seq<Row>, r: Row)
    ensures MapOf(rows + [r]) == MapOf(rows)[r.id := r.Payload()]
  {
    assert (rows + [r])[..|rows|] == rows;
  }

  lemma {:induction false} MapOfKeys(rows: seq<Row>)
    ensures forall id :: id in MapOf(rows) <==> exists i :: 0 <= i < |rows| && rows[i].id == id
  {
    if rows != [] {
      hide MapOf;
      var n := |rows| - 1;
      var front := rows[..n];
      MapOfKeys(front);
      MapOfAppend(front, rows[n]);
      assert rows == front + [rows[n]];
      forall id ensures id in MapOf(rows) <==> exists i :: 0 <= i < |rows| && rows[i].id == id {
        if id in MapOf(front) {
          var i :| 0 <= i < |front| && front[i].id == id;
          assert rows[i].id == id;
        }
        if i :| 0 <= i < |rows| && rows[i].id == id {
          if i < n { assert front[i].id == id; }
        }
      }
    }
  }

  lemma TopIsNew(front: seq<Row>, last: Row)
    requires Ascending(front + [last])
    ensures Ascending(front) && last.id !in MapOf(front)
  {
    MapOfKeys(front);
    var rows := front + [last];
    assert forall i :: 0 <= i < |front| ==> rows[i] == front[i] && rows[i].id < rows[|front|].id;
  }

  /** No id occurs twice. */
  ghost predicate Distinct(rows: seq<Row>) {
    forall i, j :: 0 <= i < j < |rows| ==> rows[i].id != rows[j].id
  }

  predicate InMap(r: Row, m: Holdings) { r.id in m && m[r.id] == r.Payload() }

  lemma {:induction false} MapOfValues(rows: seq<Row>)
    requires Ascending(rows)
    ensures forall i :: 0 <= i < |rows| ==> InMap(rows[i], MapOf(rows))
    ensures |MapOf(rows)| == |rows|
  {
    if rows != [] {
      hide MapOf;
      var n := |rows| - 1;
      var front, last := rows[..n], rows[n];
      assert rows == front + [last];
      TopIsNew(front, last);
      MapOfValues(front);
      MapOfAppend(front, last);
      var m := MapOf(front);
      assert MapOf(rows).Keys == m.Keys + {last.id};
      forall i | 0 <= i < |rows| ensures InMap(rows[i], MapOf(rows)) {
        if i < n { assert rows[i] == front[i] && InMap(front[i], m); }
      }
    }
  }

  /** The map of rows with distinct ids has exactly these ids, each with its own stock and price. */
  lemma {:induction false} MapOfDistinct(rows: seq<Row>)
    requires Distinct(rows)
    ensures forall id :: id in MapOf(rows) <==> exists i :: 0 <= i < |rows| && rows[i].id == id
    ensures forall i :: 0 <= i < |rows| ==>
      rows[i].id in MapOf(rows) && MapOf(rows)[rows[i].id] == Item(rows[i].stock, rows[i].price)
  {
    MapOfKeys(rows);
    if rows != [] {
      hide MapOf;
      var n := |rows| - 1;
      MapOfDistinct(rows[..n]);
      assert rows == rows[..n] + [rows[n]];
      MapOfAppend(rows[..n], rows[n]);
      forall i | 0 <= i < |rows| ensures InMap(rows[i], MapOf(rows)) {
        if i < n { assert rows[i] == rows[..n][i] && InMap(rows[..n][i], MapOf(rows[..n])); }
      }
      assert forall i :: 0 <= i < |rows| ==> InMap(rows[i], MapOf(rows));
    }
  }

  ghost predicate IsMaxKey(m: Holdings, k: int) { k in m && forall j :: j in m ==> j <= k }

  lemma FrontBelow(rows: seq<Row>, id: int)
    requires Ascending(rows) && rows != []
    requires id in MapOf(rows[..|rows| - 1])
    ensures id < rows[|rows| - 1].id
  {
    hide MapOf;
    var front := rows[..|rows| - 1];
    MapOfKeys(front);
    var i :| 0 <= i < |front| && front[i].id == id;
    assert rows[i].id == id;
  }

  lemma RemoveAdded(m: Holdings, k: int, v: Item)
    requires k !in m
    ensures m[k := v] - {k} == m
  {
  }

  lemma LastRow(rows: seq<Row>)
    requires Ascending(rows) && rows != []
    ensures var last := rows[|rows| - 1];
      && IsMaxKey(MapOf(rows), last.id)
      && MapOf(rows)[last.id] == last.Payload()
      && MapOf(rows[..|rows| - 1]) == MapOf(rows) - {last.id}
  {
    var m, last := MapOf(rows[..|rows| - 1]), rows[|rows| - 1];
    forall id | id in m ensures id < last.id { FrontBelow(rows, id); }
    RemoveAdded(m, last.id, last.Payload());
  }

  /** A map has only one ascending listing. */
  lemma {:induction false} AscendingUnique(a: seq<Row>, b: seq<Row>)
    requires Ascending(a) && Ascending(b) && MapOf(a) == MapOf(b)
    ensures a == b
  {
    if a == [] || b == [] {
      if a != [] { LastRow(a); }
      if b != [] { LastRow(b); }
    } else {
      LastRow(a);
      LastRow(b);
      var n, k := |a| - 1, |b| - 1;
      assert a[n].id == b[k].id;
      assert a[n].Payload() == b[k].Payload();
      AscendingUnique(a[..n], b[..k]);
      assert a == a[..n] + [a[n]];
      assert b == b[..k] + [b[k]];
    }
  }

  lemma {:induction false} HasMax(s: set<int>)
    requires exists k :: k in s
    ensures exists k :: k in s && forall j :: j in s ==> j <= k
    decreases |s|
  {
    var k :| k in s;
    if j :| j in s && j > k {
      var rest := s - {k};
      assert j in rest;
      HasMax(rest);
      var top :| top in rest && forall i :: i in rest ==> i <= top;
      assert top in s && j <= top;
      forall i | i in s ensures i <= top {
        if i != k { assert i in rest; }
      }
    } else {
      assert forall j :: j in s ==> j <= k;
    }
  }

  lemma MaxKeyExists(m: Holdings)
    ensures m == map[] || exists k :: IsMaxKey(m, k)
  {
    if exists k :: k in m.Keys {
      HasMax(m.Keys);
      var k :| k in m.Keys && forall j :: j in m.Keys ==> j <= k;
      assert IsMaxKey(m, k);
    } else {
      assert m == map[];
    }
  }

  lemma ListingStep(front: seq<Row>, m: Holdings, k: int)
    requires IsMaxKey(m, k) && Ascending(front) && MapOf(front) == m - {k}
    ensures var rows := front + [Row(k, m[k].stock, m[k].price)];
      Ascending(rows) && MapOf(rows) == m
  {
    var rows := front + [Row(k, m[k].stock, m[k].price)];
    MapOfKeys(front);
    assert rows[..|front|] == front;
    forall i | 0 <= i < |front| ensures front[i].id < k {
      assert front[i].id in m - {k};
    }
  }

  /** The rows of a map in ascending id order. */
  ghost function Listing(m: Holdings): (rows: seq<Row>)
    ensures Ascending(rows)
    ensures MapOf(rows) == m
    decreases m.Keys
  {
    if m == map[] then [] else
      MaxKeyExists(m);
      var k :| IsMaxKey(m, k);
      assert k in m.Keys && k !in (m - {k}).Keys;
      ListingStep(Listing(m - {k}), m, k);
      Listing(m - {k}) + [Row(k, m[k].stock, m[k].price)]
  }

  lemma ListingOfRows(rows: seq<Row>)
    requires Ascending(rows)
    ensures Listing(MapOf(rows)) == rows
  {
    AscendingUnique(Listing(MapOf(rows)), rows);
  }

  lemma GoodBothWays(rows: seq<Row>)
    requires Ascending(rows)
    ensures GoodRows(rows) <==> GoodStore(MapOf(rows))
  {
    MapOfKeys(rows);
    MapOfValues(rows);
    if GoodRows(rows) {
      forall id | id in MapOf(rows)
        ensures Row(id, MapOf(rows)[id].stock, MapOf(rows)[id].price).Good()
      {
        var i :| 0 <= i < |rows| && rows[i].id == id;
        assert rows[i] == Row(id, MapOf(rows)[id].stock, MapOf(rows)[id].price);
      }
    }
    if GoodStore(MapOf(rows)) {
      forall i | 0 <= i < |rows| ensures rows[i].Good() {
        var id := rows[i].id;
        assert rows[i] == Row(id, MapOf(rows)[id].stock, MapOf(rows)[id].price);
      }
    }
  }

  // ---------- requests ----------

  /** stock_store_apply_delta_nolock on the map. */
  function ApplyDelta(m: Holdings, id: int, delta: int): (Holdings, Status) {
    if id !in m then (m, NotFound)
    else if delta < 0 && m[id].stock < -delta then (m, Insufficient)
    else (m[id := m[id].(stock := m[id].stock + delta)], Ok)
  }

  /** No sum in `left_stock += delta` leaves the range of int. */
  predicate DeltaFits(m: Holdings, id: int, delta: int) {
    id in m ==> m[id].stock + delta <= INT_MAX
  }

  datatype Request =
    | ShowAll
    | ShowOne(id: int)
    | Buy(id: int, count: int)
    | Sell(id: int, count: int)
    | Exit
  {
    /** What validate_request lets through. */
    predicate Valid() {
      match this
      case ShowOne(id) => InInt(id)
      case Buy(id, count) => InInt(id) && 0 < count <= INT_MAX
      case Sell(id, count) => InInt(id) && 0 < count <= INT_MAX
      case _ => true
    }
  }

  predicate RequestFits(m: Holdings, r: Request) {
    r.Sell? ==> DeltaFits(m, r.id, r.count)
  }

  function RowText(r: Row): string {
    IntText(r.id) + " " + IntText(r.stock) + " " + IntText(r.price) + "\n"
  }

  function RowsText(rows: seq<Row>): string {
    if rows == [] then "" else RowText(rows[0]) + RowsText(rows[1..])
  }

  /** status_response: the reply to a request that failed. */
  function FailureText(s: Status): string {
    match s
    case Invalid => "invalid command\n"
    case NotFound => "stock not found\n"
    case Insufficient => "not enough left stock\n"
    case _ => "internal error\n"
  }

  /** One request, carried out alone: the new map and the reply. */
  ghost function Serve(m: Holdings, r: Request): (Holdings, string) {
    match r
    case ShowAll => (m, RowsText(Listing(m)))
    case ShowOne(id) =>
      (m, if id in m then RowText(Row(id, m[id].stock, m[id].price)) else FailureText(NotFound))
    case Buy(id, count) => var (m', s) := ApplyDelta(m, id, -count);
      (m', if s == Ok then "success\n" else FailureText(s))
    case Sell(id, count) => var (m', s) := ApplyDelta(m, id, count);
      (m', if s == Ok then "success\n" else FailureText(s))
    case Exit => (m, "success\n")
  }

  ghost function ServeAll(m: Holdings, rs: seq<Request>): Holdings {
    if rs == [] then m else Serve(ServeAll(m, rs[..|rs| - 1]), rs[|rs| - 1]).0
  }

  /** Every request is one that validate_request accepts, and no sell passes INT_MAX. */
  ghost predicate AllFit(m: Holdings, rs: seq<Request>) {
    forall i :: 0 <= i < |rs| ==> rs[i].Valid() && RequestFits(ServeAll(m, rs[..i]), rs[i])
  }

  lemma ServeKeepsGood(m: Holdings, r: Request)
    requires GoodStore(m) && r.Valid() && RequestFits(m, r)
    ensures GoodStore(Serve(m, r).0)
    ensures Serve(m, r).0.Keys == m.Keys
    ensures forall id :: id in m ==> Serve(m, r).0[id].price == m[id].price
  {
    if r.Buy? || r.Sell? {
      var d := if r.Buy? then -r.count else r.count;
      var m' := ApplyDelta(m, r.id, d).0;
      forall id | id in m' ensures Row(id, m'[id].stock, m'[id].price).Good() {
        assert Row(id, m[id].stock, m[id].price).Good();
      }
    }
  }

  // ---------- the requests, written out ----------

  /** A buy lowers one stock, all of it at most. */
  lemma BuyMeans(m: Holdings, id: int, count: int)
    requires count > 0
    ensures id in m && m[id].stock >= count ==>
      Serve(m, Buy(id, count)) == (m[id := Item(m[id].stock - count, m[id].price)], "success\n")
    ensures id in m && m[id].stock < count ==> Serve(m, Buy(id, count)) == (m, "not enough left stock\n")
    ensures id !in m ==> Serve(m, Buy(id, count)) == (m, "stock not found\n")
  {
  }

  /** A sell raises one stock. */
  lemma SellMeans(m: Holdings, id: int, count: int)
    requires count > 0
    ensures id in m ==>
      Serve(m, Sell(id, count)) == (m[id := Item(m[id].stock + count, m[id].price)], "success\n")
    ensures id !in m ==> Serve(m, Sell(id, count)) == (m, "stock not found\n")
  {
  }

  lemma ShowOneMeans(m: Holdings, id: int)
    ensures id in m ==>
      Serve(m, ShowOne(id)) == (m, IntText(id) + " " + IntText(m[id].stock) + " " + IntText(m[id].price) + "\n")
    ensures id !in m ==> Serve(m, ShowOne(id)) == (m, "stock not found\n")
  {
  }

  ghost function ItemLines(m: Holdings, ids: seq<int>): seq<string>
    requires forall id :: id in ids ==> id in m
  {
    seq(|ids|, i requires 0 <= i < |ids| =>
      IntText(ids[i]) + " " + IntText(m[ids[i]].stock) + " " + IntText(m[ids[i]].price) + "\n")
  }

  lemma RowTextMeans(r: Row)
    ensures RowText(r) == IntText(r.id) + " " + IntText(r.stock) + " " + IntText(r.price) + "\n"
  {
  }

  lemma {:induction false} RowsTextConcat(rows: seq<Row>, lines: seq<string>)
    requires |lines| == |rows| && forall i :: 0 <= i < |rows| ==> lines[i] == RowText(rows[i])
    ensures RowsText(rows) == Concat(lines)
  {
    if rows != [] { RowsTextConcat(rows[1..], lines[1..]); }
  }

  lemma ListedIds(m: Holdings, rows: seq<Row>) returns (ids: seq<int>)
    requires Ascending(rows) && MapOf(rows) == m
    ensures |ids| == |rows| && forall i :: 0 <= i < |rows| ==> ids[i] == rows[i].id && ids[i] in m
    ensures forall id :: id in ids <==> id in m
    ensures forall i, j :: 0 <= i < j < |ids| ==> ids[i] < ids[j]
  {
    MapOfKeys(rows);
    hide MapOf;
    ids := seq(|rows|, i requires 0 <= i < |rows| => rows[i].id);
    forall id ensures id in ids <==> id in m {
      if id in m {
        var i :| 0 <= i < |rows| && rows[i].id == id;
        assert ids[i] == id;
      }
    }
  }

  /** A full show changes nothing and prints each item on a line of its own, in ascending id order. */
  lemma ShowAllMeans(m: Holdings) returns (ids: seq<int>)
    ensures forall id :: id in ids <==> id in m
    ensures forall i, j :: 0 <= i < j < |ids| ==> ids[i] < ids[j]
    ensures Serve(m, ShowAll) == (m, Concat(ItemLines(m, ids)))
  {
    var rows := Listing(m);
    assert Serve(m, ShowAll) == (m, RowsText(rows));
    MapOfValues(rows);
    ids := ListedIds(m, rows);
    hide RowText, Listing, MapOf, Ascending, Serve, RowsText, Concat;
    var lines := ItemLines(m, ids);
    forall i | 0 <= i < |rows| ensures lines[i] == RowText(rows[i]) {
      assert InMap(rows[i], m);
      RowTextMeans(rows[i]);
    }
    RowsTextConcat(rows, lines);
  }

  lemma ExitMeans(m: Holdings)
    ensures Serve(m, Exit) == (m, "success\n")
  {
  }

  /** What the hypotheses about requests come to. */
  lemma HypothesesMean(m: Holdings, r: Request)
    ensures r.Valid() <==>
      && (r.ShowOne? || r.Buy? || r.Sell? ==> -0x8000_0000 <= r.id <= 0x7fff_ffff)
      && (r.Buy? || r.Sell? ==> 0 < r.count <= 0x7fff_ffff)
    ensures RequestFits(m, r) <==> (r.Sell? && r.id in m ==> m[r.id].stock + r.count <= 0x7fff_ffff)
    ensures GoodStore(m) <==>
      forall id :: id in m ==>
        0 < id <= 0x7fff_ffff && 0 <= m[id].stock <= 0x7fff_ffff && 0 <= m[id].price <= 0x7fff_ffff
  {
    if forall id :: id in m ==>
        0 < id <= 0x7fff_ffff && 0 <= m[id].stock <= 0x7fff_ffff && 0 <= m[id].price <= 0x7fff_ffff
    {
      forall id | id in m ensures Row(id, m[id].stock, m[id].price).Good() { }
    }
    if GoodStore(m) {
      forall id | id in m
        ensures 0 < id <= 0x7fff_ffff && 0 <= m[id].stock <= 0x7fff_ffff && 0 <= m[id].price <= 0x7fff_ffff
      {
        assert Row(id, m[id].stock, m[id].price).Good();
      }
    }
  }
}
