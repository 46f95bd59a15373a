/** The stock store: a binary search tree on the heap, keyed by stock id. */
module Store {
  import opened Stock
  import opened Visitors

  /** The listing with one row put in its place: replaced when its id is there, added otherwise. */
  function Put(rows: seq<Row>, r: Row): seq<Row> {
    if rows == [] then [r] else
      var front, last := rows[..|rows| - 1], rows[|rows| - 1];
      if last.id < r.id then rows + [r]
      else if last.id == r.id then front + [r]
      else Put(front, r) + [last]
  }

  lemma {:induction false} PutTop(rows: seq<Row>, r: Row)
    requires Ascending(rows)
    ensures Put(rows, r) != []
    ensures forall i :: 0 <= i < |Put(rows, r)| ==>
      Put(rows, r)[i].id <= if rows != [] && r.id < rows[|rows| - 1].id then rows[|rows| - 1].id else r.id
  {
    if rows != [] && r.id < rows[|rows| - 1].id { PutTop(rows[..|rows| - 1], r); }
  }

  lemma {:induction false} PutAscends(rows: seq<Row>, r: Row)
    requires Ascending(rows)
    ensures Ascending(Put(rows, r))
  {
    if rows != [] && r.id < rows[|rows| - 1].id {
      PutAscends(rows[..|rows| - 1], r);
      PutTop(rows[..|rows| - 1], r);
    }
  }

  lemma UpdatesCommute(m: Holdings, a: int, x: Item, b: int, y: Item)
    requires a != b
    ensures m[a := x][b := y] == m[b := y][a := x]
  {
  }

  /** Putting a row into a listing is exactly a map update. */
  lemma {:induction false} PutIsUpdate(rows: seq<Row>, r: Row)
    ensures MapOf(Put(rows, r)) == MapOf(rows)[r.id := r.Payload()]
  {
    hide MapOf;
    if rows == [] {
      MapOfAppend([], r);
      assert [] + [r] == [r];
    } else {
      var front, last := rows[..|rows| - 1], rows[|rows| - 1];
      assert rows == front + [last];
      MapOfAppend(front, last);
      if last.id < r.id {
        MapOfAppend(rows, r);
      } else if last.id == r.id {
        MapOfAppend(front, r);
      } else {
        PutIsUpdate(front, r);
        MapOfAppend(Put(front, r), last);
        UpdatesCommute(MapOf(front), r.id, r.Payload(), last.id, last.Payload());
      }
    }
  }

  lemma PutAppend(rows: seq<Row>, last: Row, r: Row)
    requires r.id < last.id
    ensures Put(rows + [last], r) == Put(rows, r) + [last]
  {
    assert (rows + [last])[..|rows|] == rows;
  }

  lemma {:induction false} PutLeft(l: seq<Row>, m: Row, rest: seq<Row>, r: Row)
    requires r.id < m.id && forall i :: 0 <= i < |rest| ==> r.id < rest[i].id
    ensures Put(l + [m] + rest, r) == Put(l, r) + [m] + rest
  {
    if rest == [] {
      PutAppend(l, m, r);
      assert l + [m] + rest == l + [m];
    } else {
      var front, last := rest[..|rest| - 1], rest[|rest| - 1];
      PutLeft(l, m, front, r);
      assert l + [m] + rest == (l + [m] + front) + [last];
      PutAppend(l + [m] + front, last, r);
      assert Put(l, r) + [m] + front + [last] == Put(l, r) + [m] + rest;
    }
  }

  lemma {:induction false} PutRight(l: seq<Row>, m: Row, rest: seq<Row>, r: Row)
    requires m.id < r.id
    ensures Put(l + [m] + rest, r) == l + [m] + Put(rest, r)
  {
    var all := l + [m] + rest;
    if rest == [] {
      assert all == l + [m] && all[|all| - 1] == m;
    } else {
      var front, last := rest[..|rest| - 1], rest[|rest| - 1];
      assert all[..|all| - 1] == l + [m] + front && all[|all| - 1] == last;
      PutRight(l, m, front, r);
    }
  }

  lemma {:induction false} PutHere(l: seq<Row>, m: Row, rest: seq<Row>, r: Row)
    requires m.id == r.id && forall i :: 0 <= i < |rest| ==> r.id < rest[i].id
    ensures Put(l + [m] + rest, r) == l + [r] + rest
  {
    var all := l + [m] + rest;
    if rest == [] {
      assert all == l + [m] && all[|all| - 1] == m && all[..|all| - 1] == l;
    } else {
      var front, last := rest[..|rest| - 1], rest[|rest| - 1];
      PutHere(l, m, front, r);
      assert all == (l + [m] + front) + [last];
      PutAppend(l + [m] + front, last, r);
      assert l + [r] + front + [last] == l + [r] + rest;
    }
  }

  // ---------- the tree ----------

  /** stock_item_t. Two ghost fields describe the subtree: `Repr` is the set of its nodes and
      `rows` its listing from left to right. */
  class Node {
    const id: int
    var stock: int
    var price: int
    var left: Node?
    var right: Node?
    ghost var Repr: set<Node>
    ghost var rows: seq<Row>

    /** make_stock_item. */
    constructor (id: int, stock: int, price: int)
      ensures this.id == id && left == null && right == null && Repr == {this}
      ensures Valid() && rows == [Row(id, stock, price)]
    {
      this.id, this.stock, this.price := id, stock, price;
      left, right := null, null;
      Repr, rows := {this}, [Row(id, stock, price)];
    }

    function AsRow(): Row
      reads this
    {
      Row(id, stock, price)
    }

    /** Search order, and no node is reached twice. */
    ghost predicate Valid()
      reads this, Repr
      decreases Repr
    {
      && this in Repr
      && (left != null ==> left in Repr && left.Repr <= Repr && this !in left.Repr && left.Valid())
      && (right != null ==> right in Repr && right.Repr <= Repr && this !in right.Repr && right.Valid())
      && (left != null && right != null ==> left.Repr !! right.Repr)
      && rows == RowsOf(left) + [AsRow()] + RowsOf(right)
      && Ascending(rows)
    }
  }

  ghost function NodesOf(n: Node?): set<Node>
    reads n
  {
    if n == null then {} else n.Repr
  }

  ghost function RowsOf(n: Node?): seq<Row>
    reads n
  {
    if n == null then [] else n.rows
  }

  ghost predicate ValidTree(n: Node?)
    reads n, NodesOf(n)
  {
    n != null ==> n.Valid()
  }

  lemma SideRows(l: seq<Row>, m: Row, rest: seq<Row>)
    requires Ascending(l + [m] + rest)
    ensures forall r :: r in l ==> r.id < m.id
    ensures forall r :: r in rest ==> r.id > m.id
  {
    var rows := l + [m] + rest;
    assert rows[|l|] == m;
    forall r | r in l ensures r.id < m.id {
      var i :| 0 <= i < |l| && l[i] == r;
      assert rows[i] == r;
    }
    forall r | r in rest ensures r.id > m.id {
      var i :| 0 <= i < |rest| && rest[i] == r;
      assert rows[|l| + 1 + i] == r;
    }
  }

  // ---------- the tree operations ----------

  /** find_stock_item. */
  function Find(n: Node?, id: int): (found: Node?)
    requires n != null ==> n.Valid()
    reads n, if n == null then {} else n.Repr
    ensures found != null ==> found in NodesOf(n) && found.id == id
    decreases NodesOf(n)
  {
    if n == null then null
    else if id < n.id then Find(n.left, id)
    else if id > n.id then Find(n.right, id)
    else n
  }

  /** A search that fails means that no row has the id; one that succeeds gives that row's node. */
  lemma {:induction false} FindMeans(n: Node?, id: int)
    requires n != null ==> n.Valid()
    ensures Find(n, id) == null ==> forall r :: r in RowsOf(n) ==> r.id != id
    ensures Find(n, id) != null ==> Find(n, id).AsRow() in RowsOf(n)
    decreases NodesOf(n)
  {
    if n != null {
      SideRows(RowsOf(n.left), n.AsRow(), RowsOf(n.right));
      if id < n.id { FindMeans(n.left, id); }
      else if id > n.id { FindMeans(n.right, id); }
    }
  }

  lemma AroundNode(l: seq<Row>, m: Row, rest: seq<Row>)
    requires Ascending(l + [m] + rest)
    ensures forall i :: 0 <= i < |rest| ==> m.id < rest[i].id
  {
    var rows := l + [m] + rest;
    assert rows[|l|] == m;
    assert forall i :: 0 <= i < |rest| ==> rest[i] == rows[|l| + 1 + i];
  }

  /** Putting a row at a node goes to the side that the search goes to. */
  lemma PutBelowLeft(l: seq<Row>, m: Row, rest: seq<Row>, r: Row)
    requires Ascending(l + [m] + rest) && r.id < m.id
    ensures Put(l + [m] + rest, r) == Put(l, r) + [m] + rest && Ascending(Put(l, r) + [m] + rest)
  {
    AroundNode(l, m, rest);
    PutLeft(l, m, rest, r);
    PutAscends(l + [m] + rest, r);
  }

  lemma PutBelowRight(l: seq<Row>, m: Row, rest: seq<Row>, r: Row)
    requires Ascending(l + [m] + rest) && r.id > m.id
    ensures Put(l + [m] + rest, r) == l + [m] + Put(rest, r) && Ascending(l + [m] + Put(rest, r))
  {
    PutRight(l, m, rest, r);
    PutAscends(l + [m] + rest, r);
  }

  lemma PutAtNode(l: seq<Row>, m: Row, rest: seq<Row>, r: Row)
    requires Ascending(l + [m] + rest) && r.id == m.id
    ensures Put(l + [m] + rest, r) == l + [r] + rest && Ascending(l + [r] + rest)
  {
    AroundNode(l, m, rest);
    PutHere(l, m, rest, r);
    PutAscends(l + [m] + rest, r);
  }

  /** The assignment `node->left = t` after row r was put into the left subtree, whose listing
      was l. */
  method SetLeft(n: Node, t: Node, ghost l: seq<Row>, ghost r: Row)
    requires t.Valid() && n !in t.Repr && ValidTree(n.right)
    requires n.right != null ==> n !in n.right.Repr && n.right.Repr !! t.Repr
    requires Ascending(l + [n.AsRow()] + RowsOf(n.right)) && t.rows == Put(l, r) && r.id < n.id
    modifies n`left, n`Repr, n`rows
    ensures n.Repr == {n} + t.Repr + old(NodesOf(n.right)) && n.Valid()
    ensures n.rows == Put(l + [n.AsRow()] + old(RowsOf(n.right)), r)
  {
    hide Ascending, Put;
    ghost var m, right := n.AsRow(), n.right;
    PutBelowLeft(l, m, RowsOf(right), r);
    ghost var rows := t.rows + [m] + RowsOf(right);
    n.left := t;
    n.Repr := {n} + t.Repr + NodesOf(right);
    n.rows := rows;
    assert n.AsRow() == m && ValidTree(right) && t.Valid();
  }

  /** The assignment `node->right = t`, in the same way. */
  method SetRight(n: Node, t: Node, ghost rest: seq<Row>, ghost r: Row)
    requires t.Valid() && n !in t.Repr && ValidTree(n.left)
    requires n.left != null ==> n !in n.left.Repr && n.left.Repr !! t.Repr
    requires Ascending(RowsOf(n.left) + [n.AsRow()] + rest) && t.rows == Put(rest, r) && r.id > n.id
    modifies n`right, n`Repr, n`rows
    ensures n.Repr == {n} + old(NodesOf(n.left)) + t.Repr && n.Valid()
    ensures n.rows == Put(old(RowsOf(n.left)) + [n.AsRow()] + rest, r)
  {
    hide Ascending, Put;
    ghost var m, left := n.AsRow(), n.left;
    PutBelowRight(RowsOf(left), m, rest, r);
    ghost var rows := RowsOf(left) + [m] + t.rows;
    n.right := t;
    n.Repr := {n} + NodesOf(left) + t.Repr;
    n.rows := rows;
    assert n.AsRow() == m && ValidTree(left) && t.Valid();
  }

  /** A payload write at one node; its ghost listing follows. */
  method SetPayload(n: Node, stock: int, price: int)
    requires n.Valid()
    modifies n`stock, n`price, n`rows
    ensures n.Valid() && n.rows == Put(old(n.rows), Row(n.id, stock, price))
  {
    hide Ascending, Put;
    ghost var left, right, r := n.left, n.right, Row(n.id, stock, price);
    assert n.rows == RowsOf(left) + [n.AsRow()] + RowsOf(right);
    PutAtNode(RowsOf(left), n.AsRow(), RowsOf(right), r);
    ghost var rows := RowsOf(left) + [r] + RowsOf(right);
    assert ValidTree(left) && ValidTree(right);
    n.stock := stock;
    n.price := price;
    n.rows := rows;
    assert n.AsRow() == r && ValidTree(left) && ValidTree(right);
  }

  lemma PutNone(r: Row)
    ensures Put([], r) == [r]
  {
  }

  /** upsert_stock_item: rewires the path to a new leaf, or overwrites one payload. */
  method UpsertItem(n: Node?, id: int, stock: int, price: int) returns (m: Node)
    requires ValidTree(n)
    modifies NodesOf(n)
    ensures m.Valid() && (n != null ==> m == n)
    ensures fresh(m.Repr - old(NodesOf(n)))
    ensures m.rows == Put(old(RowsOf(n)), Row(id, stock, price))
    decreases NodesOf(n)
  {
    hide Ascending, Put;
    if n == null {
      PutNone(Row(id, stock, price));
      m := new Node(id, stock, price);
      return;
    }
    m := n;
    ghost var left, right, r := n.left, n.right, Row(id, stock, price);
    ghost var l, rest := RowsOf(left), RowsOf(right);
    assert ValidTree(left) && ValidTree(right) && NodesOf(left) !! NodesOf(right);
    if id < n.id {
      var t := UpsertItem(n.left, id, stock, price);
      assert ValidTree(right);
      SetLeft(n, t, l, r);
    } else if id > n.id {
      var t := UpsertItem(n.right, id, stock, price);
      assert ValidTree(left);
      SetRight(n, t, rest, r);
    } else {
      SetPayload(n, stock, price);
    }
  }

  /** The assignment to `item->left_stock`. The way down to the item is walked only to let the
      ghost listings of the nodes above it follow the change. */
  method WriteStock(n: Node, item: Node, stock: int)
    requires n.Valid() && item == Find(n, item.id)
    modifies n.Repr
    ensures n.Valid() && n.Repr <= old(n.Repr)
    ensures n.rows == Put(old(n.rows), Row(item.id, stock, old(item.price)))
    decreases n.Repr
  {
    hide Ascending, Put;
    ghost var left, right, r := n.left, n.right, Row(item.id, stock, item.price);
    ghost var l, rest := RowsOf(left), RowsOf(right);
    assert ValidTree(left) && ValidTree(right) && NodesOf(left) !! NodesOf(right);
    if item.id < n.id {
      WriteStock(n.left, item, stock);
      assert ValidTree(right);
      SetLeft(n, n.left, l, r);
    } else if item.id > n.id {
      WriteStock(n.right, item, stock);
      assert ValidTree(left);
      SetRight(n, n.right, rest, r);
    } else {
      SetPayload(n, stock, n.price);
    }
  }

  lemma ExtendNone(l: Log)
    ensures Extend(l, []) == l
  {
    if l.TextLog? { assert l.text + "" == l.text; }
  }

  /** Visiting all rows is visiting the first part and then the second. */
  lemma TwoParts(v: Visitor, start: Log, rows: seq<Row>, a: seq<Row>, b: seq<Row>)
    requires rows == a + b && GoodRows(rows)
    ensures Certain(v, start, rows) ==> Certain(v, start, a) && Certain(v, Extend(start, a), b)
    ensures GoodRows(a) && GoodRows(b) && (|a| == 1 ==> a[0].Good())
  {
    ExtendSplit(start, a, b);
    assert forall i :: 0 <= i < |a| ==> a[i] == rows[i];
    assert forall i :: 0 <= i < |b| ==> b[i] == rows[|a| + i];
  }

  lemma PrefixOfPart(rows: seq<Row>, a: seq<Row>, b: seq<Row>, seen: seq<Row>)
    requires rows == a + b && seen <= a && seen != a
    ensures seen <= rows && seen != rows
  {
    assert seen == a[..|seen|] && a[..|a|] == a;
  }

  lemma WalkEnd(start: Log, rows: seq<Row>, a: seq<Row>, b: seq<Row>, more: seq<Row>)
    requires rows == a + b && more <= b
    ensures a + more <= rows && (more == b <==> a + more == rows)
    ensures Extend(Extend(start, a), more) == Extend(start, a + more)
  {
    ExtendSplit(start, a, more);
    if a + more == rows { assert |more| == |b|; }
  }

  /** stock_store_inorder_walk: visits the rows in listing order, each once, and stops after the
      first visit that fails; `seen` is the rows whose visits succeeded. */
  method Walk(n: Node?, v: Visitor) returns (s: Status, ghost seen: seq<Row>)
    requires ValidTree(n) && GoodRows(RowsOf(n)) && Ready(v)
    requires forall x :: x in NodesOf(n) ==> x !in Frame(v)
    modifies Frame(v)
    ensures Ready(v) && (forall o :: o in Frame(v) ==> o in old(Frame(v)) || fresh(o))
    ensures seen <= RowsOf(n) && (s == Ok <==> seen == RowsOf(n))
    ensures Produced(v) == Extend(old(Produced(v)), seen)
    ensures Certain(v, old(Produced(v)), RowsOf(n)) ==> s == Ok
    ensures s == Ok || s == Io || s == Internal
    decreases NodesOf(n), 1
  {
    hide Ascending, Put;
    ghost var start, rows := Produced(v), RowsOf(n);
    if n == null {
      ExtendNone(start);
      s, seen := Ok, [];
      return;
    }
    ghost var l, tail := RowsOf(n.left), [n.AsRow()] + RowsOf(n.right);
    TwoParts(v, start, rows, l, tail);
    s, seen := Walk(n.left, v);
    if s != Ok {
      PrefixOfPart(rows, l, tail, seen);
      return;
    }
    ghost var more;
    s, more := WalkTail(n, v);
    WalkEnd(start, rows, l, tail, more);
    seen := l + more;
  }

  /** The second half of the walk: the node itself, then its right subtree. */
  method WalkTail(n: Node, v: Visitor) returns (s: Status, ghost seen: seq<Row>)
    requires n.Valid() && GoodRows([n.AsRow()] + RowsOf(n.right)) && Ready(v)
    requires forall x :: x in n.Repr ==> x !in Frame(v)
    modifies Frame(v)
    ensures Ready(v) && (forall o :: o in Frame(v) ==> o in old(Frame(v)) || fresh(o))
    ensures seen <= [n.AsRow()] + RowsOf(n.right) && (s == Ok <==> seen == [n.AsRow()] + RowsOf(n.right))
    ensures Produced(v) == Extend(old(Produced(v)), seen)
    ensures Certain(v, old(Produced(v)), [n.AsRow()] + RowsOf(n.right)) ==> s == Ok
    ensures s == Ok || s == Io || s == Internal
    decreases n.Repr, 0
  {
    hide Ascending, Put;
    ghost var start, rows, m, rest := Produced(v), [n.AsRow()] + RowsOf(n.right), n.AsRow(), RowsOf(n.right);
    TwoParts(v, start, rows, [m], rest);
    s := Visit(v, n.AsRow());
    if s != Ok {
      ExtendNone(start);
      seen := [];
      return;
    }
    ghost var more;
    s, more := Walk(n.right, v);
    WalkEnd(start, rows, [m], rest, more);
    seen := [m] + more;
  }

  lemma RowInMap(rows: seq<Row>, r: Row)
    requires Ascending(rows) && r in rows
    ensures InMap(r, MapOf(rows))
  {
    MapOfValues(rows);
    var i :| 0 <= i < |rows| && rows[i] == r;
  }

  lemma NoRowNotInMap(rows: seq<Row>, id: int)
    requires forall r :: r in rows ==> r.id != id
    ensures id !in MapOf(rows)
  {
    hide MapOf;
    MapOfKeys(rows);
    forall k | k in MapOf(rows) ensures k != id {
      var i :| 0 <= i < |rows| && rows[i].id == k;
      assert rows[i] in rows;
    }
  }

  lemma NewPayload(rows: seq<Row>, r: Row)
    requires Ascending(rows)
    ensures MapOf(Put(rows, r)) == MapOf(rows)[r.id := r.Payload()]
    ensures Ascending(Put(rows, r))
  {
    PutIsUpdate(rows, r);
    PutAscends(rows, r);
  }

  /** stock_store_t, without its mutex (see LockedStore). */
  class StockStore {
    var root: Node?

    ghost predicate Valid()
      reads this, root, NodesOf(root)
    {
      ValidTree(root)
    }

    ghost function Repr(): set<object>
      reads this, root
    {
      {this} + NodesOf(root)
    }

    ghost function Listed(): (rows: seq<Row>)
      requires Valid()
      reads this, root, NodesOf(root)
      ensures Ascending(rows)
    {
      RowsOf(root)
    }

    /** The finite map that the tree stands for. */
    ghost function Contents(): Holdings
      requires Valid()
      reads this, root, NodesOf(root)
    {
      MapOf(Listed())
    }

    /** stock_store_init. */
    constructor ()
      ensures Valid() && fresh(Repr()) && Contents() == map[]
    {
      root := null;
    }

    /** stock_store_find_nolock. */
    method FindNolock(id: int) returns (s: Status, item: Node?)
      requires Valid()
      ensures s == Ok || s == NotFound
      ensures s == Ok <==> id in Contents()
      ensures s == Ok ==> item != null && item in NodesOf(root) && item.id == id
      ensures s == Ok ==> Contents()[id] == Item(item.stock, item.price)
    {
      FindMeans(root, id);
      item := Find(root, id);
      if item == null {
        NoRowNotInMap(Listed(), id);
        return NotFound, item;
      }
      RowInMap(Listed(), item.AsRow());
      return Ok, item;
    }

    /** stock_store_upsert_nolock. */
    method UpsertNolock(id: int, stock: int, price: int) returns (s: Status)
      requires Valid()
      modifies Repr()
      ensures Valid() && fresh(Repr() - old(Repr()))
      ensures s == Ok && Contents() == old(Contents())[id := Item(stock, price)]
    {
      hide Ascending, Put, MapOf;
      NewPayload(Listed(), Row(id, stock, price));
      var newRoot := UpsertItem(root, id, stock, price);
      root := newRoot;
      s := Ok;
    }

    /** stock_store_apply_delta_nolock: changes one stock, or nothing. */
    method ApplyDeltaNolock(id: int, delta: int) returns (s: Status)
      requires Valid() && DeltaFits(Contents(), id, delta)
      modifies Repr()
      ensures Valid() && fresh(Repr() - old(Repr()))
      ensures (Contents(), s) == ApplyDelta(old(Contents()), id, delta)
    {
      hide Ascending, Put, MapOf;
      FindMeans(root, id);
      var item := Find(root, id);
      FoundOrNot(item, id);
      if item == null {
        return NotFound;
      }
      if delta < 0 && item.stock < -delta {
        return Insufficient;
      }
      AddToStock(item, delta);
      return Ok;
    }

    /** What the pointer that find_stock_item returns says about the map. */
    lemma FoundOrNot(item: Node?, id: int)
      requires Valid() && item == Find(root, id)
      ensures item == null <==> id !in Contents()
      ensures item != null ==> item.id == id && Contents()[id] == Item(item.stock, item.price)
    {
      hide Ascending, MapOf;
      FindMeans(root, id);
      if item == null { NoRowNotInMap(Listed(), id); } else { RowInMap(Listed(), item.AsRow()); }
    }

    /** `item->left_stock += delta`. */
    method AddToStock(item: Node, delta: int)
      requires Valid() && item == Find(root, item.id)
      modifies Repr()
      ensures Valid() && fresh(Repr() - old(Repr()))
      ensures Contents() == old(Contents())[item.id := Item(old(item.stock) + delta, old(item.price))]
    {
      hide Ascending, Put, MapOf;
      NewPayload(Listed(), Row(item.id, item.stock + delta, item.price));
      WriteStock(root, item, item.stock + delta);
    }

    /** stock_store_count. */
    method Count() returns (n: int)
      requires Valid() && GoodStore(Contents())
      ensures n == |Contents()|
    {
      var c := new Counter();
      GoodBothWays(Listed());
      MapOfValues(Listed());
      var s, seen := Walk(root, Visitor.Count(c));
      n := c.n;
    }
  }
}
