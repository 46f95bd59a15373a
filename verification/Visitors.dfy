/** The three callbacks that the inorder walk is given, with the argument each one mutates. */
module Visitors {
  import opened Text
  import opened Stock
  import opened Response

  /** A FILE opened for writing: everything printed to it so far. A print can fail unless the
      stream's disk is free of faults. */
  class Stream {
    const reliable: bool
    var text: string

    constructor (reliable: bool)
      ensures text == "" && this.reliable == reliable
    {
      this.reliable := reliable;
      text := "";
    }
  }

  class Counter {
    var n: int

    constructor ()
      ensures n == 0
    {
      n := 0;
    }
  }

  /** A callback with its `arg`: write_snapshot_node, append_stock_line, count_stock_item. */
  datatype Visitor = Print(file: Stream) | Show(response: Builder) | Count(counter: Counter)

  ghost function Frame(v: Visitor): set<object>
    reads if v.Show? then {v.response} else {}
  {
    match v
    case Print(f) => {f}
    case Show(b) => {b, b.data}
    case Count(c) => {c}
  }

  ghost predicate Ready(v: Visitor)
    reads if v.Show? then {v.response} else {}
  {
    v.Show? ==> v.response.Valid()
  }

  /** What a visitor has accumulated. */
  datatype Log = TextLog(text: string) | CountLog(n: int)

  ghost function Produced(v: Visitor): (l: Log)
    requires Ready(v)
    reads if v.Show? then {v.response} else {}, Frame(v)
    ensures l.TextLog? <==> !v.Count?
  {
    match v
    case Print(f) => TextLog(f.text)
    case Show(b) => TextLog(b.Text())
    case Count(c) => CountLog(c.n)
  }

  /** Visiting rows adds their printed lines, or their number. */
  function Extend(l: Log, rows: seq<Row>): Log {
    match l
    case TextLog(t) => TextLog(t + RowsText(rows))
    case CountLog(n) => CountLog(n + |rows|)
  }

  lemma {:induction false} RowsTextSplit(a: seq<Row>, b: seq<Row>)
    ensures RowsText(a + b) == RowsText(a) + RowsText(b)
  {
    if a == [] {
      assert a + b == b;
    } else {
      assert (a + b)[1..] == a[1..] + b;
      RowsTextSplit(a[1..], b);
    }
  }

  lemma ExtendSplit(l: Log, a: seq<Row>, b: seq<Row>)
    ensures Extend(l, a + b) == Extend(Extend(l, a), b)
  {
    RowsTextSplit(a, b);
    if l.TextLog? {
      assert l.text + (RowsText(a) + RowsText(b)) == l.text + RowsText(a) + RowsText(b);
    }
  }

  /** No visit of these rows can fail. */
  ghost predicate Certain(v: Visitor, l: Log, rows: seq<Row>) {
    match v
    case Print(f) => f.reliable
    case Show(b) => l.TextLog? && |Extend(l, rows).text| < SIZE_MAX
    case Count(c) => true
  }

  lemma RowTextShort(r: Row)
    requires InInt(r.id) && InInt(r.stock) && InInt(r.price)
    ensures |RowText(r)| <= 36 && '\0' !in RowText(r)
  {
    IntTextLength(r.id);
    IntTextLength(r.stock);
    IntTextLength(r.price);
  }

  method Visit(v: Visitor, r: Row) returns (s: Status)
    requires Ready(v) && InInt(r.id) && InInt(r.stock) && InInt(r.price)
    modifies Frame(v)
    ensures Ready(v) && (forall o :: o in Frame(v) ==> o in old(Frame(v)) || fresh(o))
    ensures s == Ok ==> Produced(v) == Extend(old(Produced(v)), [r])
    ensures s != Ok ==> Produced(v) == old(Produced(v))
    ensures Certain(v, old(Produced(v)), [r]) ==> s == Ok
    ensures s == Ok || s == Io || s == Internal
  {
    assert [r][1..] == [] && RowsText([r]) == RowText(r) + RowsText([]) == RowText(r);
    match v {
      case Print(f) =>
        var failed: bool := *;
        if failed && !f.reliable {
          return Io;
        }
        f.text := f.text + RowText(r);
        s := Ok;
      case Show(b) =>
        RowTextShort(r);
        s := b.AppendF(RowText(r));
      case Count(c) =>
        c.n := c.n + 1;
        s := Ok;
    }
  }
}
