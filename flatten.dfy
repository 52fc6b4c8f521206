/** `flattern_parts`: the nested view turned into table rows, in pre-order,
    each named with its hierarchical number ("1", "1.1", "1.2", "2"). */
module Flatten {
  import opened Text
  import opened Crud

  /** One output row: name, price, quantity and cost. */
  datatype Row = Row(name: string, price: int, quantity: int, cost: int)

  /** The number of nodes of a tree and of a list of trees. */
  function Size(t: PartTree): nat
    decreases t, 1
  {
    1 + SizeAll(t.children)
  }

  function SizeAll(ts: seq<PartTree>): nat
    decreases ts, 0
  {
    if ts == [] then 0 else Size(ts[0]) + SizeAll(ts[1..])
  }

  /** The prefix of the `idx`-th child (counting from 1) under `prefix`. */
  function ChildPrefix(prefix: string, idx: nat): string {
    if prefix != "" then prefix + "." + NatStr(idx) else NatStr(idx)
  }

  /** Different children of one node get different prefixes. */
  lemma {:induction false} ChildPrefixDistinct(prefix: string, i: nat, j: nat)
    requires i != j
    ensures ChildPrefix(prefix, i) != ChildPrefix(prefix, j)
  {
    NatStrRoundTrip(i);
    NatStrRoundTrip(j);
    if prefix != "" {
      assert ChildPrefix(prefix, i)[|prefix| + 1..] == NatStr(i);
      assert ChildPrefix(prefix, j)[|prefix| + 1..] == NatStr(j);
    }
  }

  /** The row `traverse` appends for node `t` under `prefix`. */
  function MakeRow(t: PartTree, prefix: string): Row {
    Row(prefix + ". " + t.name, t.unitPrice, t.quantity, t.totalPrice)
  }

  /** The rows of `t` and its descendants: its own row, then each child's
      block in order. */
  function TreeRows(t: PartTree, prefix: string): (rows: seq<Row>)
    ensures |rows| == Size(t) && rows[0] == MakeRow(t, prefix)
    decreases t, 1
  {
    [MakeRow(t, prefix)] + ChildRows(t.children, prefix, 1)
  }

  /** The blocks of the trees `ts`, numbered from `start` under `prefix`. */
  function ChildRows(ts: seq<PartTree>, prefix: string, start: nat): (rows: seq<Row>)
    ensures |rows| == SizeAll(ts)
    decreases ts, 0
  {
    if ts == [] then []
    else TreeRows(ts[0], ChildPrefix(prefix, start)) + ChildRows(ts[1..], prefix, start + 1)
  }

  /** The rows of a forest whose roots are numbered from `start`. */
  function ForestRows(ts: seq<PartTree>, start: nat): (rows: seq<Row>)
    ensures |rows| == SizeAll(ts)
  {
    if ts == [] then []
    else TreeRows(ts[0], NatStr(start)) + ForestRows(ts[1..], start + 1)
  }

  lemma AppendTail<T>(a: seq<T>, b: seq<T>)
    requires a != []
    ensures a + b != [] && (a + b)[0] == a[0] && (a + b)[1..] == a[1..] + b
  {
  }

  lemma TreeRowsCons(t: PartTree, prefix: string)
    ensures TreeRows(t, prefix) == [MakeRow(t, prefix)] + ChildRows(t.children, prefix, 1)
  {
  }

  lemma ChildRowsCons(ts: seq<PartTree>, prefix: string, start: nat)
    requires ts != []
    ensures ChildRows(ts, prefix, start) == TreeRows(ts[0], ChildPrefix(prefix, start)) + ChildRows(ts[1..], prefix, start + 1)
  {
  }

  /* The next three lemmas only regroup or substitute concatenations. They
     are stated with every part named so that the proofs about rows that
     use them match their requires term for term, instead of reasoning
     about sequences element by element. */

  /** Regrouping `x + (y + z)` as `(x + y) + z` when all four are named. */
  lemma Regroup<T>(whole: seq<T>, x: seq<T>, rest: seq<T>, y: seq<T>, z: seq<T>, front: seq<T>)
    requires whole == x + rest && rest == y + z && front == x + y
    ensures whole == front + z
  {
    assert x + (y + z) == (x + y) + z;
  }

  /** Putting a head in front of three consecutive blocks. */
  lemma PrependBlocks<T>(whole: seq<T>, head: seq<T>, rest: seq<T>, x: seq<T>, y: seq<T>, z: seq<T>)
    requires whole == head + rest && rest == x + y + z
    ensures whole == head + x + y + z
  {
    assert head + (x + y + z) == head + x + y + z;
  }

  /** Three blocks equal to three others make equal concatenations. */
  lemma SameBlocks<T>(w: seq<T>, w': seq<T>, x: seq<T>, x': seq<T>, y: seq<T>, y': seq<T>, z: seq<T>, z': seq<T>)
    requires w == w' && x == x' && y == y' && z == z' && w' == x' + y' + z'
    ensures w == x + y + z
  {
  }

  lemma AppendAssoc(a: seq<Row>, b: seq<Row>, c: seq<Row>)
    ensures a + (b + c) == (a + b) + c
  {
  }

  /** The rows of two lists of trees one after the other are the rows of
      the first, then those of the second numbered on from where the first
      stopped. */
  lemma {:induction false} ChildRowsAppend(a: seq<PartTree>, b: seq<PartTree>, prefix: string, start: nat)
    ensures ChildRows(a + b, prefix, start) == ChildRows(a, prefix, start) + ChildRows(b, prefix, start + |a|)
  {
    if a == [] {
      assert a + b == b;
    } else {
      ChildRowsAppend(a[1..], b, prefix, start + 1);
      AppendTail(a, b);
      ChildRowsCons(a + b, prefix, start);
      ChildRowsCons(a, prefix, start);
      assert start + 1 + |a[1..]| == start + |a|;
      Regroup(ChildRows(a + b, prefix, start), TreeRows(a[0], ChildPrefix(prefix, start)),
              ChildRows(a[1..] + b, prefix, start + 1), ChildRows(a[1..], prefix, start + 1),
              ChildRows(b, prefix, start + |a|), ChildRows(a, prefix, start));
    }
  }

  /** The rows of a list of trees are the rows of the trees before the
      `j`-th (from 0), then the `j`-th tree's block, numbered `start + j`,
      then the rows of the trees after it. */
  lemma {:induction false} ChildRowsSplit(ts: seq<PartTree>, prefix: string, start: nat, j: int)
    requires 0 <= j < |ts|
    ensures ChildRows(ts, prefix, start) ==
      ChildRows(ts[..j], prefix, start) + TreeRows(ts[j], ChildPrefix(prefix, start + j)) +
      ChildRows(ts[j + 1..], prefix, start + j + 1)
  {
    assert ts == ts[..j] + ts[j..];
    ChildRowsAppend(ts[..j], ts[j..], prefix, start);
    assert ts[j..][0] == ts[j] && ts[j..][1..] == ts[j + 1..];
    ChildRowsCons(ts[j..], prefix, start + j);
    var before := ChildRows(ts[..j], prefix, start);
    var mid := TreeRows(ts[j], ChildPrefix(prefix, start + j));
    Regroup(ChildRows(ts, prefix, start), before, ChildRows(ts[j..], prefix, start + j),
            mid, ChildRows(ts[j + 1..], prefix, start + j + 1), before + mid);
  }

  /** In the rows of `t` under `prefix`: `t`'s own row first, then the
      blocks of its children in order, the `j`-th (from 0) numbered
      `prefix.(j + 1)` and starting after the blocks of the earlier ones. */
  lemma {:induction false} TreeChildBlock(t: PartTree, prefix: string, j: int)
    requires 0 <= j < |t.children|
    ensures TreeRows(t, prefix) ==
      [MakeRow(t, prefix)] + ChildRows(t.children[..j], prefix, 1) +
      TreeRows(t.children[j], ChildPrefix(prefix, j + 1)) + ChildRows(t.children[j + 1..], prefix, j + 2)
  {
    ChildRowsSplit(t.children, prefix, 1, j);
    var before := ChildRows(t.children[..j], prefix, 1);
    var mid := TreeRows(t.children[j], ChildPrefix(prefix, j + 1));
    var after := ChildRows(t.children[j + 1..], prefix, j + 2);
    var own := [MakeRow(t, prefix)];
    TreeRowsCons(t, prefix);
    PrependBlocks(TreeRows(t, prefix), own, ChildRows(t.children, prefix, 1), before, mid, after);
  }

  /** The roots are numbered exactly as the children of an empty prefix. */
  lemma {:induction false} ForestRowsAreChildRows(ts: seq<PartTree>, start: nat)
    ensures ForestRows(ts, start) == ChildRows(ts, "", start)
  {
    if ts != [] {
      ForestRowsAreChildRows(ts[1..], start + 1);
    }
  }

  /** In the rows of a forest, the `k`-th root's block (from 0) is numbered
      `start + k` and comes after the blocks of the earlier roots. */
  lemma {:induction false} ForestBlock(ts: seq<PartTree>, start: nat, k: int)
    requires 0 <= k < |ts|
    ensures ForestRows(ts, start) ==
      ForestRows(ts[..k], start) + TreeRows(ts[k], NatStr(start + k)) + ForestRows(ts[k + 1..], start + k + 1)
  {
    ForestRowsAreChildRows(ts, start);
    ForestRowsAreChildRows(ts[..k], start);
    ForestRowsAreChildRows(ts[k + 1..], start + k + 1);
    ChildRowsSplit(ts, "", start, k);
    assert ChildPrefix("", start + k) == NatStr(start + k);
    SameBlocks(ForestRows(ts, start), ChildRows(ts, "", start),
               ForestRows(ts[..k], start), ChildRows(ts[..k], "", start),
               TreeRows(ts[k], NatStr(start + k)), TreeRows(ts[k], ChildPrefix("", start + k)),
               ForestRows(ts[k + 1..], start + k + 1), ChildRows(ts[k + 1..], "", start + k + 1));
  }

  /** One turn of `traverse`'s loop: the `idx`-th child's block moves from
      the rows still to come to the rows already appended. */
  lemma {:induction false} ChildRowsStep(done: seq<Row>, cs: seq<PartTree>, prefix: string, idx: int)
    requires 1 <= idx <= |cs|
    ensures (done + TreeRows(cs[idx - 1], ChildPrefix(prefix, idx))) + ChildRows(cs[idx..], prefix, idx + 1) ==
      done + ChildRows(cs[idx - 1..], prefix, idx)
  {
    assert cs[idx - 1..][0] == cs[idx - 1] && cs[idx - 1..][1..] == cs[idx..];
    AppendAssoc(done, TreeRows(cs[idx - 1], ChildPrefix(prefix, idx)), ChildRows(cs[idx..], prefix, idx + 1));
  }

  /** One turn of `flattern_parts`' loop, likewise for the `idx`-th root. */
  lemma {:induction false} ForestRowsStep(done: seq<Row>, ts: seq<PartTree>, idx: int)
    requires 1 <= idx <= |ts|
    ensures (done + TreeRows(ts[idx - 1], NatStr(idx))) + ForestRows(ts[idx..], idx + 1) ==
      done + ForestRows(ts[idx - 1..], idx)
  {
    assert ts[idx - 1..][0] == ts[idx - 1] && ts[idx - 1..][1..] == ts[idx..];
    AppendAssoc(done, TreeRows(ts[idx - 1], NatStr(idx)), ForestRows(ts[idx..], idx + 1));
  }

  /** The `rows` list `traverse` appends to. */
  class RowList {
    var rows: seq<Row>

    constructor ()
      ensures rows == []
    {
      rows := [];
    }
  }

  /** `traverse(part, prefix)`: append the node's row, then traverse each
      child with its numbered prefix. */
  method Traverse(out: RowList, t: PartTree, prefix: string)
    modifies out
    ensures out.rows == old(out.rows) + TreeRows(t, prefix)
    decreases t
  {
    out.rows := out.rows + [MakeRow(t, prefix)];
    var idx := 1;
    while idx <= |t.children|
      invariant 1 <= idx <= |t.children| + 1
      invariant out.rows + ChildRows(t.children[idx - 1..], prefix, idx) == old(out.rows) + TreeRows(t, prefix)
    {
      var child := t.children[idx - 1];
      var childPrefix := if prefix != "" then prefix + "." + NatStr(idx) else NatStr(idx);
      ChildRowsStep(out.rows, t.children, prefix, idx);
      Traverse(out, child, childPrefix);
      idx := idx + 1;
    }
  }

  /** `flattern_parts(parts)`: traverse each root with prefix `f"{idx}"`,
      counting from 1. */
  method FlattenParts(parts: seq<PartTree>) returns (rows: seq<Row>)
    ensures rows == ForestRows(parts, 1)
  {
    var out := new RowList();
    var idx := 1;
    while idx <= |parts|
      invariant 1 <= idx <= |parts| + 1
      invariant out.rows + ForestRows(parts[idx - 1..], idx) == ForestRows(parts, 1)
    {
      ForestRowsStep(out.rows, parts, idx);
      Traverse(out, parts[idx - 1], NatStr(idx));
      idx := idx + 1;
    }
    rows := out.rows;
  }
}
