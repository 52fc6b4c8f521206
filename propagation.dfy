/** `update_parent_prices`: the walk up the parent chain that reprices each
    ancestor as the sum of its direct children. */
module PricePropagation {
  import opened Models

  /** The walk may start: its first id is falsy or names a record. */
  predicate StartsInTable(parts: Table, pid: Option<int>) {
    !Truthy(pid) || pid.value in parts
  }

  /** The measure the walk decreases: ids shrink on the way up. */
  function Rank(pid: Option<int>): nat {
    if pid.Some? && pid.value > 0 then pid.value else 0
  }

  /** The ids the walk visits from `pid`, bottom first. */
  function Chain(parts: Table, pid: Option<int>): (c: seq<int>)
    requires Linked(parts) && StartsInTable(parts, pid)
    ensures forall i :: 0 <= i < |c| ==> c[i] in parts && c[i] <= Rank(pid)
    decreases Rank(pid)
  {
    if !Truthy(pid) then [] else [pid.value] + Chain(parts, parts[pid.value].parentId)
  }

  /** The walk started at `pid` visits `pid`'s record, then each parent in
      turn with strictly smaller ids, and stops after a root: it runs once
      per node from `pid` up to its root. */
  lemma {:induction false} ChainShape(parts: Table, pid: Option<int>)
    requires Linked(parts) && StartsInTable(parts, pid)
    ensures Truthy(pid) <==> Chain(parts, pid) != []
    ensures Truthy(pid) ==> Chain(parts, pid)[0] == pid.value
    ensures forall i :: 0 <= i < |Chain(parts, pid)| - 1 ==>
      parts[Chain(parts, pid)[i]].parentId == Some(Chain(parts, pid)[i + 1])
    ensures forall i, j :: 0 <= i < j < |Chain(parts, pid)| ==> Chain(parts, pid)[i] > Chain(parts, pid)[j]
    ensures Chain(parts, pid) != [] ==> parts[Chain(parts, pid)[|Chain(parts, pid)| - 1]].parentId == None
    decreases Rank(pid)
  {
    if Truthy(pid) {
      var q := parts[pid.value].parentId;
      ChainShape(parts, q);
    }
  }

  /** The number of ancestors of record `p`. */
  function Depth(parts: Table, p: int): nat
    requires Linked(parts) && p in parts
    decreases p
  {
    if parts[p].parentId == None then 0 else 1 + Depth(parts, parts[p].parentId.value)
  }

  /** The walk from an existing record `p` runs exactly depth-of-`p`-plus-one
      times: once for `p` and once for each ancestor. */
  lemma {:induction false} ChainLength(parts: Table, p: int)
    requires Linked(parts) && p in parts
    ensures StartsInTable(parts, Some(p))
    ensures |Chain(parts, Some(p))| == Depth(parts, p) + 1
    decreases p
  {
    var q := parts[p].parentId;
    if q != None {
      ChainLength(parts, q.value);
    }
  }

  /** Whoever's parent is on the chain: the chain is closed upwards. */
  lemma {:induction false} ChainClosedUpward(parts: Table, pid: Option<int>)
    requires Linked(parts) && StartsInTable(parts, pid)
    ensures forall c :: c in Chain(parts, pid) && parts[c].parentId.Some? ==> parts[c].parentId.value in Chain(parts, pid)
    decreases Rank(pid)
  {
    if Truthy(pid) {
      ChainClosedUpward(parts, parts[pid.value].parentId);
    }
  }

  lemma {:induction false} ChainSameLinks(a: Table, b: Table, pid: Option<int>)
    requires Linked(a) && Linked(b) && SameLinks(a, b) && StartsInTable(a, pid)
    ensures Chain(a, pid) == Chain(b, pid)
    decreases Rank(pid)
  {
    if Truthy(pid) {
      ChainSameLinks(a, b, a[pid.value].parentId);
    }
  }

  /** The table after the walk from `pid`: each visited record's unit price
      set to the sum of its children's prices at the moment it is visited. */
  function Propagated(parts: Table, n: int, pid: Option<int>): (r: Table)
    requires WellFormed(parts, n) && StartsInTable(parts, pid)
    ensures WellFormed(r, n) && SameLinks(parts, r)
    decreases Rank(pid)
  {
    if !Truthy(pid) then parts
    else
      var p := pid.value;
      var updated := parts[p := parts[p].(unitPrice := ChildSum(parts, p, n))];
      assert SameLinks(parts, updated);
      Propagated(updated, n, parts[p].parentId)
  }

  /** The walk writes only unit prices, and only those of the records on
      its chain: names, quantities, parent links and every other record
      are untouched. */
  lemma {:induction false} PropagatedFrame(parts: Table, n: int, pid: Option<int>)
    requires WellFormed(parts, n) && StartsInTable(parts, pid)
    ensures forall k {:trigger Propagated(parts, n, pid)[k]} :: k in parts ==>
      Propagated(parts, n, pid)[k] == parts[k].(unitPrice := Propagated(parts, n, pid)[k].unitPrice)
    ensures forall k {:trigger Propagated(parts, n, pid)[k]} :: k in parts && k !in Chain(parts, pid) ==>
      Propagated(parts, n, pid)[k] == parts[k]
    decreases Rank(pid)
  {
    if Truthy(pid) {
      var p := pid.value;
      var q := parts[p].parentId;
      var updated := parts[p := parts[p].(unitPrice := ChildSum(parts, p, n))];
      assert SameLinks(parts, updated);
      ChainSameLinks(parts, updated, q);
      PropagatedFrame(updated, n, q);
      assert Propagated(updated, n, q) == Propagated(parts, n, pid);
    }
  }

  /** A falsy start id makes the walk a no-op. */
  lemma {:induction false} PropagatedNoOp(parts: Table, n: int, pid: Option<int>)
    requires WellFormed(parts, n) && !Truthy(pid)
    ensures Propagated(parts, n, pid) == parts
  {
  }

  /** Every node on the chain ends up priced at the sum of its children's
      FINAL prices: lower nodes are fixed before higher ones read them, and
      no later step touches a node's children. */
  lemma {:induction false} PropagatedFixesChain(parts: Table, n: int, pid: Option<int>)
    requires WellFormed(parts, n) && StartsInTable(parts, pid)
    ensures forall k :: k in Chain(parts, pid) ==>
      Propagated(parts, n, pid)[k].unitPrice == ChildSum(Propagated(parts, n, pid), k, n)
    decreases Rank(pid)
  {
    if Truthy(pid) {
      var p := pid.value;
      var q := parts[p].parentId;
      var updated := parts[p := parts[p].(unitPrice := ChildSum(parts, p, n))];
      assert SameLinks(parts, updated);
      ChainSameLinks(parts, updated, q);
      var r := Propagated(updated, n, q);
      assert r == Propagated(parts, n, pid);
      PropagatedFixesChain(updated, n, q);
      PropagatedFrame(updated, n, q);
      // p itself: its children lie above p in id order, off the rest of the chain.
      var cs := Children(parts, p, n);
      SameLinksChildren(parts, r, p, n);
      forall i | 0 <= i < |cs|
        ensures cs[i] in r && r[cs[i]].unitPrice == parts[cs[i]].unitPrice
      {
        assert cs[i] > p;
        assert cs[i] !in Chain(updated, q);
      }
      SumPricesAgree(parts, r, cs);
      assert p !in Chain(updated, q);
    }
  }

  /** The node the walk starts from keeps its children and ends up priced
      at their sum. */
  lemma {:induction false} PropagatedRepricesStart(parts: Table, n: int, p: int)
    requires WellFormed(parts, n) && p in parts
    ensures Children(Propagated(parts, n, Some(p)), p, n) == Children(parts, p, n)
    ensures Propagated(parts, n, Some(p))[p].unitPrice == ChildSum(Propagated(parts, n, Some(p)), p, n)
  {
    ChainStep(parts, p);
    PropagatedFixesChain(parts, n, Some(p));
    SameLinksChildren(parts, Propagated(parts, n, Some(p)), p, n);
  }

  /** A chain node left without children is priced 0: the empty sum. */
  lemma {:induction false} PropagatedEmptiedIsZero(parts: Table, n: int, pid: Option<int>, k: int)
    requires WellFormed(parts, n) && StartsInTable(parts, pid)
    requires k in Chain(parts, pid) && Children(parts, k, n) == []
    ensures Propagated(parts, n, pid)[k].unitPrice == 0
  {
    PropagatedFixesChain(parts, n, pid);
    SameLinksChildren(parts, Propagated(parts, n, pid), k, n);
  }

  /** The sum invariant holds off the chain of `pid`. */
  ghost predicate ConsistentOffChain(parts: Table, n: int, pid: Option<int>)
    requires Linked(parts) && StartsInTable(parts, pid)
  {
    forall k {:trigger Children(parts, k, n)} :: k in parts && k !in Chain(parts, pid) && Children(parts, k, n) != [] ==>
      parts[k].unitPrice == ChildSum(parts, k, n)
  }

  /** If every part off the chain of `pid` was priced right, then after the
      walk every part with children is. */
  lemma {:induction false} PropagationRestoresPrices(parts: Table, n: int, pid: Option<int>)
    requires WellFormed(parts, n) && StartsInTable(parts, pid)
    requires ConsistentOffChain(parts, n, pid)
    ensures PricesConsistent(Propagated(parts, n, pid), n)
  {
    var r := Propagated(parts, n, pid);
    PropagatedFixesChain(parts, n, pid);
    PropagatedFrame(parts, n, pid);
    ChainClosedUpward(parts, pid);
    forall k | k in r && Children(r, k, n) != []
      ensures r[k].unitPrice == ChildSum(r, k, n)
    {
      if k !in Chain(parts, pid) {
        var cs := Children(parts, k, n);
        SameLinksChildren(parts, r, k, n);
        forall i | 0 <= i < |cs|
          ensures cs[i] in r && r[cs[i]].unitPrice == parts[cs[i]].unitPrice
        {
          assert parts[cs[i]].parentId == Some(k);
          assert cs[i] !in Chain(parts, pid);
        }
        SumPricesAgree(parts, r, cs);
      }
    }
  }

  /** Adding a leaf `rec` under `pid` to a consistently priced table and
      walking from `pid` leaves the whole table consistently priced. */
  lemma {:induction false} InsertLeafRestoresPrices(parts: Table, n: int, rec: Part)
    requires WellFormed(parts, n) && PricesConsistent(parts, n)
    requires rec.id == n
    requires rec.parentId == None || rec.parentId.value in parts
    ensures WellFormed(parts[n := rec], n + 1)
    ensures PricesConsistent(Propagated(parts[n := rec], n + 1, rec.parentId), n + 1)
  {
    InsertLeafWellFormed(parts, n, rec);
    InsertLeafOffChain(parts, n, rec);
    PropagationRestoresPrices(parts[n := rec], n + 1, rec.parentId);
  }

  lemma {:induction false} InsertLeafWellFormed(parts: Table, n: int, rec: Part)
    requires WellFormed(parts, n)
    requires rec.id == n
    requires rec.parentId == None || rec.parentId.value in parts
    ensures WellFormed(parts[n := rec], n + 1)
  {
  }

  lemma {:induction false} InsertLeafOffChain(parts: Table, n: int, rec: Part)
    requires WellFormed(parts, n) && PricesConsistent(parts, n)
    requires WellFormed(parts[n := rec], n + 1)
    requires rec.parentId == None || rec.parentId.value in parts
    ensures ConsistentOffChain(parts[n := rec], n + 1, rec.parentId)
  {
    var after := parts[n := rec];
    forall k | k in after && k !in Chain(after, rec.parentId) && Children(after, k, n + 1) != []
      ensures after[k].unitPrice == ChildSum(after, k, n + 1)
    {
      if k == n {
        InsertedChildren(parts, n, rec, n);
      } else {
        InsertLeafOffChainAt(parts, n, rec, k);
      }
    }
  }

  lemma {:induction false} InsertLeafOffChainAt(parts: Table, n: int, rec: Part, k: int)
    requires WellFormed(parts, n)
    requires rec.parentId == None || rec.parentId.value in parts
    requires k in parts && rec.parentId != Some(k)
    ensures Children(parts[n := rec], k, n + 1) == Children(parts, k, n)
    ensures ChildSum(parts[n := rec], k, n + 1) == ChildSum(parts, k, n)
  {
    InsertedChildren(parts, n, rec, k);
    SumPricesAgree(parts, parts[n := rec], Children(parts, k, n));
  }

  /** After inserting record `n`, a part's children are its old children,
      plus `n` if it is the new record's parent; the new record has none. */
  lemma {:induction false} InsertedChildren(parts: Table, n: int, rec: Part, k: int)
    requires WellFormed(parts, n)
    requires rec.parentId == None || rec.parentId.value in parts
    ensures Children(parts[n := rec], k, n + 1) ==
      Children(parts, k, n) + (if rec.parentId == Some(k) then [n] else [])
    ensures Children(parts, n, n) == []
  {
    IdsWithParentAgree(parts[n := rec], parts, Some(k), n);
    NoChildrenOfAbsent(parts, n, n);
  }

  lemma {:induction false} NoChildrenOfAbsent(parts: Table, p: int, m: int)
    requires Linked(parts) && p !in parts
    ensures Children(parts, p, m) == []
    decreases m
  {
    if m > 1 {
      NoChildrenOfAbsent(parts, p, m - 1);
    }
  }

  lemma {:induction false} IdsWithParentRemove(parts: Table, id: int, pid: Option<int>, n: int)
    requires id in parts && parts[id].parentId != pid
    ensures IdsWithParent(parts - {id}, pid, n) == IdsWithParent(parts, pid, n)
    decreases n
  {
    if n > 1 {
      IdsWithParentRemove(parts, id, pid, n - 1);
    }
  }

  /** Removing a record nobody points to keeps the table a forest. */
  lemma {:induction false} RemoveLeafWellFormed(parts: Table, n: int, id: int)
    requires WellFormed(parts, n)
    requires id in parts && Children(parts, id, n) == []
    ensures WellFormed(parts - {id}, n)
    ensures StartsInTable(parts - {id}, parts[id].parentId)
  {
    forall k | k in parts && parts[k].parentId.Some?
      ensures parts[k].parentId.value != id
    {
      assert k !in Children(parts, id, n);
    }
  }

  /** Removing a childless record from a consistently priced table and
      walking from its former parent leaves the table consistently priced. */
  lemma {:induction false} RemoveLeafRestoresPrices(parts: Table, n: int, id: int)
    requires WellFormed(parts, n) && PricesConsistent(parts, n)
    requires id in parts && Children(parts, id, n) == []
    ensures WellFormed(parts - {id}, n)
    ensures StartsInTable(parts - {id}, parts[id].parentId)
    ensures PricesConsistent(Propagated(parts - {id}, n, parts[id].parentId), n)
  {
    var after := parts - {id};
    RemoveLeafWellFormed(parts, n, id);
    var pid := parts[id].parentId;
    forall k | k in after && k !in Chain(after, pid) && Children(after, k, n) != []
      ensures after[k].unitPrice == ChildSum(after, k, n)
    {
      assert pid != Some(k);
      IdsWithParentRemove(parts, id, Some(k), n);
      var cs := Children(parts, k, n);
      forall i | 0 <= i < |cs|
        ensures cs[i] in after && after[cs[i]].unitPrice == parts[cs[i]].unitPrice
      {
        assert parts[cs[i]].parentId == Some(k);
      }
      SumPricesAgree(parts, after, cs);
    }
    PropagationRestoresPrices(after, n, pid);
  }

  /** One iteration of the walk: reprice `p`, then continue from its parent. */
  lemma {:induction false} PropagatedStep(parts: Table, n: int, p: int)
    requires WellFormed(parts, n) && p in parts && p != 0
    ensures var updated := parts[p := parts[p].(unitPrice := ChildSum(parts, p, n))];
      && WellFormed(updated, n) && SameLinks(parts, updated)
      && StartsInTable(updated, parts[p].parentId)
      && Propagated(updated, n, parts[p].parentId) == Propagated(parts, n, Some(p))
  {
    var updated := parts[p := parts[p].(unitPrice := ChildSum(parts, p, n))];
    assert SameLinks(parts, updated);
  }

  lemma {:induction false} ChainStep(parts: Table, p: int)
    requires Linked(parts) && p in parts && p != 0
    ensures StartsInTable(parts, parts[p].parentId)
    ensures Chain(parts, Some(p)) == [p] + Chain(parts, parts[p].parentId)
  {
  }

  /** Visiting `p` moves it from the rest of the chain to the visited
      prefix. */
  lemma {:induction false} VisitStep(parts: Table, start: Option<int>, visited: seq<int>, p: int)
    requires Linked(parts) && p in parts && p != 0 && StartsInTable(parts, start)
    requires visited + Chain(parts, Some(p)) == Chain(parts, start)
    ensures StartsInTable(parts, parts[p].parentId)
    ensures (visited + [p]) + Chain(parts, parts[p].parentId) == Chain(parts, start)
  {
    ChainStep(parts, p);
    assert (visited + [p]) + Chain(parts, parts[p].parentId) == visited + ([p] + Chain(parts, parts[p].parentId));
  }

  /** `update_parent_prices(db, parent_id)`: while the id is truthy, fetch
      the record, set its unit price to the sum of its children's, and move
      to its parent. Returns, as ghost, the ids it visited. */
  method UpdateParentPrices(db: Store, start: Option<int>) returns (ghost visited: seq<int>)
    requires db.Valid()
    requires StartsInTable(db.parts, start)
    modifies db
    ensures db.Valid() && db.nextId == old(db.nextId)
    ensures db.parts == Propagated(old(db.parts), old(db.nextId), start)
    ensures visited == Chain(old(db.parts), start)
    ensures !Truthy(start) ==> visited == []
  {
    var parentId := start;
    visited := [];
    ghost var orig := db.parts;
    while Truthy(parentId)
      invariant db.Valid() && db.nextId == old(db.nextId)
      invariant SameLinks(orig, db.parts)
      invariant StartsInTable(db.parts, parentId) && StartsInTable(orig, parentId)
      invariant Propagated(db.parts, db.nextId, parentId) == Propagated(orig, old(db.nextId), start)
      invariant visited + Chain(orig, parentId) == Chain(orig, start)
      invariant !Truthy(start) ==> parentId == start && db.parts == orig
      decreases Rank(parentId)
    {
      var p := parentId.value;
      var parent := db.parts[p];
      var newUnitPrice := ChildSum(db.parts, p, db.nextId);
      PropagatedStep(db.parts, db.nextId, p);
      VisitStep(orig, start, visited, p);
      db.parts := db.parts[p := parent.(unitPrice := newUnitPrice)];
      visited := visited + [p];
      parentId := parent.parentId;
    }
  }
}
