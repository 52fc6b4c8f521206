/** `create_part`, `delete_part`, `get_tree` and `build_tree`: the mutations
    that keep the parts table priced, and the nested view of it. */
module Crud {
  import opened Text
  import opened Models
  import opened PricePropagation

  /** The walk keeps every name and parent link, so it keeps sibling names
      unique. */
  lemma {:induction false} PropagatedKeepsSiblingNames(parts: Table, n: int, pid: Option<int>)
    requires WellFormed(parts, n) && StartsInTable(parts, pid)
    requires SiblingNamesUnique(parts)
    ensures SiblingNamesUnique(Propagated(parts, n, pid))
  {
    PropagatedFrame(parts, n, pid);
    var r := Propagated(parts, n, pid);
    forall a, b | a in r && b in r && a != b && r[a].parentId == r[b].parentId
      ensures Lower(r[a].name) != Lower(r[b].name)
    {
      assert r[a].name == parts[a].name && r[b].name == parts[b].name;
    }
  }

  /** Inserting a record whose name clashes with no sibling keeps sibling
      names unique: capitalizing does not change the lowered name. */
  lemma {:induction false} InsertKeepsSiblingNames(parts: Table, name: string, rec: Part)
    requires SiblingNamesUnique(parts) && rec.id !in parts
    requires Lower(rec.name) == Lower(name) && !HasSibling(parts, name, rec.parentId)
    ensures SiblingNamesUnique(parts[rec.id := rec])
  {
  }

  /** The duplicate check depends on the submitted name only through its
      lower-case form: submitting it lowered or capitalized finds the same
      clash. */
  lemma {:induction false} HasSiblingIgnoresCase(parts: Table, name: string, pid: Option<int>)
    ensures HasSibling(parts, Lower(name), pid) == HasSibling(parts, name, pid)
    ensures HasSibling(parts, Capitalize(name), pid) == HasSibling(parts, name, pid)
  {
    LowerIdempotent(name);
    LowerOfCapitalize(name);
  }

  /** The table `create_part` leaves behind once the sibling check has
      passed: `rec` stored under the next id, then the walk from its parent. */
  ghost function AfterCreate(parts: Table, n: int, rec: Part): Table
    requires WellFormed(parts, n) && rec.id == n
    requires rec.parentId == None || rec.parentId.value in parts
  {
    InsertLeafWellFormed(parts, n, rec);
    Propagated(parts[n := rec], n + 1, rec.parentId)
  }

  /** The new record is stored as given, under a fresh id, and the walk
      only reprices; a root insert changes nothing else. */
  lemma {:induction false} CreateStoresRecord(parts: Table, n: int, rec: Part)
    requires WellFormed(parts, n) && rec.id == n
    requires rec.parentId == None || rec.parentId.value in parts
    ensures n !in parts
    ensures WellFormed(AfterCreate(parts, n, rec), n + 1)
    ensures AfterCreate(parts, n, rec).Keys == parts.Keys + {n}
    ensures AfterCreate(parts, n, rec)[n] == rec
    ensures forall k {:trigger AfterCreate(parts, n, rec)[k]} :: k in parts ==>
      AfterCreate(parts, n, rec)[k] == parts[k].(unitPrice := AfterCreate(parts, n, rec)[k].unitPrice)
    ensures rec.parentId == None ==> AfterCreate(parts, n, rec) == parts[n := rec]
  {
    InsertLeafWellFormed(parts, n, rec);
    var after := parts[n := rec];
    PropagatedFrame(after, n + 1, rec.parentId);
    if rec.parentId == None {
      PropagatedNoOp(after, n + 1, rec.parentId);
    }
    assert n !in Chain(after, rec.parentId);
  }

  /** Once a create has stored `rec`, the same name under the same parent,
      in any case, clashes: a second identical create returns `EXISTS`. */
  lemma {:induction false} CreateThenDuplicateRefused(parts: Table, n: int, name: string, rec: Part)
    requires WellFormed(parts, n) && rec.id == n && rec.name == Capitalize(name)
    requires rec.parentId == None || rec.parentId.value in parts
    ensures HasSibling(AfterCreate(parts, n, rec), name, rec.parentId)
    ensures forall m :: Lower(m) == Lower(name) ==> HasSibling(AfterCreate(parts, n, rec), m, rec.parentId)
  {
    CreateStoresRecord(parts, n, rec);
    LowerOfCapitalize(name);
    var r := AfterCreate(parts, n, rec);
    assert n in r && r[n].parentId == rec.parentId && Lower(r[n].name) == Lower(name);
  }

  /** After a create under `p`, the new part is one of `p`'s children and
      `p`'s price is the sum of its children. */
  lemma {:induction false} CreateRepricesParent(parts: Table, n: int, rec: Part)
    requires WellFormed(parts, n) && rec.id == n
    requires rec.parentId.Some? && rec.parentId.value in parts
    ensures var r := AfterCreate(parts, n, rec);
      && n in Children(r, rec.parentId.value, n + 1)
      && r[rec.parentId.value].unitPrice == ChildSum(r, rec.parentId.value, n + 1)
  {
    var p := rec.parentId.value;
    InsertLeafWellFormed(parts, n, rec);
    InsertedChildren(parts, n, rec, p);
    PropagatedRepricesStart(parts[n := rec], n + 1, p);
  }

  /** A create keeps every part with children priced at their sum. */
  lemma {:induction false} CreateKeepsPrices(parts: Table, n: int, rec: Part)
    requires WellFormed(parts, n) && rec.id == n
    requires rec.parentId == None || rec.parentId.value in parts
    requires PricesConsistent(parts, n)
    ensures PricesConsistent(AfterCreate(parts, n, rec), n + 1)
  {
    assert AfterCreate(parts, n, rec) == Propagated(parts[n := rec], n + 1, rec.parentId);
    InsertLeafRestoresPrices(parts, n, rec);
  }

  /** A create that passed the sibling check keeps sibling names unique:
      the stored, capitalized name clashes with nothing. */
  lemma {:induction false} CreateKeepsSiblingNames(parts: Table, n: int, name: string, rec: Part)
    requires WellFormed(parts, n) && rec.id == n && rec.name == Capitalize(name)
    requires rec.parentId == None || rec.parentId.value in parts
    requires !HasSibling(parts, name, rec.parentId)
    requires SiblingNamesUnique(parts)
    ensures SiblingNamesUnique(AfterCreate(parts, n, rec))
  {
    InsertLeafWellFormed(parts, n, rec);
    assert SiblingNamesUnique(parts[n := rec]) by {
      LowerOfCapitalize(name);
      InsertKeepsSiblingNames(parts, name, rec);
    }
    PropagatedKeepsSiblingNames(parts[n := rec], n + 1, rec.parentId);
  }

  /** `create_part(db, part)`: refuse a name already used under the same
      parent, ignoring case; otherwise store the capitalized record under
      the next id and reprice its ancestors. */
  method CreatePart(db: Store, part: PartCreate) returns (r: CreatePartResult)
    requires db.Valid()
    requires part.parentId == None || part.parentId.value in db.parts
    modifies db
    ensures db.Valid()
    ensures HasSibling(old(db.parts), part.name, part.parentId) ==>
      r == Refused(Exists) && db.parts == old(db.parts) && db.nextId == old(db.nextId)
    ensures !HasSibling(old(db.parts), part.name, part.parentId) ==>
      && r == Created(Part(old(db.nextId), Capitalize(part.name), part.unitPrice, part.quantity, part.parentId))
      && db.nextId == old(db.nextId) + 1
      && db.parts == AfterCreate(old(db.parts), old(db.nextId), r.part)
  {
    if HasSibling(db.parts, part.name, part.parentId) {
      return Refused(Exists);
    }
    var rec := Part(db.nextId, Capitalize(part.name), part.unitPrice, part.quantity, part.parentId);
    ghost var before, n := db.parts, db.nextId;
    db.Add(rec);
    if Truthy(rec.parentId) {
      ghost var visited := UpdateParentPrices(db, rec.parentId);
    } else {
      PropagatedNoOp(before[n := rec], n + 1, rec.parentId);
    }
    r := Created(rec);
  }

  /** The table `delete_part` leaves behind for a childless record `id`:
      the record removed, then the walk from its former parent. */
  ghost function AfterDelete(parts: Table, n: int, id: int): Table
    requires WellFormed(parts, n) && id in parts && Children(parts, id, n) == []
  {
    RemoveLeafWellFormed(parts, n, id);
    Propagated(parts - {id}, n, parts[id].parentId)
  }

  /** The delete takes out exactly the one record; the walk only reprices. */
  lemma {:induction false} DeleteRemovesRecord(parts: Table, n: int, id: int)
    requires WellFormed(parts, n) && id in parts && Children(parts, id, n) == []
    ensures WellFormed(AfterDelete(parts, n, id), n)
    ensures AfterDelete(parts, n, id).Keys == parts.Keys - {id}
    ensures forall k {:trigger AfterDelete(parts, n, id)[k]} :: k in AfterDelete(parts, n, id) ==>
      AfterDelete(parts, n, id)[k] == parts[k].(unitPrice := AfterDelete(parts, n, id)[k].unitPrice)
  {
    RemoveLeafWellFormed(parts, n, id);
    PropagatedFrame(parts - {id}, n, parts[id].parentId);
  }

  /** After a delete under `p`, `p` is priced at the sum of its remaining
      children, and at 0 when it has none left. */
  lemma {:induction false} DeleteRepricesParent(parts: Table, n: int, id: int)
    requires WellFormed(parts, n) && id in parts && Children(parts, id, n) == []
    requires parts[id].parentId.Some?
    ensures var p, r := parts[id].parentId.value, AfterDelete(parts, n, id);
      && p in r
      && id !in Children(r, p, n)
      && r[p].unitPrice == ChildSum(r, p, n)
      && (Children(r, p, n) == [] ==> r[p].unitPrice == 0)
  {
    var p := parts[id].parentId.value;
    RemoveLeafWellFormed(parts, n, id);
    var after := parts - {id};
    ChainStep(after, p);
    PropagatedFixesChain(after, n, Some(p));
    SameLinksChildren(after, Propagated(after, n, Some(p)), p, n);
    if Children(after, p, n) == [] {
      PropagatedEmptiedIsZero(after, n, Some(p), p);
    }
  }

  /** A delete keeps every part with children priced at their sum. */
  lemma {:induction false} DeleteKeepsPrices(parts: Table, n: int, id: int)
    requires WellFormed(parts, n) && id in parts && Children(parts, id, n) == []
    requires PricesConsistent(parts, n)
    ensures PricesConsistent(AfterDelete(parts, n, id), n)
  {
    RemoveLeafRestoresPrices(parts, n, id);
  }

  /** A delete keeps sibling names unique. */
  lemma {:induction false} DeleteKeepsSiblingNames(parts: Table, n: int, id: int)
    requires WellFormed(parts, n) && id in parts && Children(parts, id, n) == []
    requires SiblingNamesUnique(parts)
    ensures SiblingNamesUnique(AfterDelete(parts, n, id))
  {
    RemoveLeafWellFormed(parts, n, id);
    PropagatedKeepsSiblingNames(parts - {id}, n, parts[id].parentId);
  }

  /** `delete_part(db, part_id)`: report a missing id, refuse a part that
      still has children, otherwise delete it and reprice its ancestors. */
  method DeletePart(db: Store, partId: int) returns (r: DeletePartResult)
    requires db.Valid()
    modifies db
    ensures db.Valid() && db.nextId == old(db.nextId)
    ensures partId !in old(db.parts) ==> r == NotFound && db.parts == old(db.parts)
    ensures partId in old(db.parts) && Children(old(db.parts), partId, old(db.nextId)) != [] ==>
      r == HasChildren && db.parts == old(db.parts)
    ensures partId in old(db.parts) && Children(old(db.parts), partId, old(db.nextId)) == [] ==>
      r == Success && db.parts == AfterDelete(old(db.parts), old(db.nextId), partId)
  {
    if partId !in db.parts {
      return NotFound;
    }
    var part := db.parts[partId];
    if Children(db.parts, partId, db.nextId) != [] {
      return HasChildren;
    }
    ghost var before, n := db.parts, db.nextId;
    RemoveLeafWellFormed(before, n, partId);
    forall k | k in db.parts
      ensures db.parts[k].parentId != Some(partId)
    {
      assert k !in Children(db.parts, partId, db.nextId);
    }
    db.Remove(partId);
    if Truthy(part.parentId) {
      ghost var visited := UpdateParentPrices(db, part.parentId);
    } else {
      PropagatedNoOp(before - {partId}, n, part.parentId);
    }
    return Success;
  }

  /** The nested view of one part, as `build_tree` returns it: the stored
      fields, the total price and the views of its children. */
  datatype PartTree = PartTree(id: int, name: string, unitPrice: int, quantity: int,
                               parentId: Option<int>, totalPrice: int, children: seq<PartTree>)

  /** `build_tree(part)` for the record with id `id`. */
  function BuildTree(parts: Table, n: int, id: int): (t: PartTree)
    requires WellFormed(parts, n) && id in parts
    ensures t.id == id && t.name == parts[id].name && t.unitPrice == parts[id].unitPrice
    ensures t.quantity == parts[id].quantity && t.parentId == parts[id].parentId
    ensures t.totalPrice == parts[id].unitPrice * parts[id].quantity
    ensures |t.children| == |Children(parts, id, n)|
    ensures forall i :: 0 <= i < |t.children| ==> t.children[i].id == Children(parts, id, n)[i]
    decreases n - id
  {
    var p := parts[id];
    var cs := Children(parts, id, n);
    PartTree(id, p.name, p.unitPrice, p.quantity, p.parentId, p.unitPrice * p.quantity,
             seq(|cs|, i requires 0 <= i < |cs| => BuildTree(parts, n, cs[i])))
  }

  /** `get_tree(db)`: one tree per record without a parent, in id order. */
  function GetTree(parts: Table, n: int): (ts: seq<PartTree>)
    requires WellFormed(parts, n)
    ensures |ts| == |Roots(parts, n)|
    ensures forall i :: 0 <= i < |ts| ==> ts[i].id == Roots(parts, n)[i] && ts[i].parentId == None
  {
    var rs := Roots(parts, n);
    seq(|rs|, i requires 0 <= i < |rs| => BuildTree(parts, n, rs[i]))
  }

  /** `t` shows the stored record `t.id` faithfully: every field copied,
      the total price computed, and its children shown one for one, in
      order, the same way. */
  ghost predicate Mirrors(parts: Table, n: int, t: PartTree)
    decreases t
  {
    && t.id in parts
    && t.name == parts[t.id].name && t.unitPrice == parts[t.id].unitPrice
    && t.quantity == parts[t.id].quantity && t.parentId == parts[t.id].parentId
    && t.totalPrice == parts[t.id].unitPrice * parts[t.id].quantity
    && |t.children| == |Children(parts, t.id, n)|
    && forall i :: 0 <= i < |t.children| ==>
         t.children[i].id == Children(parts, t.id, n)[i] && Mirrors(parts, n, t.children[i])
  }

  lemma {:induction false} BuildTreeMirrors(parts: Table, n: int, id: int)
    requires WellFormed(parts, n) && id in parts
    ensures Mirrors(parts, n, BuildTree(parts, n, id))
    decreases n - id
  {
    var t := BuildTree(parts, n, id);
    var cs := Children(parts, id, n);
    forall i | 0 <= i < |t.children|
      ensures Mirrors(parts, n, t.children[i])
    {
      assert cs[i] > id;
      BuildTreeMirrors(parts, n, cs[i]);
    }
  }

  /** A faithful view of a record is the one `build_tree` builds: the
      nested view is determined by the table. */
  lemma {:induction false} MirrorsIsBuildTree(parts: Table, n: int, t: PartTree)
    requires WellFormed(parts, n) && Mirrors(parts, n, t)
    ensures t == BuildTree(parts, n, t.id)
    decreases t
  {
    var b := BuildTree(parts, n, t.id);
    forall i | 0 <= i < |t.children|
      ensures t.children[i] == b.children[i]
    {
      MirrorsIsBuildTree(parts, n, t.children[i]);
    }
    assert t.children == b.children;
  }

  /** Every tree `get_tree` returns is a faithful view of a root record,
      and every root record gets exactly one tree. */
  lemma {:induction false} GetTreeRoots(parts: Table, n: int)
    requires WellFormed(parts, n)
    ensures forall i :: 0 <= i < |GetTree(parts, n)| ==> Mirrors(parts, n, GetTree(parts, n)[i])
    ensures forall k :: k in parts && parts[k].parentId == None <==>
      exists i :: 0 <= i < |GetTree(parts, n)| && GetTree(parts, n)[i].id == k
    ensures forall i, j :: 0 <= i < j < |GetTree(parts, n)| ==> GetTree(parts, n)[i].id < GetTree(parts, n)[j].id
  {
    var ts := GetTree(parts, n);
    var rs := Roots(parts, n);
    forall i | 0 <= i < |ts|
      ensures Mirrors(parts, n, ts[i])
    {
      BuildTreeMirrors(parts, n, rs[i]);
    }
    forall k | k in parts && parts[k].parentId == None
      ensures exists i :: 0 <= i < |ts| && ts[i].id == k
    {
      assert k in rs;
      var i :| 0 <= i < |rs| && rs[i] == k;
      assert ts[i].id == k;
    }
  }

  /** The sum of the unit prices of a list of trees. */
  function TreesPriceSum(ts: seq<PartTree>): int {
    if ts == [] then 0 else ts[0].unitPrice + TreesPriceSum(ts[1..])
  }

  /** Every node with children is priced at the sum of its children's trees. */
  ghost predicate SumsConsistent(t: PartTree)
    decreases t
  {
    && (t.children != [] ==> t.unitPrice == TreesPriceSum(t.children))
    && forall i :: 0 <= i < |t.children| ==> SumsConsistent(t.children[i])
  }

  lemma {:induction false} TreesPriceSumIsSumPrices(parts: Table, ts: seq<PartTree>, ids: seq<int>)
    requires |ts| == |ids|
    requires forall i :: 0 <= i < |ids| ==> ids[i] in parts && ts[i].unitPrice == parts[ids[i]].unitPrice
    ensures TreesPriceSum(ts) == SumPrices(parts, ids)
  {
    if ts != [] {
      TreesPriceSumIsSumPrices(parts, ts[1..], ids[1..]);
    }
  }

  /** In a consistently priced table, the nested view shows each part with
      children priced at the sum of its children's prices. */
  lemma {:induction false} BuildTreeSumsConsistent(parts: Table, n: int, id: int)
    requires WellFormed(parts, n) && PricesConsistent(parts, n) && id in parts
    ensures SumsConsistent(BuildTree(parts, n, id))
    decreases n - id
  {
    var t := BuildTree(parts, n, id);
    var cs := Children(parts, id, n);
    TreesPriceSumIsSumPrices(parts, t.children, cs);
    forall i | 0 <= i < |t.children|
      ensures SumsConsistent(t.children[i])
    {
      assert cs[i] > id;
      BuildTreeSumsConsistent(parts, n, cs[i]);
    }
  }
}
