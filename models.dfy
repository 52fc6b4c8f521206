/** The parts table: one record per part, the `children` relationship as a
    query over the table, and the outcomes the operations report. */
module Models {
  import opened Text

  datatype Option<T> = None | Some(value: T)

  /** One row of the `parts` table. */
  datatype Part = Part(id: int, name: string, unitPrice: int, quantity: int, parentId: Option<int>)

  /** The fields a client submits to create a part. */
  datatype PartCreate = PartCreate(name: string, unitPrice: int, quantity: int, parentId: Option<int>)

  /** The outcomes of create and delete that are not a record. */
  datatype DeletePartResult = Success | NotFound | HasChildren | Exists

  /** `create_part` returns either the new record or `EXISTS`. */
  datatype CreatePartResult = Created(part: Part) | Refused(status: DeletePartResult)

  type Table = map<int, Part>

  /** Python truthiness of a nullable id: `None` and `0` are false. */
  predicate Truthy(id: Option<int>) {
    id.Some? && id.value != 0
  }

  /** Every record's parent exists and has a smaller id, so following
      parents always reaches a root: the table is a forest. */
  ghost predicate Linked(parts: Table) {
    forall k {:trigger parts[k]} :: k in parts ==>
      && k >= 1
      && (parts[k].parentId.Some? ==> parts[k].parentId.value in parts && parts[k].parentId.value < k)
  }

  /** The table as the store keeps it: ids in [1, nextId), each record
      under its own id, and a forest. */
  ghost predicate WellFormed(parts: Table, nextId: int) {
    && nextId >= 1
    && Linked(parts)
    && (forall k {:trigger parts[k]} :: k in parts ==> k < nextId && parts[k].id == k)
  }

  /** Two tables with the same ids and the same parent links. */
  ghost predicate SameLinks(a: Table, b: Table) {
    && a.Keys == b.Keys
    && (forall k {:trigger a[k]} {:trigger b[k]} :: k in a ==> a[k].parentId == b[k].parentId)
  }

  /** The ids below `n` whose record has parent `pid`, in ascending order. */
  function IdsWithParent(parts: Table, pid: Option<int>, n: int): (ids: seq<int>)
    ensures forall i :: 0 <= i < |ids| ==> 1 <= ids[i] < n && ids[i] in parts && parts[ids[i]].parentId == pid
    ensures forall i, j :: 0 <= i < j < |ids| ==> ids[i] < ids[j]
    ensures forall k {:trigger k in ids} :: 1 <= k < n && k in parts && parts[k].parentId == pid ==> k in ids
    decreases n
  {
    if n <= 1 then []
    else
      var below := IdsWithParent(parts, pid, n - 1);
      if n - 1 in parts && parts[n - 1].parentId == pid then below + [n - 1] else below
  }

  /** `part.children` for the part with id `p`, ordered by id. */
  function Children(parts: Table, p: int, n: int): seq<int> {
    IdsWithParent(parts, Some(p), n)
  }

  /** The records with no parent, ordered by id. */
  function Roots(parts: Table, n: int): seq<int> {
    IdsWithParent(parts, None, n)
  }

  /** The sum of the unit prices of the records `ids`. */
  function SumPrices(parts: Table, ids: seq<int>): int
    requires forall i :: 0 <= i < |ids| ==> ids[i] in parts
  {
    if ids == [] then 0 else parts[ids[0]].unitPrice + SumPrices(parts, ids[1..])
  }

  /** `sum(child.unit_price for child in parent.children)`. */
  function ChildSum(parts: Table, p: int, n: int): int {
    SumPrices(parts, Children(parts, p, n))
  }

  /** Every part that has children is priced at the sum of its children. */
  ghost predicate PricesConsistent(parts: Table, n: int) {
    forall k {:trigger Children(parts, k, n)} :: k in parts && Children(parts, k, n) != [] ==> parts[k].unitPrice == ChildSum(parts, k, n)
  }

  /** No two parts under the same parent share a name, ignoring case. */
  ghost predicate SiblingNamesUnique(parts: Table) {
    forall a, b {:trigger Lower(parts[a].name), Lower(parts[b].name)} :: a in parts && b in parts && a != b && parts[a].parentId == parts[b].parentId ==>
      Lower(parts[a].name) != Lower(parts[b].name)
  }

  /** Some part under `pid` already has `name`, ignoring case. */
  predicate HasSibling(parts: Table, name: string, pid: Option<int>) {
    exists k {:trigger parts[k]} :: k in parts && parts[k].parentId == pid && Lower(parts[k].name) == Lower(name)
  }

  /** The id-ordered query over two tables that agree on ids and links
      below `n` gives the same answer. */
  lemma {:induction false} IdsWithParentAgree(a: Table, b: Table, pid: Option<int>, n: int)
    requires forall k :: 1 <= k < n ==> (k in a <==> k in b)
    requires forall k :: 1 <= k < n && k in a ==> a[k].parentId == b[k].parentId
    ensures IdsWithParent(a, pid, n) == IdsWithParent(b, pid, n)
    decreases n
  {
    if n > 1 {
      IdsWithParentAgree(a, b, pid, n - 1);
    }
  }

  lemma {:induction false} SameLinksChildren(a: Table, b: Table, p: int, n: int)
    requires SameLinks(a, b)
    ensures Children(a, p, n) == Children(b, p, n)
  {
    IdsWithParentAgree(a, b, Some(p), n);
  }

  /** Two tables that agree on the prices of `ids` give the same sum. */
  lemma {:induction false} SumPricesAgree(a: Table, b: Table, ids: seq<int>)
    requires forall i :: 0 <= i < |ids| ==> ids[i] in a && ids[i] in b && a[ids[i]].unitPrice == b[ids[i]].unitPrice
    ensures SumPrices(a, ids) == SumPrices(b, ids)
  {
    if ids != [] {
      SumPricesAgree(a, b, ids[1..]);
    }
  }

  /** The parts table and its id counter, as the database session sees it. */
  class Store {
    var parts: Table
    var nextId: int

    ghost predicate Valid()
      reads this
    {
      WellFormed(parts, nextId)
    }

    constructor ()
      ensures Valid() && parts == map[] && nextId == 1
    {
      parts := map[];
      nextId := 1;
    }

    /** `db.add(record)` and `db.commit()`: the record is stored under the
        next id, which is used up. */
    method Add(rec: Part)
      requires Valid() && rec.id == nextId
      requires rec.parentId == None || rec.parentId.value in parts
      modifies this
      ensures Valid()
      ensures parts == old(parts)[old(nextId) := rec] && nextId == old(nextId) + 1
    {
      parts := parts[rec.id := rec];
      nextId := nextId + 1;
    }

    /** `db.delete(record)` and `db.commit()` for a record nobody points to. */
    method Remove(id: int)
      requires Valid() && id in parts
      requires forall k {:trigger parts[k]} :: k in parts ==> parts[k].parentId != Some(id)
      modifies this
      ensures Valid()
      ensures parts == old(parts) - {id} && nextId == old(nextId)
    {
      parts := parts - {id};
    }
  }
}
