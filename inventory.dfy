/**
 * The Stock table both upload handlers write to, with SKU as its unique
 * key: a finite map from SKU to the stored record, and the two write
 * policies the handlers use on it, Prisma's `upsert` (the last write for a
 * SKU wins) and `createMany` with `skipDuplicates` (the first write for a
 * SKU, or the record already stored, is kept).
 */
module Inventory {

  import opened JsNumbers

  /** One row of the Stock table. */
  datatype StockRecord = StockRecord(
    itemName: string,
    sku: string,
    category: string,
    unit: string,
    currentStock: Number,
    reorderLevel: Number,
    status: string)

  type Table = map<string, StockRecord>

  /** Every stored record sits under its own SKU: the key is never rewritten. */
  predicate KeyedBySku(t: Table) {
    forall k | k in t :: t[k].sku == k
  }

  function Skus(rs: seq<StockRecord>): set<string> {
    set r | r in rs :: r.sku
  }

  lemma SkusSnoc(rs: seq<StockRecord>)
    requires rs != []
    ensures Skus(rs) == Skus(rs[..|rs| - 1]) + {rs[|rs| - 1].sku}
  {
    assert rs == rs[..|rs| - 1] + [rs[|rs| - 1]];
  }

  lemma SkusAt(rs: seq<StockRecord>, i: nat)
    requires i < |rs|
    ensures rs[i].sku in Skus(rs)
  {
    assert rs[i] in rs;
  }

  /** The position of the last record for SKU k. */
  function LastIndex(rs: seq<StockRecord>, k: string): (i: nat)
    requires k in Skus(rs)
    ensures i < |rs| && rs[i].sku == k
    ensures forall j :: i < j < |rs| ==> rs[j].sku != k
    decreases |rs|
  {
    SkusSnoc(rs);
    if rs[|rs| - 1].sku == k then |rs| - 1 else LastIndex(rs[..|rs| - 1], k)
  }

  /** The position of the first record for SKU k. */
  function FirstIndex(rs: seq<StockRecord>, k: string): (i: nat)
    requires k in Skus(rs)
    ensures i < |rs| && rs[i].sku == k
    ensures forall j :: 0 <= j < i ==> rs[j].sku != k
    decreases |rs|
  {
    if rs[0].sku == k then 0
    else
      assert k in Skus(rs[1..]) by {
        var r :| r in rs && r.sku == k;
        assert r in rs[1..];
      }
      1 + FirstIndex(rs[1..], k)
  }

  /** `prisma.stock.upsert({ where: { SKU }, update: <non-key fields>, create: record })`. */
  function AfterUpsert(t: Table, r: StockRecord): (t': Table)
    ensures t'.Keys == t.Keys + {r.sku}
    ensures forall k | k in t && k != r.sku :: t'[k] == t[k]
    ensures t'[r.sku].sku == (if r.sku in t then t[r.sku].sku else r.sku)
    ensures KeyedBySku(t) ==> t'[r.sku] == r && KeyedBySku(t')
  {
    if r.sku in t then
      t[r.sku := t[r.sku].(
        itemName := r.itemName,
        category := r.category,
        unit := r.unit,
        currentStock := r.currentStock,
        reorderLevel := r.reorderLevel,
        status := r.status)]
    else
      t[r.sku := r]
  }

  /** The table after upserting the records one after another, in order. */
  function AfterUpserts(t: Table, rs: seq<StockRecord>): Table
    decreases |rs|
  {
    if rs == [] then t else AfterUpsert(AfterUpserts(t, rs[..|rs| - 1]), rs[|rs| - 1])
  }

  /** After a sequence of upserts: the SKUs written are added, every written
      SKU holds its last record, every other SKU keeps what it had, and the
      table stays keyed by SKU. */
  lemma {:induction false} UpsertsLastWins(t: Table, rs: seq<StockRecord>)
    requires KeyedBySku(t)
    ensures AfterUpserts(t, rs).Keys == t.Keys + Skus(rs)
    ensures forall k | k in Skus(rs) :: AfterUpserts(t, rs)[k] == rs[LastIndex(rs, k)]
    ensures forall k | k in t && k !in Skus(rs) :: AfterUpserts(t, rs)[k] == t[k]
    ensures KeyedBySku(AfterUpserts(t, rs))
    decreases |rs|
  {
    if rs != [] {
      var n := |rs| - 1;
      var prefix := rs[..n];
      var before := AfterUpserts(t, prefix);
      assert AfterUpserts(t, rs) == AfterUpsert(before, rs[n]);
      UpsertsLastWins(t, prefix);
      SkusSnoc(rs);
      forall k | k in Skus(rs)
        ensures AfterUpserts(t, rs)[k] == rs[LastIndex(rs, k)]
      {
        if k != rs[n].sku {
          assert k in Skus(prefix);
          assert LastIndex(rs, k) == LastIndex(prefix, k);
          assert prefix[LastIndex(prefix, k)] == rs[LastIndex(rs, k)];
        }
      }
    }
  }

  /** Upserting the same records a second time changes nothing. */
  lemma UpsertsIdempotent(t: Table, rs: seq<StockRecord>)
    requires KeyedBySku(t)
    ensures AfterUpserts(AfterUpserts(t, rs), rs) == AfterUpserts(t, rs)
  {
    var once := AfterUpserts(t, rs);
    UpsertsLastWins(t, rs);
    UpsertsLastWins(once, rs);
    var twice := AfterUpserts(once, rs);
    assert twice.Keys == once.Keys;
    forall k | k in once ensures twice[k] == once[k] {
    }
  }

  /** `createMany` with `skipDuplicates` on one record: insert it unless its
      SKU is already stored. */
  function AfterInsertIfAbsent(t: Table, r: StockRecord): (t': Table)
    ensures t'.Keys == t.Keys + {r.sku}
    ensures forall k | k in t :: t'[k] == t[k]
    ensures r.sku !in t ==> t'[r.sku] == r
    ensures KeyedBySku(t) ==> KeyedBySku(t')
  {
    if r.sku in t then t else t[r.sku := r]
  }

  /** The table after `createMany({ data: rs, skipDuplicates: true })`. */
  function AfterCreateMany(t: Table, rs: seq<StockRecord>): Table
    decreases |rs|
  {
    if rs == [] then t else AfterInsertIfAbsent(AfterCreateMany(t, rs[..|rs| - 1]), rs[|rs| - 1])
  }

  /** After an insert-if-absent batch: the table only grows, what was stored
      stays as it was, and a new SKU holds its first record in the batch. */
  lemma CreateManyFirstWins(t: Table, rs: seq<StockRecord>)
    ensures AfterCreateMany(t, rs).Keys == t.Keys + Skus(rs)
    ensures forall k | k in t :: AfterCreateMany(t, rs)[k] == t[k]
    ensures forall k | k in Skus(rs) && k !in t :: AfterCreateMany(t, rs)[k] == rs[FirstIndex(rs, k)]
    ensures KeyedBySku(t) ==> KeyedBySku(AfterCreateMany(t, rs))
  {
    CreateManyGrows(t, rs);
    forall k | k in Skus(rs) && k !in t
      ensures AfterCreateMany(t, rs)[k] == rs[FirstIndex(rs, k)]
    {
      CreateManyNewKey(t, rs, k);
    }
  }

  lemma {:induction false} CreateManyGrows(t: Table, rs: seq<StockRecord>)
    ensures AfterCreateMany(t, rs).Keys == t.Keys + Skus(rs)
    ensures forall k | k in t :: AfterCreateMany(t, rs)[k] == t[k]
    ensures KeyedBySku(t) ==> KeyedBySku(AfterCreateMany(t, rs))
    decreases |rs|
  {
    if rs != [] {
      CreateManyGrows(t, rs[..|rs| - 1]);
      SkusSnoc(rs);
    }
  }

  lemma {:induction false} CreateManyNewKey(t: Table, rs: seq<StockRecord>, k: string)
    requires k in Skus(rs) && k !in t
    ensures k in AfterCreateMany(t, rs) && AfterCreateMany(t, rs)[k] == rs[FirstIndex(rs, k)]
    decreases |rs|
  {
    var n := |rs| - 1;
    var prefix := rs[..n];
    var before := AfterCreateMany(t, prefix);
    assert AfterCreateMany(t, rs) == AfterInsertIfAbsent(before, rs[n]);
    SkusSnoc(rs);
    CreateManyGrows(t, prefix);
    if k in Skus(prefix) {
      assert k in before && before[k] == rs[FirstIndex(rs, k)] by {
        CreateManyNewKey(t, prefix, k);
        var i := FirstIndex(prefix, k);
        assert prefix[i] == rs[i];
        forall j | 0 <= j < i ensures rs[j].sku != k {
          assert prefix[j] == rs[j];
        }
        FirstIndexUnique(rs, k, i);
      }
    } else {
      assert k !in before && rs[n] == rs[FirstIndex(rs, k)] by {
        forall j | 0 <= j < n ensures rs[j].sku != k {
          SkusAt(prefix, j);
        }
        FirstIndexUnique(rs, k, n);
      }
    }
  }

  /** The first index is the only position that holds k with no k before it. */
  lemma FirstIndexUnique(rs: seq<StockRecord>, k: string, i: nat)
    requires i < |rs| && rs[i].sku == k
    requires forall j :: 0 <= j < i ==> rs[j].sku != k
    ensures k in Skus(rs) && FirstIndex(rs, k) == i
  {
    SkusAt(rs, i);
  }

  /** Re-running the same insert-if-absent batch changes nothing. */
  lemma CreateManyIdempotent(t: Table, rs: seq<StockRecord>)
    ensures AfterCreateMany(AfterCreateMany(t, rs), rs) == AfterCreateMany(t, rs)
  {
    var once := AfterCreateMany(t, rs);
    CreateManyFirstWins(t, rs);
    CreateManyFirstWins(once, rs);
    assert AfterCreateMany(once, rs).Keys == once.Keys;
  }

  /** With no SKU repeated in the batch and none already stored, the two
      policies store the same table. */
  lemma UpsertsAgreeWithCreateMany(t: Table, rs: seq<StockRecord>)
    requires KeyedBySku(t)
    requires forall i, j :: 0 <= i < j < |rs| ==> rs[i].sku != rs[j].sku
    requires forall i :: 0 <= i < |rs| ==> rs[i].sku !in t
    ensures AfterUpserts(t, rs) == AfterCreateMany(t, rs)
  {
    var upserted, created := AfterUpserts(t, rs), AfterCreateMany(t, rs);
    UpsertsLastWins(t, rs);
    CreateManyFirstWins(t, rs);
    assert upserted.Keys == created.Keys;
    forall k | k in upserted
      ensures upserted[k] == created[k]
    {
      if k in Skus(rs) {
        DistinctSkuIndex(t, rs, k);
        assert upserted[k] == rs[LastIndex(rs, k)];
        assert created[k] == rs[FirstIndex(rs, k)];
      } else {
        assert upserted[k] == t[k] && created[k] == t[k];
      }
    }
  }

  /** In a batch without repeated SKUs, a SKU occurs once: its first and last
      positions coincide. */
  lemma DistinctSkuIndex(t: Table, rs: seq<StockRecord>, k: string)
    requires forall i, j :: 0 <= i < j < |rs| ==> rs[i].sku != rs[j].sku
    requires forall i :: 0 <= i < |rs| ==> rs[i].sku !in t
    requires k in Skus(rs)
    ensures LastIndex(rs, k) == FirstIndex(rs, k) && k !in t
  {
    var i, j := LastIndex(rs, k), FirstIndex(rs, k);
    assert rs[i].sku == rs[j].sku;
  }

  /** Two records for one SKU in a batch on an empty table: upserting keeps
      the later one, insert-if-absent keeps the earlier one. */
  lemma DuplicateSkuPolicies(a: StockRecord, b: StockRecord)
    requires a.sku == b.sku && a != b
    ensures AfterUpserts(map[], [a, b]) == map[a.sku := b]
    ensures AfterCreateMany(map[], [a, b]) == map[a.sku := a]
  {
    assert [a, b][..1] == [a];
    assert [a][..0] == [];
    assert AfterUpserts(map[], [a]) == map[a.sku := a];
    assert AfterCreateMany(map[], [a]) == map[a.sku := a];
  }

  /** The Stock table as a mutable store, written in place by the handlers. */
  class StockTable {

    var rows: Table

    ghost predicate Valid()
      reads this
    {
      KeyedBySku(rows)
    }

    constructor ()
      ensures Valid() && rows == map[]
    {
      rows := map[];
    }

    /** One `prisma.stock.upsert` call: update the non-key fields of the
        record stored under r's SKU, or create r. */
    method Upsert(r: StockRecord)
      requires Valid()
      modifies this
      ensures Valid()
      ensures rows == AfterUpsert(old(rows), r)
      ensures rows[r.sku] == r
    {
      if r.sku in rows {
        rows := rows[r.sku := rows[r.sku].(
          itemName := r.itemName,
          category := r.category,
          unit := r.unit,
          currentStock := r.currentStock,
          reorderLevel := r.reorderLevel,
          status := r.status)];
      } else {
        rows := rows[r.sku := r];
      }
    }

    /** `prisma.stock.createMany({ data: rs, skipDuplicates: true })`: each
        record is inserted unless its SKU is already stored. */
    method CreateManySkipDuplicates(rs: seq<StockRecord>)
      requires Valid()
      modifies this
      ensures Valid()
      ensures rows == AfterCreateMany(old(rows), rs)
    {
      var i := 0;
      while i < |rs|
        invariant 0 <= i <= |rs|
        invariant rows == AfterCreateMany(old(rows), rs[..i])
        invariant Valid()
      {
        assert rs[..i + 1][..i] == rs[..i];
        if rs[i].sku !in rows {
          rows := rows[rs[i].sku := rs[i]];
        }
        i := i + 1;
      }
      assert rs[..|rs|] == rs;
    }
  }
}
