/** The in-memory transaction and the engine transaction, as they run. */
module Transactions {
  import opened Basics
  import opened Bytes
  import opened KvMaps

  // ---------------------------------------------------------------------------------------------
  // States and steps.

  function LowerChar(c: char): char {
    if 'A' <= c <= 'Z' then (c as int + 32) as char else c
  }

  /** `to_ascii_lowercase`. */
  function Lower(name: string): (r: string)
    ensures |r| == |name|
  {
    seq(|name|, i requires 0 <= i < |name| => LowerChar(name[i]))
  }

  /** An ASCII letter in either case. */
  predicate OtherCase(c: char, d: char) {
    || ('a' <= c <= 'z' && 'A' <= d <= 'Z' && c as int - 'a' as int == d as int - 'A' as int)
    || ('A' <= c <= 'Z' && 'a' <= d <= 'z' && c as int - 'A' as int == d as int - 'a' as int)
  }

  /** The same savepoint name, whatever the case of its ASCII letters. */
  predicate SameName(a: string, b: string) {
    |a| == |b| && forall i :: 0 <= i < |a| ==> a[i] == b[i] || OtherCase(a[i], b[i])
  }

  lemma LowerCharExactly(c: char, d: char)
    ensures LowerChar(c) == LowerChar(d) <==> c == d || OtherCase(c, d)
  {
  }

  lemma LowerExactly(a: string, b: string)
    ensures Lower(a) == Lower(b) <==> SameName(a, b)
  {
    hide LowerChar, OtherCase;
    if |a| == |b| {
      forall i | 0 <= i < |a| ensures Lower(a)[i] == Lower(b)[i] <==> a[i] == b[i] || OtherCase(a[i], b[i]) {
        LowerCharExactly(a[i], b[i]);
      }
    }
  }

  /** Lowering a name leaves it the same name. */
  lemma LowerIsSame(a: string, b: string)
    ensures SameName(Lower(a), b) <==> SameName(a, b)
  {
    hide SameName, Lower;
    LowerExactly(Lower(a), b);
    LowerExactly(a, b);
    LowerTwice(a);
  }

  lemma LowerTwice(a: string)
    ensures Lower(Lower(a)) == Lower(a)
  {
  }

  datatype Saved = Saved(name: string, pending: Pending)

  /** The last savepoint with the name. */
  function FindSaved(saved: seq<Saved>, name: string): (r: Option<nat>)
    ensures r.Some? ==> r.value < |saved| && saved[r.value].name == name
    ensures r.Some? ==> forall i :: r.value < i < |saved| ==> saved[i].name != name
    ensures r.None? ==> forall i :: 0 <= i < |saved| ==> saved[i].name != name
  {
    if saved == [] then None
    else
      var k := |saved| - 1;
      if saved[k].name == name then Some(k) else FindSaved(saved[..k], name)
  }

  /** The part of a transaction's state that its own operations change. */
  datatype Work = Work(pending: Pending, savepoints: seq<Saved>)

  datatype Op =
    | Put(key: bytes, value: bytes)
    | PutBatch(entries: seq<Entry>)
    | Delete(key: bytes)
    | Savepoint(name: string)
    | RollbackTo(name: string)
    | Release(name: string)

  function PutAll(pending: Pending, entries: seq<Entry>): Pending
    decreases |entries|
  {
    if entries == [] then pending else PutAll(pending[entries[0].0 := Some(entries[0].1)], entries[1..])
  }

  /** One operation; a savepoint that does not exist leaves everything as it is. */
  function Step(w: Work, op: Op): Work {
    match op
    case Put(k, v) => w.(pending := w.pending[k := Some(v)])
    case PutBatch(entries) => w.(pending := PutAll(w.pending, entries))
    case Delete(k) => w.(pending := w.pending[k := None])
    case Savepoint(name) => w.(savepoints := w.savepoints + [Saved(Lower(name), w.pending)])
    case RollbackTo(name) =>
      (match FindSaved(w.savepoints, Lower(name))
       case None => w
       case Some(p) => Work(w.savepoints[p].pending, w.savepoints[..p + 1]))
    case Release(name) =>
      (match FindSaved(w.savepoints, Lower(name))
       case None => w
       case Some(p) => w.(savepoints := w.savepoints[..p]))
  }

  // ---------------------------------------------------------------------------------------------
  // The in-memory store and its transactions.

  /** A store after a batch of puts and deletes. */
  function Batched(base: Store, batch: seq<(bytes, Option<bytes>)>): Store {
    if batch == [] then base
    else
      var (before, last) := (Batched(base, batch[..|batch| - 1]), batch[|batch| - 1]);
      if last.1.Some? then before[last.0 := last.1.value] else before - {last.0}
  }

  lemma BatchedStep(base: Store, batch: seq<(bytes, Option<bytes>)>, k: bytes, v: Option<bytes>)
    ensures var before := Batched(base, batch);
      Batched(base, batch + [(k, v)]) == if v.Some? then before[k := v.value] else before - {k}
  {
    assert (batch + [(k, v)])[..|batch|] == batch;
  }

  class MemoryKvStore {
    var inner: Store

    constructor ()
      ensures inner == map[]
    {
      inner := map[];
    }

    method Put(key: bytes, value: bytes)
      modifies this
      ensures inner == old(inner)[key := value]
    {
      inner := inner[key := value];
    }

    method Delete(key: bytes)
      modifies this
      ensures inner == old(inner) - {key}
    {
      inner := inner - {key};
    }

    /** A write batch of the engine, applied to the table in order. */
    method WriteBatch(batch: seq<(bytes, Option<bytes>)>)
      modifies this
      ensures inner == Batched(old(inner), batch)
    {
      for i := 0 to |batch|
        invariant inner == Batched(old(inner), batch[..i])
      {
        BatchedStep(old(inner), batch[..i], batch[i].0, batch[i].1);
        assert batch[..i + 1] == batch[..i] + [(batch[i].0, batch[i].1)];
        match batch[i].1 {
          case Some(value) => Put(batch[i].0, value);
          case None => Delete(batch[i].0);
        }
      }
      assert batch[..|batch|] == batch;
    }

    method Get(key: bytes) returns (r: Option<bytes>)
      ensures r == Lookup(inner, map[], key)
    {
      r := if key in inner then Some(inner[key]) else None;
    }

    method BeginTransaction() returns (t: MemoryTransaction)
      ensures fresh(t) && t.store == this && t.snapshot == inner && t.Doing() == Work(map[], [])
    {
      t := new MemoryTransaction(this);
    }
  }

  /** `overlay_pending` then `collect_range`: the pending writes in the range done on the rows, listed up to the limit. */
  method CollectRange(base: Store, pending: Pending, range: KeyRange, limit: Option<nat>, reverse: bool) returns (r: seq<Entry>)
    ensures exists all {:trigger Lists(all, Overlay(base, InRange(pending, range)), reverse)} ::
      Lists(all, Overlay(base, InRange(pending, range)), reverse) && r == Take(all, limit)
  {
    var rows := OverlayPending(base, pending, range);
    var all := ListEntries(rows, reverse);
    r := Take(all, limit);
  }

  /** The pending writes outside `left` are done on the base. */
  ghost predicate PartlyDone(base: Store, pending: Pending, left: set<bytes>, rows: Store) {
    forall k {:trigger Lookup(rows, map[], k)} ::
      Lookup(rows, map[], k) == if k in pending && k !in left then pending[k] else Lookup(base, map[], k)
  }

  lemma OneMoreDone(base: Store, pending: Pending, left: set<bytes>, rows: Store, k: bytes)
    requires PartlyDone(base, pending, left, rows) && k in left && k in pending
    ensures PartlyDone(base, pending, left - {k}, if pending[k].Some? then rows[k := pending[k].value] else rows - {k})
  {
    var rows' := if pending[k].Some? then rows[k := pending[k].value] else rows - {k};
    forall j ensures Lookup(rows', map[], j) == if j in pending && j !in left - {k} then pending[j] else Lookup(base, map[], j) {
      assert Lookup(rows, map[], j) == if j in pending && j !in left then pending[j] else Lookup(base, map[], j);
    }
  }

  lemma NothingToDo(base: Store, pending: Pending, left: set<bytes>, rows: Store, k: bytes)
    requires PartlyDone(base, pending, left, rows) && k !in pending
    ensures PartlyDone(base, pending, left - {k}, rows)
  {
    forall j ensures Lookup(rows, map[], j) == if j in pending && j !in left - {k} then pending[j] else Lookup(base, map[], j) {
    }
  }

  lemma AllDone(base: Store, pending: Pending, rows: Store)
    requires PartlyDone(base, pending, {}, rows)
    ensures rows == Overlay(base, pending)
  {
    var o := Overlay(base, pending);
    forall k ensures (k in rows <==> k in o) && (k in rows ==> rows[k] == o[k]) {
      assert Lookup(rows, map[], k) == Lookup(base, pending, k);
    }
  }

  /** Every pending key in range is inserted or removed, one after the other. */
  method OverlayPending(base: Store, pending: Pending, range: KeyRange) returns (rows: Store)
    ensures rows == Overlay(base, InRange(pending, range))
  {
    hide Within, PartlyDone;
    rows := base;
    ghost var within := InRange(pending, range);
    var keys := pending.Keys;
    assert PartlyDone(base, within, keys, rows) by { NothingDoneYet(base, within, keys); }
    while keys != {}
      invariant keys <= pending.Keys && PartlyDone(base, within, keys, rows)
      decreases |keys|
    {
      var k :| k in keys;
      if Within(k, range) {
        OneMoreDone(base, within, keys, rows, k);
        if pending[k].Some? {
          rows := rows[k := pending[k].value];
        } else {
          rows := rows - {k};
        }
      } else {
        NothingToDo(base, within, keys, rows, k);
      }
      keys := keys - {k};
    }
    AllDone(base, within, rows);
  }

  lemma NothingDoneYet(base: Store, pending: Pending, left: set<bytes>)
    requires pending.Keys <= left
    ensures PartlyDone(base, pending, left, base)
  {
  }

  class MemoryTransaction {
    const store: MemoryKvStore
    const snapshot: Store
    var pending: Pending
    var savepoints: seq<Saved>

    constructor (store: MemoryKvStore)
      ensures this.store == store && snapshot == store.inner && Doing() == Work(map[], [])
    {
      this.store := store;
      snapshot := store.inner;
      pending, savepoints := map[], [];
    }

    function Doing(): Work
      reads this
    {
      Work(pending, savepoints)
    }

    method Put(key: bytes, value: bytes)
      modifies this
      ensures Doing() == Step(old(Doing()), Op.Put(key, value))
    {
      pending := pending[key := Some(value)];
    }

    method PutBatch(entries: seq<Entry>)
      modifies this
      ensures Doing() == Step(old(Doing()), Op.PutBatch(entries))
    {
      var i := 0;
      assert entries[0..] == entries;
      while i < |entries|
        invariant 0 <= i <= |entries| && savepoints == old(savepoints)
        invariant PutAll(pending, entries[i..]) == PutAll(old(pending), entries)
      {
        assert entries[i..][1..] == entries[i + 1..];
        pending := pending[entries[i].0 := Some(entries[i].1)];
        i := i + 1;
      }
    }

    method Delete(key: bytes)
      modifies this
      ensures Doing() == Step(old(Doing()), Op.Delete(key))
    {
      pending := pending[key := None];
    }

    method Get(key: bytes) returns (r: Option<bytes>)
      ensures r == Lookup(store.inner, pending, key)
    {
      if key in pending {
        return pending[key];
      }
      r := store.Get(key);
    }

    method SnapshotGet(key: bytes) returns (r: Option<bytes>)
      ensures r == Lookup(snapshot, pending, key)
    {
      if key in pending {
        return pending[key];
      }
      r := if key in snapshot then Some(snapshot[key]) else None;
    }

    /** A scan lists the view of the shared store under the pending writes, cut to the range, up to the limit. */
    method ScanRange(range: KeyRange, limit: Option<nat>, reverse: bool) returns (r: seq<Entry>)
      ensures exists all {:trigger Lists(all, InRange(Overlay(store.inner, pending), range), reverse)} ::
        Lists(all, InRange(Overlay(store.inner, pending), range), reverse) && r == Take(all, limit)
    {
      r := CollectRange(InRange(store.inner, range), pending, range, limit, reverse);
      OverlayInRange(store.inner, pending, range);
    }

    method SnapshotScanRange(range: KeyRange, limit: Option<nat>, reverse: bool) returns (r: seq<Entry>)
      ensures exists all {:trigger Lists(all, InRange(Overlay(snapshot, pending), range), reverse)} ::
        Lists(all, InRange(Overlay(snapshot, pending), range), reverse) && r == Take(all, limit)
    {
      r := CollectRange(InRange(snapshot, range), pending, range, limit, reverse);
      OverlayInRange(snapshot, pending, range);
    }

    /** The pending writes are done on the shared store; the transaction itself keeps its state. */
    method Commit()
      modifies store
      ensures store.inner == Overlay(old(store.inner), pending)
    {
      hide PartlyDone;
      var keys := pending.Keys;
      ghost var base := store.inner;
      NothingDoneYet(base, pending, keys);
      while keys != {}
        invariant keys <= pending.Keys && PartlyDone(base, pending, keys, store.inner)
        decreases |keys|
      {
        var k :| k in keys;
        OneMoreDone(base, pending, keys, store.inner, k);
        if pending[k].Some? {
          store.Put(k, pending[k].value);
        } else {
          store.Delete(k);
        }
        keys := keys - {k};
      }
      AllDone(base, pending, store.inner);
    }

    method Savepoint(name: string)
      modifies this
      ensures Doing() == Step(old(Doing()), Op.Savepoint(name))
    {
      savepoints := savepoints + [Saved(Lower(name), pending)];
    }

    method RollbackToSavepoint(name: string) returns (ok: bool)
      modifies this
      ensures Doing() == Step(old(Doing()), Op.RollbackTo(name))
      ensures ok <==> FindSaved(old(savepoints), Lower(name)).Some?
    {
      var pos := FindSaved(savepoints, Lower(name));
      if pos.None? {
        return false;
      }
      var saved := savepoints[pos.value].pending;
      savepoints := savepoints[..pos.value + 1];
      pending := saved;
      ok := true;
    }

    method ReleaseSavepoint(name: string) returns (ok: bool)
      modifies this
      ensures Doing() == Step(old(Doing()), Op.Release(name))
      ensures ok <==> FindSaved(old(savepoints), Lower(name)).Some?
    {
      var pos := FindSaved(savepoints, Lower(name));
      if pos.None? {
        return false;
      }
      savepoints := savepoints[..pos.value];
      ok := true;
    }
  }

  // ---------------------------------------------------------------------------------------------
  // The engine transaction: the base scan stops early.

  /** How many base entries the cursor loop reads: the limit is looked at after each record. */
  function BaseLimit(limit: Option<nat>): Option<nat> {
    match limit
    case None => None
    case Some(n) => Some(if n == 0 then 1 else n)
  }

  /** The rows read from the base before the pending writes are overlaid. */
  function ReadRows(base: Store, first: seq<Entry>): Store {
    map k | k in base && k in KeysOf(first) :: base[k]
  }

  /** The batch that `commit` builds: every pending write once. Applied to the table, it does exactly those. */
  method BatchOf(ghost base: Store, taken: Pending) returns (batch: seq<(bytes, Option<bytes>)>)
    ensures Batched(base, batch) == Overlay(base, taken)
  {
    hide PartlyDone, Batched;
    var keys := taken.Keys;
    batch := [];
    NoBatch(base);
    NothingDoneYet(base, taken, keys);
    while keys != {}
      invariant keys <= taken.Keys && PartlyDone(base, taken, keys, Batched(base, batch))
      decreases |keys|
    {
      var k :| k in keys;
      OneMoreDone(base, taken, keys, Batched(base, batch), k);
      BatchedStep(base, batch, k, taken[k]);
      batch := batch + [(k, taken[k])];
      keys := keys - {k};
    }
    AllDone(base, taken, Batched(base, batch));
  }

  lemma NoBatch(base: Store)
    ensures Batched(base, []) == base
  {
  }

  class KvEngineTransaction {
    const table: MemoryKvStore
    var pending: Pending

    constructor (table: MemoryKvStore)
      ensures this.table == table && pending == map[]
    {
      this.table := table;
      pending := map[];
    }

    method Put(key: bytes, value: bytes)
      modifies this
      ensures pending == old(pending)[key := Some(value)]
    {
      pending := pending[key := Some(value)];
    }

    method Delete(key: bytes)
      modifies this
      ensures pending == old(pending)[key := None]
    {
      pending := pending[key := None];
    }

    method Get(key: bytes) returns (r: Option<bytes>)
      ensures r == Lookup(table.inner, pending, key)
    {
      if key in pending {
        return pending[key];
      }
      r := table.Get(key);
    }

    /** `cursor` is what the engine's range cursor yields, all of it, in order. */
    method ScanRange(range: KeyRange, limit: Option<nat>, reverse: bool, cursor: seq<Entry>) returns (r: seq<Entry>)
      requires Lists(cursor, InRange(table.inner, range), reverse)
      ensures exists all {:trigger Lists(all, Overlay(ReadRows(InRange(table.inner, range), Take(cursor, BaseLimit(limit))), InRange(pending, range)), reverse)} ::
        && Lists(all, Overlay(ReadRows(InRange(table.inner, range), Take(cursor, BaseLimit(limit))), InRange(pending, range)), reverse)
        && r == Take(all, limit)
    {
      var rows: Store := map[];
      var i := 0;
      KeyCount(cursor, reverse);
      while i < |cursor| && !(i > 0 && limit.Some? && i >= limit.value)
        invariant 0 <= i <= |cursor| && cursor[..i] == Take(cursor, Some(i))
        invariant limit.Some? && i > 0 ==> i <= BaseLimit(limit).value
        invariant rows == ReadRows(InRange(table.inner, range), cursor[..i])
      {
        ReadOne(InRange(table.inner, range), cursor, reverse, i);
        rows := rows[cursor[i].0 := cursor[i].1];
        i := i + 1;
      }
      assert cursor[..i] == Take(cursor, BaseLimit(limit));
      r := CollectRange(rows, pending, range, limit, reverse);
    }

    /** The write batch is taken out of the transaction and done on the table. */
    method Commit()
      modifies this, table
      ensures table.inner == Overlay(old(table.inner), old(pending)) && pending == map[]
    {
      var taken := pending;
      pending := map[];
      var batch := BatchOf(table.inner, taken);
      table.WriteBatch(batch);
    }

    method Rollback()
      modifies this
      ensures pending == map[]
    {
      pending := map[];
    }
  }

  lemma ReadOne(base: Store, cursor: seq<Entry>, reverse: bool, i: nat)
    requires Lists(cursor, base, reverse) && i < |cursor|
    ensures ReadRows(base, cursor[..i + 1]) == ReadRows(base, cursor[..i])[cursor[i].0 := cursor[i].1]
  {
    hide Before;
    KeysOfStep(cursor[..i + 1]);
    assert cursor[..i + 1][..i] == cursor[..i];
  }
}
