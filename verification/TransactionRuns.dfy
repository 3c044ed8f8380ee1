/** Runs of a transaction: an operation log explains its state, and its scans show the merged view. */
module TransactionRuns {
  import opened Basics
  import opened Bytes
  import opened KvMaps
  import opened Transactions

  // ---------------------------------------------------------------------------------------------
  // Whole runs, interleaved with what others do to the shared store.

  /** The transaction's own operation, or the shared store becoming something else. */
  datatype Event = Own(op: Op) | Other(shared: Store)

  datatype World = World(shared: Store, snapshot: Store, work: Work)

  function Begin(shared: Store): World {
    World(shared, shared, Work(map[], []))
  }

  function Happen(w: World, e: Event): World {
    match e
    case Own(op) => w.(work := Step(w.work, op))
    case Other(shared) => w.(shared := shared)
  }

  function Run(w: World, events: seq<Event>): World {
    if events == [] then w else Happen(Run(w, events[..|events| - 1]), events[|events| - 1])
  }

  function OwnOps(events: seq<Event>): seq<Op> {
    if events == [] then []
    else
      var before := OwnOps(events[..|events| - 1]);
      match events[|events| - 1]
      case Own(op) => before + [op]
      case Other(_) => before
  }

  // ---------------------------------------------------------------------------------------------
  // The reference: a log of surviving writes, and marks into it.

  datatype Write = Write(key: bytes, value: Option<bytes>)

  /** A mark has the name as it was typed. */
  datatype Mark = Mark(name: string, at: nat)

  datatype Log = Log(writes: seq<Write>, marks: seq<Mark>)

  function FindMark(marks: seq<Mark>, name: string): Option<nat> {
    if marks == [] then None
    else
      var k := |marks| - 1;
      if SameName(marks[k].name, name) then Some(k) else FindMark(marks[..k], name)
  }

  function WritesOf(entries: seq<Entry>): (r: seq<Write>)
    ensures |r| == |entries|
  {
    seq(|entries|, i requires 0 <= i < |entries| => Write(entries[i].0, Some(entries[i].1)))
  }

  /** Writes append; a savepoint marks the end of the log; rolling back cuts the log at the mark; releasing drops the mark. */
  function Append(l: Log, op: Op): Log {
    match op
    case Put(k, v) => l.(writes := l.writes + [Write(k, Some(v))])
    case PutBatch(entries) => l.(writes := l.writes + WritesOf(entries))
    case Delete(k) => l.(writes := l.writes + [Write(k, None)])
    case Savepoint(name) => l.(marks := l.marks + [Mark(name, |l.writes|)])
    case RollbackTo(name) =>
      (match FindMark(l.marks, name)
       case Some(p) => if p < |l.marks| && l.marks[p].at <= |l.writes| then Log(l.writes[..l.marks[p].at], l.marks[..p + 1]) else l
       case None => l)
    case Release(name) =>
      (match FindMark(l.marks, name)
       case Some(p) => if p < |l.marks| then l.(marks := l.marks[..p]) else l
       case None => l)
  }

  function LogOf(ops: seq<Op>): Log {
    if ops == [] then Log([], []) else Append(LogOf(ops[..|ops| - 1]), ops[|ops| - 1])
  }

  /** The pending map that a log of writes amounts to: the last write to a key counts. */
  function Replay(writes: seq<Write>): Pending {
    if writes == [] then map[]
    else Replay(writes[..|writes| - 1])[writes[|writes| - 1].key := writes[|writes| - 1].value]
  }

  // ---------------------------------------------------------------------------------------------
  // The state is the replay of the log, and every savepoint the replay of the log up to its mark.

  ghost predicate Explains(l: Log, w: Work) {
    && w.pending == Replay(l.writes)
    && |w.savepoints| == |l.marks|
    && (forall i :: 0 <= i < |l.marks| ==> l.marks[i].at <= |l.writes|)
    && (forall i, j :: 0 <= i < j < |l.marks| ==> l.marks[i].at <= l.marks[j].at)
    && forall i :: 0 <= i < |l.marks| ==> w.savepoints[i] == Saved(Lower(l.marks[i].name), Replay(l.writes[..l.marks[i].at]))
  }

  lemma {:induction false} FoundAlike(saved: seq<Saved>, marks: seq<Mark>, name: string)
    requires |saved| == |marks| && forall i :: 0 <= i < |marks| ==> saved[i].name == Lower(marks[i].name)
    ensures FindSaved(saved, Lower(name)) == FindMark(marks, name)
    decreases |saved|
  {
    hide Lower, SameName;
    if saved != [] {
      LowerExactly(marks[|marks| - 1].name, name);
      FoundAlike(saved[..|saved| - 1], marks[..|marks| - 1], name);
    }
  }

  lemma ReplayAppend(writes: seq<Write>, w: Write)
    ensures Replay(writes + [w]) == Replay(writes)[w.key := w.value]
  {
    assert (writes + [w])[..|writes|] == writes;
  }

  lemma WritesStep(entries: seq<Entry>)
    requires entries != []
    ensures WritesOf(entries) == [Write(entries[0].0, Some(entries[0].1))] + WritesOf(entries[1..])
  {
  }

  lemma {:induction false} ReplayBatch(writes: seq<Write>, entries: seq<Entry>)
    ensures Replay(writes + WritesOf(entries)) == PutAll(Replay(writes), entries)
    decreases |entries|
  {
    hide Replay;
    if entries == [] {
      assert writes + WritesOf(entries) == writes;
    } else {
      var first := Write(entries[0].0, Some(entries[0].1));
      ReplayAppend(writes, first);
      ReplayBatch(writes + [first], entries[1..]);
      WritesStep(entries);
      assert writes + WritesOf(entries) == writes + [first] + WritesOf(entries[1..]);
    }
  }

  lemma CutLog(writes: seq<Write>, more: seq<Write>, at: nat)
    requires at <= |writes|
    ensures (writes + more)[..at] == writes[..at]
  {
  }

  lemma AppendExplains(l: Log, w: Work, more: seq<Write>, pending: Pending)
    requires Explains(l, w) && pending == Replay(l.writes + more)
    ensures Explains(l.(writes := l.writes + more), w.(pending := pending))
  {
    hide Replay;
    forall i | 0 <= i < |l.marks| ensures (l.writes + more)[..l.marks[i].at] == l.writes[..l.marks[i].at] {
      CutLog(l.writes, more, l.marks[i].at);
    }
  }

  lemma StepExplained(l: Log, w: Work, op: Op)
    requires Explains(l, w)
    ensures Explains(Append(l, op), Step(w, op))
  {
    hide Replay, Lower, PutAll;
    match op {
      case Put(k, v) => ReplayAppend(l.writes, Write(k, Some(v))); AppendExplains(l, w, [Write(k, Some(v))], w.pending[k := Some(v)]);
      case PutBatch(entries) => ReplayBatch(l.writes, entries); AppendExplains(l, w, WritesOf(entries), PutAll(w.pending, entries));
      case Delete(k) => ReplayAppend(l.writes, Write(k, None)); AppendExplains(l, w, [Write(k, None)], w.pending[k := None]);
      case Savepoint(name) => assert l.writes[..|l.writes|] == l.writes;
      case RollbackTo(name) => FoundAlike(w.savepoints, l.marks, name); RollbackExplained(l, w, name);
      case Release(name) => FoundAlike(w.savepoints, l.marks, name);
    }
  }

  lemma RollbackExplained(l: Log, w: Work, name: string)
    requires Explains(l, w) && FindSaved(w.savepoints, Lower(name)) == FindMark(l.marks, name)
    ensures Explains(Append(l, RollbackTo(name)), Step(w, RollbackTo(name)))
  {
    hide Explains, Replay, Lower, FindMark;
    var found := FindSaved(w.savepoints, Lower(name));
    if found.Some? {
      CutExplained(l, w, found.value);
    }
  }

  /** State and log cut back to mark `p`. */
  lemma CutExplained(l: Log, w: Work, p: nat)
    requires Explains(l, w) && p < |w.savepoints|
    ensures p < |l.marks| && l.marks[p].at <= |l.writes|
    ensures Explains(Log(l.writes[..l.marks[p].at], l.marks[..p + 1]), Work(w.savepoints[p].pending, w.savepoints[..p + 1]))
  {
    hide Replay, Lower;
    var at := l.marks[p].at;
    forall i | 0 <= i <= p ensures l.marks[i].at <= at && l.writes[..at][..l.marks[i].at] == l.writes[..l.marks[i].at] {
      assert i < p ==> l.marks[i].at <= l.marks[p].at;
    }
  }

  /**
   * For every run, with any interleaved changes of the shared store, the pending writes are the replay of the
   * surviving operations; the snapshot is still the one taken at the beginning.
   */
  lemma {:induction false} RunIsExplained(shared: Store, events: seq<Event>)
    ensures var w := Run(Begin(shared), events);
      Explains(LogOf(OwnOps(events)), w.work) && w.snapshot == shared
    decreases |events|
  {
    hide Explains, Append, Step;
    if events == [] {
      assert Explains(Log([], []), Work(map[], [])) by { NothingExplained(); }
    } else {
      var k := |events| - 1;
      RunIsExplained(shared, events[..k]);
      if events[k].Own? {
        StepExplained(LogOf(OwnOps(events[..k])), Run(Begin(shared), events[..k]).work, events[k].op);
        var ops := OwnOps(events[..k]) + [events[k].op];
        assert ops[..|ops| - 1] == OwnOps(events[..k]);
      }
    }
  }

  /** After any run, a savepoint is found by its name as it was typed, in any case: the last one, if there is one. */
  lemma FoundByName(shared: Store, events: seq<Event>, name: string)
    ensures var marks := LogOf(OwnOps(events)).marks;
      match FindSaved(Run(Begin(shared), events).work.savepoints, Lower(name))
      case None => forall i :: 0 <= i < |marks| ==> !SameName(marks[i].name, name)
      case Some(p) => p < |marks| && SameName(marks[p].name, name) && forall i :: p < i < |marks| ==> !SameName(marks[i].name, name)
  {
    hide Lower, SameName, Replay, LogOf, Run, OwnOps;
    RunIsExplained(shared, events);
    var w, l := Run(Begin(shared), events).work, LogOf(OwnOps(events));
    forall i | 0 <= i < |l.marks| ensures w.savepoints[i].name == Lower(name) <==> SameName(l.marks[i].name, name) {
      LowerExactly(l.marks[i].name, name);
    }
  }

  lemma NothingExplained()
    ensures Explains(Log([], []), Work(map[], []))
  {
  }

  /** A snapshot read depends on the begin snapshot and the transaction's own operations, on nothing else. */
  lemma SnapshotReadsAreStable(shared: Store, a: seq<Event>, b: seq<Event>, key: bytes)
    requires OwnOps(a) == OwnOps(b)
    ensures var w, v := Run(Begin(shared), a), Run(Begin(shared), b);
      && Lookup(w.snapshot, w.work.pending, key) == Lookup(v.snapshot, v.work.pending, key)
      && Lookup(w.snapshot, w.work.pending, key) == Lookup(shared, Replay(LogOf(OwnOps(a)).writes), key)
  {
    RunIsExplained(shared, a);
    RunIsExplained(shared, b);
  }

  /** What a snapshot scan may return in a state: the first entries of the overlaid snapshot, in range and in order. */
  ghost predicate SnapshotScan(w: World, range: KeyRange, limit: Option<nat>, reverse: bool, r: seq<Entry>) {
    exists all {:trigger Lists(all, InRange(Overlay(w.snapshot, w.work.pending), range), reverse)} ::
      Lists(all, InRange(Overlay(w.snapshot, w.work.pending), range), reverse) && r == Take(all, limit)
  }

  /** A snapshot scan has one result, and that too depends on the begin snapshot and the own operations alone. */
  lemma SnapshotScansAreStable(shared: Store, a: seq<Event>, b: seq<Event>, range: KeyRange, limit: Option<nat>, reverse: bool,
      r: seq<Entry>, q: seq<Entry>, all: seq<Entry>)
    requires OwnOps(a) == OwnOps(b)
    requires SnapshotScan(Run(Begin(shared), a), range, limit, reverse, r) && SnapshotScan(Run(Begin(shared), b), range, limit, reverse, q)
    requires Lists(all, InRange(Overlay(shared, Replay(LogOf(OwnOps(a)).writes)), range), reverse)
    ensures r == q == Take(all, limit)
  {
    RunIsExplained(shared, a);
    RunIsExplained(shared, b);
    var view := InRange(Overlay(shared, Replay(LogOf(OwnOps(a)).writes)), range);
    hide Lists, Run, LogOf, Replay, OwnOps, Take, Overlay, InRange;
    var x :| Lists(x, view, reverse) && r == Take(x, limit);
    var y :| Lists(y, view, reverse) && q == Take(y, limit);
    ListingUnique(x, all, view, reverse);
    ListingUnique(y, all, view, reverse);
  }

  // ---------------------------------------------------------------------------------------------
  // Rolling back.

  function Steps(w: Work, ops: seq<Op>): Work {
    if ops == [] then w else Step(Steps(w, ops[..|ops| - 1]), ops[|ops| - 1])
  }

  /** No operation of the stretch touches the savepoints that were there when it began. */
  ghost predicate StaysAbove(w: Work, ops: seq<Op>) {
    forall n :: 0 <= n <= |ops| ==> w.savepoints <= Steps(w, ops[..n]).savepoints
  }

  lemma {:induction false} FindLast(saved: seq<Saved>, name: string, p: nat)
    requires p < |saved| && saved[p].name == name && forall i :: p < i < |saved| ==> saved[i].name != name
    ensures FindSaved(saved, name) == Some(p)
    decreases |saved|
  {
    if p < |saved| - 1 {
      FindLast(saved[..|saved| - 1], name, p);
    }
  }

  /**
   * Rolling back to a savepoint restores the writes it saw, and the savepoints with it still in place: after
   * any stretch of operations that stays above it and leaves no newer savepoint of its name, in any case.
   */
  lemma RollbackRestores(w: Work, name: string, ops: seq<Op>)
    requires var s := Step(w, Savepoint(name));
      && StaysAbove(s, ops)
      && forall i :: |s.savepoints| <= i < |Steps(s, ops).savepoints| ==> !SameName(Steps(s, ops).savepoints[i].name, name)
    ensures var s := Step(w, Savepoint(name));
      Step(Steps(s, ops), RollbackTo(name)) == s
  {
    hide Lower, SameName;
    var s := Step(w, Savepoint(name));
    var p, after := |w.savepoints|, Steps(s, ops);
    forall i | p < i < |after.savepoints| ensures after.savepoints[i].name != Lower(name) {
      LowerIsSame(name, name);
      LowerExactly(name, name);
      assert !SameName(after.savepoints[i].name, name);
    }
    assert ops[..|ops|] == ops;
    assert s.savepoints <= after.savepoints;
    assert after.savepoints[p] == s.savepoints[p] == Saved(Lower(name), w.pending);
    FindLast(after.savepoints, Lower(name), p);
    assert after.savepoints[..p + 1] == s.savepoints;
  }

  /** So it can be repeated: the second rollback, after another such stretch, restores the same state. */
  lemma RollbackRepeats(w: Work, name: string, first: seq<Op>, second: seq<Op>)
    requires var s := Step(w, Savepoint(name));
      && StaysAbove(s, first) && StaysAbove(s, second)
      && (forall i :: |s.savepoints| <= i < |Steps(s, first).savepoints| ==> !SameName(Steps(s, first).savepoints[i].name, name))
      && forall i :: |s.savepoints| <= i < |Steps(s, second).savepoints| ==> !SameName(Steps(s, second).savepoints[i].name, name)
    ensures var s := Step(w, Savepoint(name));
      Step(Steps(Step(Steps(s, first), RollbackTo(name)), second), RollbackTo(name)) == s
  {
    RollbackRestores(w, name, first);
    RollbackRestores(w, name, second);
  }

  /** Releasing keeps every write, and forgets the savepoint and those after it. */
  lemma ReleaseKeepsWrites(w: Work, name: string)
    ensures Step(w, Release(name)).pending == w.pending
    ensures var found := FindSaved(w.savepoints, Lower(name));
      Step(w, Release(name)).savepoints == if found.Some? then w.savepoints[..found.value] else w.savepoints
  {
  }

  /** Releasing what a stretch began with leaves its writes, and the savepoints that were there before it. */
  lemma ReleaseForgets(w: Work, name: string, ops: seq<Op>)
    requires var s := Step(w, Savepoint(name));
      && StaysAbove(s, ops)
      && forall i :: |s.savepoints| <= i < |Steps(s, ops).savepoints| ==> !SameName(Steps(s, ops).savepoints[i].name, name)
    ensures var after := Steps(Step(w, Savepoint(name)), ops);
      Step(after, Release(name)) == Work(after.pending, w.savepoints)
  {
    hide Lower, SameName;
    var s := Step(w, Savepoint(name));
    var p, after := |w.savepoints|, Steps(s, ops);
    RollbackRestores(w, name, ops);
    assert ops[..|ops|] == ops;
    assert s.savepoints <= after.savepoints;
    assert FindSaved(after.savepoints, Lower(name)) == Some(p) by {
      forall i | p < i < |after.savepoints| ensures after.savepoints[i].name != Lower(name) {
        LowerIsSame(name, name);
        LowerExactly(name, name);
        assert !SameName(after.savepoints[i].name, name);
      }
      assert after.savepoints[p] == s.savepoints[p] == Saved(Lower(name), w.pending);
      FindLast(after.savepoints, Lower(name), p);
    }
    assert after.savepoints[..p] == w.savepoints;
  }

  /** A transaction reads what it wrote, over any base, and nothing else changes. */
  lemma OwnWritesRead(base: Store, w: Work, k: bytes, v: bytes, j: bytes)
    ensures Lookup(base, Step(w, Put(k, v)).pending, j) == if j == k then Some(v) else Lookup(base, w.pending, j)
    ensures Lookup(base, Step(w, Delete(k)).pending, j) == if j == k then None else Lookup(base, w.pending, j)
    ensures k in Step(w, Delete(k)).pending
  {
  }

  function Puts(entries: seq<Entry>): (ops: seq<Op>)
    ensures |ops| == |entries|
  {
    seq(|entries|, i requires 0 <= i < |entries| => Put(entries[i].0, entries[i].1))
  }

  /** A batch is its puts in order. */
  lemma {:induction false} BatchIsPuts(w: Work, entries: seq<Entry>)
    ensures Step(w, PutBatch(entries)) == Steps(w, Puts(entries))
    decreases |entries|
  {
    if entries != [] {
      var k := |entries| - 1;
      BatchIsPuts(w, entries[..k]);
      assert Puts(entries)[..k] == Puts(entries[..k]);
      PutAllAppend(w.pending, entries[..k], entries[k]);
      assert entries[..k] + [entries[k]] == entries;
    }
  }

  lemma {:induction false} PutAllAppend(pending: Pending, entries: seq<Entry>, e: Entry)
    ensures PutAll(pending, entries + [e]) == PutAll(pending, entries)[e.0 := Some(e.1)]
    decreases |entries|
  {
    if entries != [] {
      assert (entries + [e])[1..] == entries[1..] + [e];
      PutAllAppend(pending[entries[0].0 := Some(entries[0].1)], entries[1..], e);
    }
  }

  /** Committing overlays exactly the pending map: its keys get its values, every other key is untouched. */
  lemma CommitIsExact(shared: Store, events: seq<Event>, key: bytes)
    ensures var w := Run(Begin(shared), events);
      var pending, after := Replay(LogOf(OwnOps(events)).writes), Overlay(w.shared, w.work.pending);
      Lookup(after, map[], key) == if key in pending then pending[key] else Lookup(w.shared, map[], key)
  {
    RunIsExplained(shared, events);
  }

  // ---------------------------------------------------------------------------------------------
  // Limited scans of the engine transaction.

  /** What the engine's limited scan returns, given the full listings. */
  ghost predicate EngineScan(r: seq<Entry>, base: Store, pending: Pending, cursor: seq<Entry>, limit: Option<nat>, reverse: bool) {
    exists all {:trigger Lists(all, Overlay(ReadRows(base, Take(cursor, BaseLimit(limit))), pending), reverse)} ::
      Lists(all, Overlay(ReadRows(base, Take(cursor, BaseLimit(limit))), pending), reverse) && r == Take(all, limit)
  }

  /** The keys that survive the truncation: read from the base, or pending. */
  function KeptKeys(pending: Pending, cursor: seq<Entry>, limit: Option<nat>): set<bytes> {
    KeysOf(Take(cursor, BaseLimit(limit))) + pending.Keys
  }

  lemma TruncatedOverlay(base: Store, pending: Pending, cursor: seq<Entry>, limit: Option<nat>, reverse: bool)
    requires Lists(cursor, base, reverse)
    ensures var part, merged := Overlay(ReadRows(base, Take(cursor, BaseLimit(limit))), pending), Overlay(base, pending);
      && (forall k :: k in part <==> k in merged && k in KeptKeys(pending, cursor, limit))
      && forall k :: k in part ==> part[k] == merged[k]
  {
    hide Before, Ordered, Take, BaseLimit;
    var rows := ReadRows(base, Take(cursor, BaseLimit(limit)));
    forall k ensures Lookup(rows, pending, k) == if k in KeptKeys(pending, cursor, limit) then Lookup(base, pending, k) else None {
    }
  }

  lemma FilterBySubset(s: seq<Entry>, a: set<bytes>, b: set<bytes>)
    requires forall i :: 0 <= i < |s| ==> (s[i].0 in a <==> s[i].0 in b)
    ensures FilterEntries(s, a) == FilterEntries(s, b)
  {
    if s != [] {
      FilterBySubset(s[1..], a, b);
    }
  }

  /** The engine's scan is the merged listing without the keys that the truncation lost, taken up to the limit. */
  lemma EngineScanIsFiltered(r: seq<Entry>, base: Store, pending: Pending, cursor: seq<Entry>, merged: seq<Entry>, limit: Option<nat>, reverse: bool)
    requires Lists(cursor, base, reverse) && Lists(merged, Overlay(base, pending), reverse)
    requires EngineScan(r, base, pending, cursor, limit, reverse)
    ensures r == Take(FilterEntries(merged, KeptKeys(pending, cursor, limit)), limit)
  {
    var part := Overlay(ReadRows(base, Take(cursor, BaseLimit(limit))), pending);
    var kept := KeptKeys(pending, cursor, limit);
    TruncatedOverlay(base, pending, cursor, limit, reverse);
    hide Before, Ordered, BaseLimit, KeptKeys, Overlay, ReadRows, Take;
    FilteredListing(merged, Overlay(base, pending), part, reverse);
    FilterBySubset(merged, part.Keys, kept);
    var all :| Lists(all, part, reverse) && r == Take(all, limit);
    ListingUnique(all, FilterEntries(merged, kept), part, reverse);
  }

  /** Truncating the base scan is harmless when each of the first `limit` merged entries is pending or was read. */
  lemma LimitedScanKept(r: seq<Entry>, base: Store, pending: Pending, cursor: seq<Entry>, merged: seq<Entry>, limit: nat, reverse: bool)
    requires Lists(cursor, base, reverse) && Lists(merged, Overlay(base, pending), reverse)
    requires EngineScan(r, base, pending, cursor, Some(limit), reverse)
    ensures r == Take(merged, Some(limit)) <==>
      forall i :: 0 <= i < limit && i < |merged| ==> merged[i].0 in KeptKeys(pending, cursor, Some(limit))
  {
    hide Lists, EngineScan, KeptKeys;
    EngineScanIsFiltered(r, base, pending, cursor, merged, Some(limit), reverse);
    TakeOfFilter(merged, KeptKeys(pending, cursor, Some(limit)), limit);
  }

  /** The first base entry from position `from` on that no pending write hides. */
  function FirstFree(cursor: seq<Entry>, pending: Pending, from: nat): (j: Option<nat>)
    ensures j.Some? ==> from <= j.value < |cursor| && cursor[j.value].0 !in pending
    ensures forall i :: from <= i < |cursor| && (j.Some? ==> i < j.value) ==> cursor[i].0 in pending
    decreases |cursor| - from
  {
    if from >= |cursor| then None else if cursor[from].0 !in pending then Some(from) else FirstFree(cursor, pending, from + 1)
  }

  /** The pending puts that come before a key. */
  function PutsBefore(pending: Pending, k: bytes, reverse: bool): set<bytes> {
    set x | x in pending && pending[x].Some? && Before(x, k, reverse)
  }

  /** The base entries that the limited scan reads and no pending write hides. */
  function ReadAndFree(pending: Pending, cursor: seq<Entry>, limit: Option<nat>): set<bytes> {
    KeysOf(Take(cursor, BaseLimit(limit))) - pending.Keys
  }

  /**
   * What a caller can tell before the scan: no base entry is left unread in range but those that pending writes
   * hide, or the pending puts before the first such entry, and the entries read less those that pending writes
   * hide, fill the limit without it.
   */
  predicate FillsLimit(pending: Pending, cursor: seq<Entry>, limit: nat, reverse: bool) {
    match FirstFree(cursor, pending, |Take(cursor, BaseLimit(Some(limit)))|)
    case None => true
    case Some(j) => |PutsBefore(pending, cursor[j].0, reverse)| + |ReadAndFree(pending, cursor, Some(limit))| >= limit
  }

  lemma KeyAt(s: seq<Entry>, m: Store, reverse: bool, k: bytes) returns (i: nat)
    requires Lists(s, m, reverse) && k in m
    ensures i < |s| && s[i].0 == k
  {
    assert (k, m[k]) in s;
    i :| 0 <= i < |s| && s[i] == (k, m[k]);
  }

  lemma PositionOrder(s: seq<Entry>, reverse: bool, i: nat, j: nat)
    requires Ordered(s, reverse) && i < |s| && j < |s|
    ensures i < j <==> Before(s[i].0, s[j].0, reverse)
  {
    if i == j { BeforeStrict(s[i].0, s[j].0, reverse); }
    if i < j { BeforeStrict(s[i].0, s[j].0, reverse); }
    if j < i { BeforeStrict(s[j].0, s[i].0, reverse); }
  }

  /** The merged keys before the first lost one are the pending puts before it and the entries read that are not hidden. */
  lemma KeysBeforeLost(base: Store, pending: Pending, cursor: seq<Entry>, merged: seq<Entry>, limit: nat, reverse: bool, j: nat, p: nat, k: bytes)
    requires Lists(cursor, base, reverse) && Lists(merged, Overlay(base, pending), reverse)
    requires FirstFree(cursor, pending, |Take(cursor, BaseLimit(Some(limit)))|) == Some(j)
    requires p < |merged| && merged[p].0 == cursor[j].0
    ensures k in KeysOf(merged[..p]) <==> k in PutsBefore(pending, cursor[j].0, reverse) + ReadAndFree(pending, cursor, Some(limit))
  {
    hide Before, Ordered, Overlay, BaseLimit, FirstFree;
    var read := Take(cursor, BaseLimit(Some(limit)));
    assert forall i :: 0 <= i < |read| ==> read[i] == cursor[i];
    if k in KeysOf(merged[..p]) {
      var i :| 0 <= i < p && merged[..p][i].0 == k;
      PositionOrder(merged, reverse, i, p);
      assert k in Overlay(base, pending);
      if k !in pending {
        var a := KeyAt(cursor, base, reverse, k);
        PositionOrder(cursor, reverse, a, j);
        FreeMeans(cursor, pending, |read|, j, a);
        assert read[a].0 == k;
      }
    }
    if k in PutsBefore(pending, cursor[j].0, reverse) {
      assert k in Overlay(base, pending) by { assert Lookup(base, pending, k).Some?; }
      var i := KeyAt(merged, Overlay(base, pending), reverse, k);
      PositionOrder(merged, reverse, i, p);
      assert merged[..p][i].0 == k;
    }
    if k in ReadAndFree(pending, cursor, Some(limit)) {
      var a :| 0 <= a < |read| && read[a].0 == k;
      FreeMeans(cursor, pending, |read|, j, a);
      PositionOrder(cursor, reverse, a, j);
      assert k in Overlay(base, pending) by { assert cursor[a].0 in base && Lookup(base, pending, k).Some?; }
      var i := KeyAt(merged, Overlay(base, pending), reverse, k);
      PositionOrder(merged, reverse, i, p);
      assert merged[..p][i].0 == k;
    }
  }

  lemma FreeMeans(cursor: seq<Entry>, pending: Pending, from: nat, j: nat, i: nat)
    requires FirstFree(cursor, pending, from) == Some(j) && i < |cursor|
    ensures from <= j < |cursor| && cursor[j].0 !in pending && (from <= i < j ==> cursor[i].0 in pending)
  {
  }

  lemma NothingLost(base: Store, pending: Pending, cursor: seq<Entry>, merged: seq<Entry>, limit: nat, reverse: bool, i: nat)
    requires Lists(cursor, base, reverse) && Lists(merged, Overlay(base, pending), reverse) && i < |merged|
    requires FirstFree(cursor, pending, |Take(cursor, BaseLimit(Some(limit)))|).None?
    ensures merged[i].0 in KeptKeys(pending, cursor, Some(limit))
  {
    hide Before, Ordered, BaseLimit;
    var k, read := merged[i].0, Take(cursor, BaseLimit(Some(limit)));
    if k !in pending {
      assert k in base by { assert Lookup(base, pending, k).Some?; }
      var a := KeyAt(cursor, base, reverse, k);
      assert a < |read| && read[a].0 == k;
    }
  }

  /** The first lost key is at the position that the two sets of keys before it leave. */
  lemma LostPosition(base: Store, pending: Pending, cursor: seq<Entry>, merged: seq<Entry>, limit: nat, reverse: bool, j: nat) returns (p: nat)
    requires Lists(cursor, base, reverse) && Lists(merged, Overlay(base, pending), reverse)
    requires FirstFree(cursor, pending, |Take(cursor, BaseLimit(Some(limit)))|) == Some(j)
    ensures p < |merged| && merged[p].0 !in KeptKeys(pending, cursor, Some(limit))
    ensures p == |PutsBefore(pending, cursor[j].0, reverse)| + |ReadAndFree(pending, cursor, Some(limit))|
    ensures forall i :: 0 <= i < p ==> merged[i].0 in KeptKeys(pending, cursor, Some(limit))
  {
    hide Before, Overlay, BaseLimit, FirstFree, PutsBefore, ReadAndFree, KeptKeys;
    var puts, free := PutsBefore(pending, cursor[j].0, reverse), ReadAndFree(pending, cursor, Some(limit));
    p := PositionOfFree(base, pending, cursor, merged, limit, reverse, j);
    forall k ensures k in KeysOf(merged[..p]) <==> k in puts + free {
      KeysBeforeLost(base, pending, cursor, merged, limit, reverse, j, p, k);
    }
    assert KeysOf(merged[..p]) == puts + free;
    KeyCount(merged[..p], reverse);
    PutsAndFree(pending, cursor, limit, reverse, cursor[j].0);
    forall i | 0 <= i < p ensures merged[i].0 in KeptKeys(pending, cursor, Some(limit)) {
      assert merged[..p][i].0 in KeysOf(merged[..p]);
    }
  }

  /** The two sets have nothing in common, and only keys that the scan keeps. */
  lemma PutsAndFree(pending: Pending, cursor: seq<Entry>, limit: nat, reverse: bool, u: bytes)
    ensures var puts, free := PutsBefore(pending, u, reverse), ReadAndFree(pending, cursor, Some(limit));
      |puts + free| == |puts| + |free| && puts + free <= KeptKeys(pending, cursor, Some(limit))
  {
    hide Before, BaseLimit, Take;
    assert PutsBefore(pending, u, reverse) !! ReadAndFree(pending, cursor, Some(limit));
  }

  lemma PositionOfFree(base: Store, pending: Pending, cursor: seq<Entry>, merged: seq<Entry>, limit: nat, reverse: bool, j: nat) returns (p: nat)
    requires Lists(cursor, base, reverse) && Lists(merged, Overlay(base, pending), reverse)
    requires FirstFree(cursor, pending, |Take(cursor, BaseLimit(Some(limit)))|) == Some(j)
    ensures p < |merged| && merged[p].0 == cursor[j].0 && merged[p].0 !in KeptKeys(pending, cursor, Some(limit))
  {
    hide Before, Overlay, BaseLimit, FirstFree;
    var read := Take(cursor, BaseLimit(Some(limit)));
    FreeMeans(cursor, pending, |read|, j, j);
    var u := cursor[j].0;
    assert u in Overlay(base, pending) by { assert Lookup(base, pending, u).Some?; }
    p := KeyAt(merged, Overlay(base, pending), reverse, u);
    if u in KeysOf(read) {
      var a :| 0 <= a < |read| && read[a].0 == u;
      assert read[a] == cursor[a];
      PositionOrder(cursor, reverse, a, j);
      BeforeStrict(u, u, reverse);
    }
  }

  /**
   * Exactly when truncating the base scan is harmless, in terms of what is known before the scan: forwards or
   * backwards, for every base, pending map and limit.
   */
  lemma LimitedScanExact(r: seq<Entry>, base: Store, pending: Pending, cursor: seq<Entry>, merged: seq<Entry>, limit: nat, reverse: bool)
    requires Lists(cursor, base, reverse) && Lists(merged, Overlay(base, pending), reverse)
    requires EngineScan(r, base, pending, cursor, Some(limit), reverse)
    ensures r == Take(merged, Some(limit)) <==> FillsLimit(pending, cursor, limit, reverse)
  {
    hide Lists, EngineScan, KeptKeys, PutsBefore, ReadAndFree, FirstFree, BaseLimit, Take;
    LimitedScanKept(r, base, pending, cursor, merged, limit, reverse);
    match FirstFree(cursor, pending, |Take(cursor, BaseLimit(Some(limit)))|)
    case None =>
      forall i | 0 <= i < limit && i < |merged| ensures merged[i].0 in KeptKeys(pending, cursor, Some(limit)) {
        NothingLost(base, pending, cursor, merged, limit, reverse, i);
      }
    case Some(j) =>
      var p := LostPosition(base, pending, cursor, merged, limit, reverse, j);
  }

  /** Without a limit nothing is lost. */
  lemma UnlimitedScanExact(r: seq<Entry>, base: Store, pending: Pending, cursor: seq<Entry>, merged: seq<Entry>, reverse: bool)
    requires Lists(cursor, base, reverse) && Lists(merged, Overlay(base, pending), reverse)
    requires EngineScan(r, base, pending, cursor, None, reverse)
    ensures r == merged
  {
    hide Before, Ordered;
    EngineScanIsFiltered(r, base, pending, cursor, merged, None, reverse);
    forall i | 0 <= i < |merged| ensures merged[i].0 in KeptKeys(pending, cursor, None) {
      var k := merged[i].0;
      if k !in pending {
        assert Lookup(base, pending, k).Some?;
        assert (k, base[k]) in cursor;
      }
    }
    FilterBySubset(merged, KeptKeys(pending, cursor, None), KeysOf(merged));
    FilterAll(merged);
  }

  lemma FilterAll(s: seq<Entry>)
    ensures FilterEntries(s, KeysOf(s)) == s
  {
    FilterWhole(s, KeysOf(s));
  }

  lemma {:induction false} FilterWhole(s: seq<Entry>, keys: set<bytes>)
    requires forall i :: 0 <= i < |s| ==> s[i].0 in keys
    ensures FilterEntries(s, keys) == s
    decreases |s|
  {
    if s != [] {
      FilterWhole(s[1..], keys);
    }
  }

  /** With no pending delete of a base key that was read, the limited scan is the merged view's. */
  lemma NoDeletesNoLoss(r: seq<Entry>, base: Store, pending: Pending, cursor: seq<Entry>, merged: seq<Entry>, limit: nat, reverse: bool)
    requires Lists(cursor, base, reverse) && Lists(merged, Overlay(base, pending), reverse)
    requires EngineScan(r, base, pending, cursor, Some(limit), reverse)
    requires forall k :: k in pending && pending[k].None? ==> k !in KeysOf(Take(cursor, BaseLimit(Some(limit))))
    ensures r == Take(merged, Some(limit))
  {
    hide EngineScan;
    LimitedScanExact(r, base, pending, cursor, merged, limit, reverse);
    NoDeletesFill(base, pending, cursor, limit, reverse);
  }

  /** The entries read alone fill the limit when none of them is deleted: each is a put before what is unread, or free. */
  lemma NoDeletesFill(base: Store, pending: Pending, cursor: seq<Entry>, limit: nat, reverse: bool)
    requires Lists(cursor, base, reverse)
    requires forall k :: k in pending && pending[k].None? ==> k !in KeysOf(Take(cursor, BaseLimit(Some(limit))))
    ensures FillsLimit(pending, cursor, limit, reverse)
  {
    hide Before, FirstFree, Take, BaseLimit, PutsBefore, ReadAndFree;
    var read := Take(cursor, BaseLimit(Some(limit)));
    var first := FirstFree(cursor, pending, |read|);
    if first.Some? {
      var u := cursor[first.value].0;
      var puts, free := PutsBefore(pending, u, reverse), ReadAndFree(pending, cursor, Some(limit));
      forall k | k in KeysOf(read) ensures k in puts + free {
        ReadIsPutOrFree(base, pending, cursor, limit, reverse, first.value, k);
      }
      SubsetCount(KeysOf(read), puts + free);
      PutsAndFree(pending, cursor, limit, reverse, u);
      ReadCount(base, pending, cursor, limit, reverse, first.value);
    }
  }

  lemma ReadIsPutOrFree(base: Store, pending: Pending, cursor: seq<Entry>, limit: nat, reverse: bool, j: nat, k: bytes)
    requires Lists(cursor, base, reverse) && FirstFree(cursor, pending, |Take(cursor, BaseLimit(Some(limit)))|) == Some(j)
    requires k in KeysOf(Take(cursor, BaseLimit(Some(limit)))) && (k in pending ==> pending[k].Some?)
    ensures k in PutsBefore(pending, cursor[j].0, reverse) + ReadAndFree(pending, cursor, Some(limit))
  {
    hide Before, FirstFree;
    var read := Take(cursor, BaseLimit(Some(limit)));
    var i :| 0 <= i < |read| && read[i].0 == k;
    assert read[i] == cursor[i];
    FreeMeans(cursor, pending, |read|, j, i);
    PositionOrder(cursor, reverse, i, j);
  }

  /** Where something is left unread, as many entries were read as the limit says. */
  lemma ReadCount(base: Store, pending: Pending, cursor: seq<Entry>, limit: nat, reverse: bool, j: nat)
    requires Lists(cursor, base, reverse) && FirstFree(cursor, pending, |Take(cursor, BaseLimit(Some(limit)))|) == Some(j)
    ensures |KeysOf(Take(cursor, BaseLimit(Some(limit))))| >= limit
  {
    hide Before, FirstFree;
    var read := Take(cursor, BaseLimit(Some(limit)));
    FreeMeans(cursor, pending, |read|, j, j);
    assert forall a, b :: 0 <= a < b < |read| ==> Before(cursor[a].0, cursor[b].0, reverse);
    KeyCount(read, reverse);
  }

  lemma SubsetCount(a: set<bytes>, b: set<bytes>)
    requires a <= b
    ensures |a| <= |b|
  {
    if a != {} {
      var x :| x in a;
      SubsetCount(a - {x}, b - {x});
    }
  }

  /** With deletes it can go wrong: keys 1 and 2 stored, 1 deleted, one entry wanted. The merged view has 2, the scan nothing. */
  lemma DeleteLosesRow()
    ensures var base: Store := map[[1] := [], [2] := []];
      var pending: Pending := map[[1] := None];
      var cursor: seq<Entry> := [([1], []), ([2], [])];
      Lists(cursor, base, false) && EngineScan([], base, pending, cursor, Some(1), false) && Lists([([2], [])], Overlay(base, pending), false)
  {
    var base: Store := map[[1] := [], [2] := []];
    var pending: Pending := map[[1] := None];
    var cursor: seq<Entry> := [([1], []), ([2], [])];
    assert Lt([1], [2]);
    assert cursor[0] == ([1], base[[1]]) && cursor[1] == ([2], base[[2]]);
    var read := Take(cursor, BaseLimit(Some(1)));
    assert read == [([1], [])] && read[0].0 == [1];
    var part := Overlay(ReadRows(base, read), pending);
    forall k ensures Lookup(ReadRows(base, read), pending, k).None? {
    }
    assert Lists([], part, false);
    assert Lookup(base, pending, [2]) == Some([]) && Lookup(base, pending, [1]) == None;
    assert [([2], [])][0] == ([2], Overlay(base, pending)[[2]]);
  }
}
