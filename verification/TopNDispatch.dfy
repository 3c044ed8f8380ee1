/** Which Top-N scan runs, and that it does not matter: every choice returns the sorted page. */
module TopNDispatch {
  import opened Basics
  import opened Bytes
  import opened Values
  import opened TupleCodec
  import opened Keys
  import opened RowFormat
  import opened FastNumericDecode
  import opened FastPredicates
  import opened SlotComparison
  import opened AggregateScan
  import opened TopNHeap
  import opened TopNOrder
  import opened TopNPlan
  import opened TopNScan
  import opened TopNAgreement
  import opened KeyScan

  /** `primary_key_ordered`, as the planner sets it. */
  predicate PrimaryKeyOrdered(plan: TopNPlan) {
    plan.pkIdx == Some(plan.orderIdx)
  }

  function KeyOrderedOutput(plan: TopNPlan, records: seq<bytes>): Result<seq<bytes>> {
    if Window(plan) == 0 then Ok([])
    else
      match OrderedRows(plan, records, Window(plan))
      case Err => Err
      case Ok(rows) => Ok(Page(rows, plan.skip, plan.fetch))
  }

  function FastOutput(plan: TopNPlan, fp: FastTopN, records: seq<bytes>): Result<seq<bytes>> {
    match FastStream(plan, fp, records, NullSlots(|fp.required|))
    case Err => Err
    case Ok(stream) => Ok(Selected(plan, SlotComparator(plan.descending, plan.nullsFirst), stream))
  }

  function GeneralOutput(plan: TopNPlan, records: seq<bytes>): Result<seq<bytes>> {
    match GeneralStream(plan, records)
    case Err => Err
    case Ok(stream) => Ok(Selected(plan, ValueComparator(plan.descending, plan.nullsFirst), stream))
  }

  function Output(plan: TopNPlan, parse: ParseF64, entries: seq<Record>): Result<seq<bytes>> {
    if PrimaryKeyOrdered(plan) then KeyOrderedOutput(plan, ScanOrder(plan, entries))
    else
      match CompileTopN(plan, parse)
      case Some(fp) => FastOutput(plan, fp, ValuesOf(entries))
      case None => GeneralOutput(plan, ValuesOf(entries))
  }

  /** The beginning of `execute_topn_scan`: along the primary key, on slots, or on projected values. */
  method Execute(plan: TopNPlan, parse: ParseF64, entries: seq<Record>) returns (r: Result<seq<bytes>>)
    ensures r == Output(plan, parse, entries)
  {
    hide OrderedRows, FastStream, GeneralStream, CompileTopN, ScanOrder, ValuesOf, Selected, Page;
    if PrimaryKeyOrdered(plan) {
      r := ExecutePrimaryKeyOrderedScan(plan, ScanOrder(plan, entries));
    } else {
      var fp := CompileTopN(plan, parse);
      if fp.Some? {
        r := ExecuteTopNFastScan(plan, fp.value, ValuesOf(entries));
      } else {
        r := ExecuteTopNScan(plan, ValuesOf(entries));
      }
    }
  }

  /** The slot path, if it is the one, compares alike and can read every record. */
  ghost predicate SlotPathReady(plan: TopNPlan, parse: ParseF64, entries: seq<Record>) {
    match CompileTopN(plan, parse)
    case None => true
    case Some(fp) => FastReady(plan, fp, parse) && forall i :: 0 <= i < |entries| ==> FastStored(plan, fp, entries[i].value)
  }

  /**
   * Over every table in key order whose keys never compare as equal, whichever scan the plan gets returns sort, skip
   * and take of all rows that satisfy the filters; on the slot path for filters that compare slots as they compare
   * values, along the key for keys in an order that their bytes follow.
   */
  lemma OutputIsSortedPage(plan: TopNPlan, parse: ParseF64, entries: seq<Record>)
    requires ScanReady(plan) && TotallyOrdered(plan) && KeyOrdered(plan, entries) && |entries| < 0x1_0000_0000_0000_0000
    requires forall i :: 0 <= i < |entries| ==> Ranked(plan, entries[i].value)
    requires NeverTie(plan, entries)
    requires if PrimaryKeyOrdered(plan) then KeysFollow(plan, entries) else SlotPathReady(plan, parse, entries)
    ensures Output(plan, parse, entries) == Ok(SortedPage(plan, ValuesOf(entries)))
  {
    hide ScanReady, TotallyOrdered, KeyOrdered, Ranked, CompileTopN, FastReady, FastStored, GeneralStream, FastStream, OrderedRows;
    hide SortedPage, Selected, ScanOrder, UniqueKeys, KeysFollow, NeverTie;
    KeyOrderedIsUnique(plan, entries);
    if PrimaryKeyOrdered(plan) {
      PrimaryKeyScanExact(plan, entries);
    } else {
      var records := ValuesOf(entries);
      assert forall i :: 0 <= i < |records| ==> records[i] == entries[i].value;
      hide ValuesOf;
      TopNScanExact(plan, records);
      match CompileTopN(plan, parse)
      case None =>
      case Some(fp) => FastTopNSelectsTheSame(plan, fp, parse, records, NullSlots(|fp.required|));
    }
  }

  /**
   * And over every table, with a key of any orderable kind or without one, whichever scan the plan gets returns a page
   * that ties with the sorted page position by position.
   */
  lemma OutputUpToTies(plan: TopNPlan, parse: ParseF64, entries: seq<Record>)
    requires ScanReady(plan) && TotallyOrdered(plan) && |entries| < 0x1_0000_0000_0000_0000
    requires forall i :: 0 <= i < |entries| ==> Ranked(plan, entries[i].value)
    requires if PrimaryKeyOrdered(plan) then KeyOrdered(plan, entries) && KeysFollow(plan, entries) else SlotPathReady(plan, parse, entries)
    ensures var out := Output(plan, parse, entries);
      out.Ok? && SortedUpToTies(plan, ValuesOf(entries), out.value)
  {
    hide ScanReady, TotallyOrdered, KeyOrdered, Ranked, CompileTopN, FastReady, FastStored, GeneralStream, FastStream, OrderedRows;
    hide SortedUpToTies, Selected, ScanOrder, KeysFollow;
    if PrimaryKeyOrdered(plan) {
      PrimaryKeyScanUpToTies(plan, entries);
    } else {
      var records := ValuesOf(entries);
      assert forall i :: 0 <= i < |records| ==> records[i] == entries[i].value;
      hide ValuesOf;
      TopNScanUpToTies(plan, records);
      match CompileTopN(plan, parse)
      case None =>
      case Some(fp) => FastTopNSelectsTheSame(plan, fp, parse, records, NullSlots(|fp.required|));
    }
  }
}
