/**
 * `segment_leads_by_state` (close_script.py:176-224): group the leads that
 * have a state and a revenue by state, in order of first occurrence, and
 * report per state the number of leads, the top lead by revenue, the total
 * and the median. The CSV file is not modelled: the result is the list of
 * rows the writer receives, header first.
 */
module Segment {
  import opened Wrappers
  import opened Leads
  import opened Grouping
  import opened RevenueSort
  import opened Statistics

  /** The lead is not skipped by `if not state or revenue is None`. */
  predicate Kept(lead: Lead) {
    lead.state.Some? && lead.state.value != [] && lead.revenue.Some?
  }

  /** The (state, entry) pairs the first loop appends, in input order. */
  function StateEntries(leads: seq<Lead>): (ps: seq<(string, Entry)>)
    ensures |ps| <= |leads|
  {
    if leads == [] then []
    else
      var lead := leads[|leads| - 1];
      StateEntries(leads[..|leads| - 1]) +
        (if Kept(lead) then [(lead.state.value, Entry(lead.name, lead.revenue.value))] else [])
  }

  lemma {:induction false} StateEntriesAppend(a: seq<Lead>, b: seq<Lead>)
    ensures StateEntries(a + b) == StateEntries(a) + StateEntries(b)
    decreases |b|
  {
    if b == [] {
      assert a + b == a;
    } else {
      assert (a + b)[..|a + b| - 1] == a + b[..|b| - 1];
      StateEntriesAppend(a, b[..|b| - 1]);
    }
  }

  /** Each pair comes from a kept lead, of that state, name and revenue. */
  lemma {:induction false} StateEntryFrom(leads: seq<Lead>, k: nat)
    requires k < |StateEntries(leads)|
    ensures exists i ::
      0 <= i < |leads| && Kept(leads[i]) &&
      StateEntries(leads)[k] == (leads[i].state.value, Entry(leads[i].name, leads[i].revenue.value))
    decreases |leads|
  {
    var init := leads[..|leads| - 1];
    var n := |leads| - 1;
    if k < |StateEntries(init)| {
      StateEntryFrom(init, k);
      var i :| 0 <= i < |init| && Kept(init[i]) &&
        StateEntries(init)[k] == (init[i].state.value, Entry(init[i].name, init[i].revenue.value));
      assert leads[i] == init[i];
    } else {
      assert Kept(leads[n]);
    }
  }

  /** One lead contributes one pair if it is kept, none otherwise. */
  lemma StateEntriesSingle(lead: Lead)
    ensures StateEntries([lead]) ==
      if Kept(lead) then [(lead.state.value, Entry(lead.name, lead.revenue.value))] else []
  {
    assert [lead][..0] == [];
  }

  const ReportHeader: seq<string> := ["State", "Total Leads", "Top Revenue Lead", "Total Revenue", "Median Revenue"]

  datatype ReportLine =
    | HeaderLine(columns: seq<string>)
    | StateLine(state: string, totalLeads: nat, topLead: string, totalRevenue: int, medianRevenue: real)

  /** The row of one state (close_script.py:207-222): sort the group by
      revenue, largest first, and summarize it. */
  function StateRow(state: string, entries: seq<Entry>): ReportLine
    requires entries != []
  {
    var sorted := SortByRevenueDesc(entries);
    assert |sorted| == |multiset(sorted)| == |entries|;
    var revenues := Revenues(sorted);
    StateLine(state, |sorted|, sorted[0].name, Sum(revenues), Median(revenues))
  }

  /** The count, total and median are those of the group's own entries: the
      sort changes none of them. */
  lemma StateRowSummarizes(state: string, entries: seq<Entry>)
    requires entries != []
    ensures var line := StateRow(state, entries);
      line.StateLine? && line.state == state && line.totalLeads == |entries| &&
      line.totalRevenue == Sum(Revenues(entries)) &&
      line.medianRevenue == Median(Revenues(entries))
  {
    var sorted := SortByRevenueDesc(entries);
    assert |sorted| == |multiset(sorted)| == |entries|;
    SumOfSorted(entries);
    RevenuesOfSorted(entries);
    MedianOrderFree(Revenues(sorted), Revenues(entries));
  }

  /** The top lead is the first of the group's entries with the largest revenue. */
  lemma TopLead(state: string, entries: seq<Entry>) returns (j: nat)
    requires entries != []
    ensures FirstMaximal(entries, j) && StateRow(state, entries).topLead == entries[j].name
  {
    j := SortedHead(entries);
  }

  /** The median lies between the group's smallest and largest revenue. */
  lemma MedianWithinGroup(state: string, entries: seq<Entry>, lo: int, hi: int)
    requires entries != []
    requires forall i :: 0 <= i < |entries| ==> lo <= entries[i].revenue <= hi
    ensures lo as real <= StateRow(state, entries).medianRevenue <= hi as real
  {
    StateRowSummarizes(state, entries);
    MedianBounds(Revenues(entries), lo, hi);
  }

  lemma StateEntriesSnoc(leads: seq<Lead>, i: nat)
    requires i < |leads|
    ensures !Kept(leads[i]) ==> StateEntries(leads[..i + 1]) == StateEntries(leads[..i])
    ensures Kept(leads[i]) ==>
      StateEntries(leads[..i + 1]) ==
        StateEntries(leads[..i]) + [(leads[i].state.value, Entry(leads[i].name, leads[i].revenue.value))]
  {
    assert leads[..i + 1][..i] == leads[..i];
    assert StateEntries(leads[..i]) + [] == StateEntries(leads[..i]);
  }

  /** The first loop (close_script.py:180-191): `state_map` and its key order. */
  method GroupByState(leads: seq<Lead>) returns (order: seq<string>, stateMap: map<string, seq<Entry>>)
    ensures order == Keys(StateEntries(leads))
    ensures stateMap.Keys == KeySet(StateEntries(leads))
    ensures forall state :: state in stateMap ==> stateMap[state] == Bucket(StateEntries(leads), state)
  {
    order := [];
    stateMap := map[];
    GroupedAtStart(StateEntries(leads[..0]));
    for i := 0 to |leads|
      invariant Grouped(StateEntries(leads[..i]), order, stateMap)
    {
      var lead := leads[i];
      ghost var ps := StateEntries(leads[..i]);
      StateEntriesSnoc(leads, i);
      var state := lead.state;
      var revenue := lead.revenue;
      if state.None? || state.value == [] || revenue.None? {
        continue;
      }
      var entry := Entry(lead.name, revenue.value);
      GroupedStep(ps, order, stateMap, (state.value, entry));
      // `state_map[state]` on a defaultdict inserts a missing key with `[]`.
      var entries := if state.value in stateMap then stateMap[state.value] else [];
      if state.value !in stateMap {
        order := order + [state.value];
      }
      stateMap := stateMap[state.value := entries + [entry]];
    }
    assert leads[..|leads|] == leads;
  }

  /** The rows of the states `ks`, in that order. */
  function Rows(ps: seq<(string, Entry)>, ks: seq<string>): (rows: seq<ReportLine>)
    requires forall i :: 0 <= i < |ks| ==> ks[i] in KeySet(ps)
    ensures |rows| == |ks|
  {
    if ks == [] then []
    else Rows(ps, ks[..|ks| - 1]) + [StateRow(ks[|ks| - 1], Bucket(ps, ks[|ks| - 1]))]
  }

  lemma RowsSnoc(ps: seq<(string, Entry)>, ks: seq<string>, j: nat)
    requires j < |ks| && forall i :: 0 <= i < |ks| ==> ks[i] in KeySet(ps)
    ensures Rows(ps, ks[..j + 1]) == Rows(ps, ks[..j]) + [StateRow(ks[j], Bucket(ps, ks[j]))]
  {
    assert ks[..j + 1][..j] == ks[..j];
  }

  lemma {:induction false} RowsIndex(ps: seq<(string, Entry)>, ks: seq<string>, j: nat)
    requires j < |ks| && forall i :: 0 <= i < |ks| ==> ks[i] in KeySet(ps)
    ensures Bucket(ps, ks[j]) != [] && Rows(ps, ks)[j] == StateRow(ks[j], Bucket(ps, ks[j]))
    decreases |ks|
  {
    if j < |ks| - 1 {
      RowsIndex(ps, ks[..|ks| - 1], j);
    }
  }

  /** What the report holds: the header, then one row per state in
      first-occurrence order. */
  function Report(leads: seq<Lead>): (report: seq<ReportLine>)
    ensures |report| == |Keys(StateEntries(leads))| + 1 && report[0] == HeaderLine(ReportHeader)
  {
    var ps := StateEntries(leads);
    [HeaderLine(ReportHeader)] + Rows(ps, Keys(ps))
  }

  /** Row `j + 1` of the report is the row of the `j`-th state to occur, over
      exactly the kept leads of that state, in input order. */
  lemma ReportRow(leads: seq<Lead>, j: nat)
    requires j < |Keys(StateEntries(leads))|
    ensures var ps := StateEntries(leads);
      var state := Keys(ps)[j];
      Bucket(ps, state) != [] && Report(leads)[j + 1] == StateRow(state, Bucket(ps, state))
  {
    var ps := StateEntries(leads);
    RowsIndex(ps, Keys(ps), j);
  }

  method SegmentLeadsByState(leads: seq<Lead>) returns (report: seq<ReportLine>)
    ensures report == Report(leads)
  {
    var order, stateMap := GroupByState(leads);
    var rows := StateRows(StateEntries(leads), order, stateMap);
    // the header is the first line written
    report := [HeaderLine(ReportHeader)] + rows;
  }

  /** The second loop (close_script.py:207-222): one row per state, in order. */
  method StateRows(ghost ps: seq<(string, Entry)>, order: seq<string>, stateMap: map<string, seq<Entry>>)
    returns (rows: seq<ReportLine>)
    requires forall i :: 0 <= i < |order| ==>
      order[i] in KeySet(ps) && order[i] in stateMap && stateMap[order[i]] == Bucket(ps, order[i])
    ensures rows == Rows(ps, order)
  {
    rows := [];
    for j := 0 to |order|
      invariant rows == Rows(ps, order[..j])
    {
      var state := order[j];
      var entries := stateMap[state];
      RowsSnoc(ps, order, j);
      rows := rows + [StateRow(state, entries)];
    }
    assert order[..|order|] == order;
  }

  /** The `Total Leads` column of `rows`, added up; the header counts nothing. */
  function LeadsCounted(rows: seq<ReportLine>): nat {
    if rows == [] then 0
    else
      LeadsCounted(rows[..|rows| - 1]) +
      (match rows[|rows| - 1] case StateLine(_, n, _, _, _) => n case HeaderLine(_) => 0)
  }

  lemma LeadsCountedSnoc(rows: seq<ReportLine>, row: ReportLine)
    requires row.StateLine?
    ensures LeadsCounted(rows + [row]) == LeadsCounted(rows) + row.totalLeads
  {
    assert (rows + [row])[..|rows|] == rows;
  }

  lemma StateRowCount(state: string, entries: seq<Entry>)
    requires entries != []
    ensures StateRow(state, entries).StateLine? && StateRow(state, entries).totalLeads == |entries|
  {
    assert |SortByRevenueDesc(entries)| == |multiset(SortByRevenueDesc(entries))| == |entries|;
  }

  lemma LastSplit(ks: seq<string>)
    requires ks != []
    ensures ks[..|ks| - 1] + [ks[|ks| - 1]] == ks
  {
  }

  /** The rows of `ks` count the leads in the buckets of `ks`. */
  lemma {:induction false} RowsCount(ps: seq<(string, Entry)>, ks: seq<string>)
    requires forall i :: 0 <= i < |ks| ==> ks[i] in KeySet(ps)
    ensures LeadsCounted(Rows(ps, ks)) == TotalSize(ps, ks)
    decreases |ks|
  {
    if ks != [] {
      var init := ks[..|ks| - 1];
      var k := ks[|ks| - 1];
      RowsCount(ps, init);
      RowsCountSnoc(ps, ks);
      LastSplit(ks);
      TotalSizeAppend(ps, init, k);
    }
  }

  /** One more state adds the size of its bucket to the count. */
  lemma RowsCountSnoc(ps: seq<(string, Entry)>, ks: seq<string>)
    requires ks != [] && forall i :: 0 <= i < |ks| ==> ks[i] in KeySet(ps)
    ensures LeadsCounted(Rows(ps, ks)) ==
      LeadsCounted(Rows(ps, ks[..|ks| - 1])) + |Bucket(ps, ks[|ks| - 1])|
  {
    var k := ks[|ks| - 1];
    StateRowCount(k, Bucket(ps, k));
    LeadsCountedSnoc(Rows(ps, ks[..|ks| - 1]), StateRow(k, Bucket(ps, k)));
  }

  /** Every kept lead is counted in exactly one row: the `Total Leads`
      column of the report adds up to the number of kept leads. */
  lemma RowsCountKeptLeads(leads: seq<Lead>)
    ensures TotalSize(StateEntries(leads), Keys(StateEntries(leads))) == |StateEntries(leads)|
    ensures LeadsCounted(Report(leads)[1..]) == |StateEntries(leads)|
  {
    var ps := StateEntries(leads);
    BucketsPartition(ps);
    RowsCount(ps, Keys(ps));
    assert Report(leads)[1..] == Rows(ps, Keys(ps));
  }

  /** Without a kept lead the report is the header alone: with malformed
      date bounds the range filter returns `[]` and this is what is written. */
  lemma HeaderOnlyReport(leads: seq<Lead>)
    requires forall i :: 0 <= i < |leads| ==> !Kept(leads[i])
    ensures Keys(StateEntries(leads)) == [] && Report(leads) == [HeaderLine(ReportHeader)]
  {
    assert StateEntries(leads) == [] by {
      NoneKept(leads);
    }
  }

  lemma {:induction false} NoneKept(leads: seq<Lead>)
    requires forall i :: 0 <= i < |leads| ==> !Kept(leads[i])
    ensures StateEntries(leads) == []
  {
    if leads != [] {
      NoneKept(leads[..|leads| - 1]);
    }
  }

  lemma ExampleRevenues(entries: seq<Entry>)
    requires entries == [Entry("A", 100), Entry("B", 300), Entry("C", 100)]
    ensures Sum(Revenues(entries)) == 500 && Median(Revenues(entries)) == 100.0
  {
    assert Revenues(entries) == [100, 300, 100];
    SumExample(Revenues(entries));
    MedianExample(Revenues(entries));
  }

  /** Revenues 100, 300 and 100 in one state: 3 leads, the 300 lead on top,
      a total of 500 and a median of 100. */
  lemma StateRowExample(entries: seq<Entry>)
    requires entries == [Entry("A", 100), Entry("B", 300), Entry("C", 100)]
    ensures var line := StateRow("CA", entries);
      line.StateLine? && line.state == "CA" && line.totalLeads == 3 && line.topLead == "B" &&
      line.totalRevenue == 500 && line.medianRevenue == 100.0
  {
    StateRowSummarizes("CA", entries);
    ExampleRevenues(entries);
    SortExample(entries);
  }
}
