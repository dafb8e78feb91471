/**
 * The script's entry point (close_script.py:232-236): the leads founded
 * within the range the user enters are segmented by state.
 */
module Pipeline {
  import opened Wrappers
  import opened Dates
  import opened Leads
  import opened Grouping
  import opened RevenueSort
  import opened RangeFilter
  import opened Segment

  method RangeReport(startInput: string, endInput: string, leads: seq<Lead>) returns (report: seq<ReportLine>)
    ensures ParseDate(startInput).None? || ParseDate(endInput).None? ==>
      report == [HeaderLine(ReportHeader)]
    ensures ParseDate(startInput).Some? && ParseDate(endInput).Some? ==>
      report == Report(Select(ParseDate(startInput).value, ParseDate(endInput).value, leads))
  {
    var inRange := FindLeadsInDateRange(startInput, endInput, leads);
    report := SegmentLeadsByState(inRange);
    if ParseDate(startInput).None? || ParseDate(endInput).None? {
      HeaderOnlyReport(inRange);
    }
  }

  /** Every entry grouped under a state is a lead of the store, founded within
      the range, carrying that state. */
  lemma GroupedLeadsInRange(lo: string, hi: string, leads: seq<Lead>, state: string, m: nat)
    requires m < |Bucket(StateEntries(Select(lo, hi, leads)), state)|
    ensures var e := Bucket(StateEntries(Select(lo, hi, leads)), state)[m];
      exists lead :: lead in leads && InRange(lo, hi, lead.founded) && Kept(lead) &&
        lead.state.value == state && e == Entry(lead.name, lead.revenue.value)
  {
    var chosen := Select(lo, hi, leads);
    var ps := StateEntries(chosen);
    BucketMember(ps, state, m);
    var k :| 0 <= k < |ps| && ps[k] == (state, Bucket(ps, state)[m]);
    StateEntryFrom(chosen, k);
    var i :| 0 <= i < |chosen| && Kept(chosen[i]) &&
      ps[k] == (chosen[i].state.value, Entry(chosen[i].name, chosen[i].revenue.value));
    assert chosen[i] in leads && InRange(lo, hi, chosen[i].founded);
  }
}
