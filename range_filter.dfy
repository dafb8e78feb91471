/**
 * `find_leads_in_date_range` (close_script.py:145-170): parse both bounds
 * and keep, in order, the leads whose founding date lies between them. The
 * two bounds (`input()`) and the fetched leads are parameters.
 */
module RangeFilter {
  import opened Wrappers
  import opened Text
  import opened Dates
  import opened Leads

  /** `start <= founded <= end` on strings; a lead without the attribute is
      excluded (the script itself raises `TypeError` there, see
      `SelectAsWritten`). */
  predicate InRange(lo: string, hi: string, founded: Option<string>) {
    founded.Some? && LexLe(lo, founded.value) && LexLe(founded.value, hi)
  }

  /** The leads whose founding date is in `[lo, hi]`, in input order. */
  function Select(lo: string, hi: string, leads: seq<Lead>): (r: seq<Lead>)
    ensures |r| <= |leads|
    ensures forall i :: 0 <= i < |r| ==> r[i] in leads && InRange(lo, hi, r[i].founded)
  {
    if leads == [] then []
    else
      var last := leads[|leads| - 1];
      Select(lo, hi, leads[..|leads| - 1]) + (if InRange(lo, hi, last.founded) then [last] else [])
  }

  /** The loop of close_script.py:161-167 after both bounds parsed. */
  method FindLeadsInDateRange(startInput: string, endInput: string, leads: seq<Lead>) returns (results: seq<Lead>)
    ensures ParseDate(startInput).None? || ParseDate(endInput).None? ==> results == []
    ensures ParseDate(startInput).Some? && ParseDate(endInput).Some? ==>
      results == Select(ParseDate(startInput).value, ParseDate(endInput).value, leads)
  {
    var startDate := ParseDate(startInput);
    var endDate := ParseDate(endInput);
    if startDate.None? || endDate.None? {
      return [];
    }
    results := [];
    for i := 0 to |leads|
      invariant results == Select(startDate.value, endDate.value, leads[..i])
    {
      var lead := leads[i];
      SelectSnoc(startDate.value, endDate.value, leads, i);
      var foundedDate := lead.founded;
      if foundedDate.Some? && LexLe(startDate.value, foundedDate.value) && LexLe(foundedDate.value, endDate.value) {
        results := results + [lead];
      }
    }
    assert leads[..|leads|] == leads;
  }

  lemma SelectSnoc(lo: string, hi: string, leads: seq<Lead>, i: nat)
    requires i < |leads|
    ensures !InRange(lo, hi, leads[i].founded) ==> Select(lo, hi, leads[..i + 1]) == Select(lo, hi, leads[..i])
    ensures InRange(lo, hi, leads[i].founded) ==> Select(lo, hi, leads[..i + 1]) == Select(lo, hi, leads[..i]) + [leads[i]]
  {
    assert leads[..i + 1][..i] == leads[..i];
    assert Select(lo, hi, leads[..i]) + [] == Select(lo, hi, leads[..i]);
  }

  // ---- Select is the order-preserving filter: it distributes over `+` ----

  lemma {:induction false} SelectAppend(lo: string, hi: string, a: seq<Lead>, b: seq<Lead>)
    ensures Select(lo, hi, a + b) == Select(lo, hi, a) + Select(lo, hi, b)
    decreases |b|
  {
    if b == [] {
      assert a + b == a;
    } else {
      assert (a + b)[..|a + b| - 1] == a + b[..|b| - 1];
      SelectAppend(lo, hi, a, b[..|b| - 1]);
    }
  }

  lemma SelectSingle(lo: string, hi: string, x: Lead)
    ensures Select(lo, hi, [x]) == if InRange(lo, hi, x.founded) then [x] else []
  {
    assert [x][..0] == [];
  }

  /** No qualifying lead is omitted and no other lead is kept. */
  lemma {:induction false} SelectMembership(lo: string, hi: string, leads: seq<Lead>, x: Lead)
    ensures x in Select(lo, hi, leads) <==> x in leads && InRange(lo, hi, x.founded)
  {
    if leads != [] {
      var init := leads[..|leads| - 1];
      SelectMembership(lo, hi, init, x);
      assert leads == init + [leads[|leads| - 1]];
    }
  }

  // ---- string order on formatted dates is date order ----

  /** For founding dates the import stored, the string test is the date test,
      inclusive at both ends. */
  lemma InRangeChronological(lo: Date, hi: Date, d: Date)
    requires ValidDate(lo) && ValidDate(hi) && ValidDate(d)
    ensures InRange(Format(lo), Format(hi), Some(Format(d))) <==> DateLe(lo, d) && DateLe(d, hi)
  {
    FormatOrder(lo, d);
    FormatOrder(d, hi);
  }

  /** A lead with a founding text is left out exactly when that text comes
      strictly before the start or strictly after the end. */
  lemma OutsideRange(lo: string, hi: string, f: string)
    ensures !InRange(lo, hi, Some(f)) <==> (LexLe(f, lo) && f != lo) || (LexLe(hi, f) && f != hi)
  {
    if !LexLe(lo, f) {
      LexLeTotal(lo, f);
      LexLeReflexive(f);
    }
    if !LexLe(f, hi) {
      LexLeTotal(f, hi);
      LexLeReflexive(f);
    }
    if LexLe(f, lo) && f != lo && LexLe(lo, f) {
      LexLeAntisymmetric(f, lo);
    }
    if LexLe(hi, f) && f != hi && LexLe(f, hi) {
      LexLeAntisymmetric(f, hi);
    }
  }

  /** Bounds given the wrong way round select nothing, whatever the leads hold. */
  lemma ReversedBoundsSelectNothing(lo: Date, hi: Date, leads: seq<Lead>)
    requires ValidDate(lo) && ValidDate(hi) && !DateLe(lo, hi)
    ensures Select(Format(lo), Format(hi), leads) == []
  {
    FormatOrder(lo, hi);
    var r := Select(Format(lo), Format(hi), leads);
    if r != [] {
      LexLeTransitive(Format(lo), r[0].founded.value, Format(hi));
      assert false;
    }
  }

  // ---- the comparison as written ----

  /** The loop as written: comparing a `str` with `None` raises `TypeError`,
      which ends the whole call. */
  function SelectAsWritten(lo: string, hi: string, leads: seq<Lead>): (r: Result<seq<Lead>, string>)
  {
    if leads == [] then Success([])
    else
      var init := SelectAsWritten(lo, hi, leads[..|leads| - 1]);
      var last := leads[|leads| - 1];
      if init.Failure? then init
      else if last.founded.None? then Failure("TypeError")
      else Success(init.value + (if InRange(lo, hi, last.founded) then [last] else []))
  }

  predicate AllFounded(leads: seq<Lead>) {
    forall i :: 0 <= i < |leads| ==> leads[i].founded.Some?
  }

  /** The two agree exactly when every lead carries a founding date; otherwise
      the script fails. */
  lemma {:induction false} AsWrittenAgreesIffAllFounded(lo: string, hi: string, leads: seq<Lead>)
    ensures AllFounded(leads) ==> SelectAsWritten(lo, hi, leads) == Success(Select(lo, hi, leads))
    ensures !AllFounded(leads) ==> SelectAsWritten(lo, hi, leads).Failure?
  {
    if leads != [] {
      var init := leads[..|leads| - 1];
      AsWrittenAgreesIffAllFounded(lo, hi, init);
      if !AllFounded(leads) && AllFounded(init) {
        var i :| 0 <= i < |leads| && leads[i].founded.None?;
        assert i == |leads| - 1;
      }
    }
  }

  /** One lead without the attribute: the script fails, the model keeps
      nothing. */
  lemma MissingFoundedCounterexample(lo: string, hi: string)
    ensures var leads := [Lead("Acme", None, None, None)];
      SelectAsWritten(lo, hi, leads) == Failure("TypeError") && Select(lo, hi, leads) == []
  {
    var leads := [Lead("Acme", None, None, None)];
    assert leads[..0] == [];
  }
}
