/**
 * `import_leads_from_csv` (close_script.py:61-139): validate the CSV rows,
 * group the surviving ones by company, and build one lead-creation payload
 * per company. The custom-field catalog (the result of
 * `get_custom_field_ids`) is an input; the HTTP requests are not modelled,
 * so the result is the list of payloads that would be posted.
 */
module Import {
  import opened Wrappers
  import opened Text
  import opened Dates
  import opened Fields
  import opened Grouping

  /** One CSV row, by the column names the script reads. */
  datatype Row = Row(
    company: string,
    contactName: string,
    contactEmails: string,
    contactPhones: string,
    founded: string,
    revenue: string,
    state: string)

  /** The dictionary appended to `companies[company_name]` (close_script.py:94-101). */
  datatype Fragment = Fragment(
    contactName: string,
    emails: seq<string>,
    phones: seq<string>,
    founded: string,
    revenue: string,
    state: string)

  predicate HasChannel(f: Fragment) {
    f.emails != [] || f.phones != []
  }

  // ---- validation (close_script.py:71-92) ----

  /** The company name and fragment a row contributes, or `None` if it is discarded. */
  function ValidateRow(row: Row): (r: Option<(string, Fragment)>)
    ensures r.Some? ==> r.value.0 != [] && Stripped(r.value.0) && HasChannel(r.value.1)
    ensures r.Some? ==> ParseDate(row.founded) == Some(r.value.1.founded)
  {
    var company := Strip(row.company);
    var emails := ParseMultilineField(Some(row.contactEmails));
    var phones := ParseMultilineField(Some(row.contactPhones));
    var founded := ParseDate(row.founded);
    if company == [] then None
    else if founded.None? then None
    else if emails == [] && phones == [] then None
    else Some((company, Fragment(Strip(row.contactName), emails, phones, founded.value, row.revenue, Strip(row.state))))
  }

  /** A row survives exactly when its company is not blank, its founding date
      spells a real calendar date, and it has an email or a phone line. */
  lemma ValidateRowAccepts(row: Row)
    ensures ValidateRow(row).Some? <==>
      Strip(row.company) != [] &&
      (exists d :: ValidDate(d) && Spells(Strip(row.founded), d)) &&
      (ParseMultilineField(Some(row.contactEmails)) != [] || ParseMultilineField(Some(row.contactPhones)) != [])
  {
    if d :| ValidDate(d) && Spells(Strip(row.founded), d) {
      ParseDatePartsExactly(row.founded, d);
    }
    if ParseDateParts(row.founded).Some? {
      ParseDatePartsSound(row.founded, ParseDateParts(row.founded).value);
    }
  }

  /** The accepted (company, fragment) pairs of `rows`, in input order. */
  function Accepted(rows: seq<Row>): (ps: seq<(string, Fragment)>)
    ensures |ps| <= |rows|
  {
    if rows == [] then []
    else
      var last := rows[|rows| - 1];
      Accepted(rows[..|rows| - 1]) + (match ValidateRow(last) case Some(p) => [p] case None => [])
  }

  /** Every pair has a company name and an email or a phone. */
  predicate AllValid(ps: seq<(string, Fragment)>) {
    forall i :: 0 <= i < |ps| ==> ps[i].0 != [] && HasChannel(ps[i].1)
  }

  lemma AllValidAppend(xs: seq<(string, Fragment)>, ys: seq<(string, Fragment)>)
    requires AllValid(xs) && AllValid(ys)
    ensures AllValid(xs + ys)
  {
    forall i | 0 <= i < |xs + ys| ensures (xs + ys)[i].0 != [] && HasChannel((xs + ys)[i].1) {
      if i < |xs| {
        assert (xs + ys)[i] == xs[i];
      } else {
        assert (xs + ys)[i] == ys[i - |xs|];
      }
    }
  }

  /** Every accepted pair has a company name and an email or a phone. */
  lemma {:induction false} AcceptedValid(rows: seq<Row>)
    ensures AllValid(Accepted(rows))
  {
    if rows != [] {
      var init := rows[..|rows| - 1];
      AcceptedValid(init);
      var tail := match ValidateRow(rows[|rows| - 1]) case Some(p) => [p] case None => [];
      assert AllValid(tail);
      AllValidAppend(Accepted(init), tail);
    }
  }

  // ---- grouping (close_script.py:66, 94-103) ----

  /** The row loop: `order` lists `companies`' keys in insertion order. */
  method GroupCompanies(rows: seq<Row>) returns (order: seq<string>, companies: map<string, seq<Fragment>>)
    ensures order == Keys(Accepted(rows))
    ensures companies.Keys == KeySet(Accepted(rows))
    ensures forall name :: name in companies ==> companies[name] == Bucket(Accepted(rows), name)
  {
    order := [];
    companies := map[];
    GroupedAtStart(Accepted(rows[..0]));
    for i := 0 to |rows|
      invariant Grouped(Accepted(rows[..i]), order, companies)
    {
      var row := rows[i];
      var companyName := Strip(row.company);
      var contactName := Strip(row.contactName);
      var emails := ParseMultilineField(Some(row.contactEmails));
      var phones := ParseMultilineField(Some(row.contactPhones));
      var foundedDate := ParseDate(row.founded);
      var state := Strip(row.state);
      ghost var ps := Accepted(rows[..i]);
      AcceptedSnoc(rows, i);
      if companyName != [] && foundedDate.Some? && (emails != [] || phones != []) {
        var fragment := Fragment(contactName, emails, phones, foundedDate.value, row.revenue, state);
        assert ValidateRow(row) == Some((companyName, fragment));
        GroupedStep(ps, order, companies, (companyName, fragment));
        // `companies[company_name]` on a defaultdict inserts a missing key with `[]`.
        var contacts := if companyName in companies then companies[companyName] else [];
        if companyName !in companies {
          order := order + [companyName];
        }
        companies := companies[companyName := contacts + [fragment]];
      } else {
        assert ValidateRow(row).None?;
      }
    }
    assert rows[..|rows|] == rows;
  }

  lemma AcceptedSnoc(rows: seq<Row>, i: nat)
    requires i < |rows|
    ensures ValidateRow(rows[i]).None? ==> Accepted(rows[..i + 1]) == Accepted(rows[..i])
    ensures ValidateRow(rows[i]).Some? ==> Accepted(rows[..i + 1]) == Accepted(rows[..i]) + [ValidateRow(rows[i]).value]
  {
    assert rows[..i + 1][..i] == rows[..i];
    assert Accepted(rows[..i]) + [] == Accepted(rows[..i]);
  }

  /** Every company ends with at least one fragment, and `len(companies)` is
      the number of distinct accepted company names. */
  lemma GroupedCompanies(rows: seq<Row>)
    ensures forall name :: name in Keys(Accepted(rows)) ==> Bucket(Accepted(rows), name) != []
    ensures |Keys(Accepted(rows))| == |KeySet(Accepted(rows))|
  {
    KeysCount(Accepted(rows));
  }

  // ---- payloads (close_script.py:105-127) ----

  datatype EmailEntry = EmailEntry(email: string)
  datatype PhoneEntry = PhoneEntry(phone: string)
  datatype ContactPayload = ContactPayload(name: string, emails: seq<EmailEntry>, phones: seq<PhoneEntry>)
  /** `custom` maps custom-field ids to values. */
  datatype LeadPayload = LeadPayload(name: string, custom: map<string, string>, contacts: seq<ContactPayload>)

  const FoundedField := "Company Founded"
  const RevenueField := "Company Revenue"
  const StateField := "Company US State"

  /** The catalog had no id for the named custom field (a `KeyError` in the script). */
  datatype ImportError = MissingCustomField(fieldName: string)

  /** `[{"email": e} for e in emails]` */
  function WrapEmails(emails: seq<string>): (r: seq<EmailEntry>)
    ensures |r| == |emails|
  {
    seq(|emails|, i requires 0 <= i < |emails| => EmailEntry(emails[i]))
  }

  /** `[{"phone": p} for p in phones]` */
  function WrapPhones(phones: seq<string>): (r: seq<PhoneEntry>)
    ensures |r| == |phones|
  {
    seq(|phones|, i requires 0 <= i < |phones| => PhoneEntry(phones[i]))
  }

  function EmailsOf(entries: seq<EmailEntry>): seq<string> {
    seq(|entries|, i requires 0 <= i < |entries| => entries[i].email)
  }

  function PhonesOf(entries: seq<PhoneEntry>): seq<string> {
    seq(|entries|, i requires 0 <= i < |entries| => entries[i].phone)
  }

  /** Wrapping loses nothing and adds nothing: each string is one entry, in order. */
  lemma WrapRoundTrip(emails: seq<string>, phones: seq<string>)
    ensures EmailsOf(WrapEmails(emails)) == emails
    ensures PhonesOf(WrapPhones(phones)) == phones
  {
  }

  function ContactOf(f: Fragment): ContactPayload {
    ContactPayload(f.contactName, WrapEmails(f.emails), WrapPhones(f.phones))
  }

  /** The `contacts` list the inner loop builds (close_script.py:120-127). */
  function Contacts(frags: seq<Fragment>): (cs: seq<ContactPayload>)
    ensures |cs| <= |frags|
  {
    if frags == [] then []
    else
      var f := frags[|frags| - 1];
      Contacts(frags[..|frags| - 1]) + (if !HasChannel(f) then [] else [ContactOf(f)])
  }

  lemma {:induction false} ContactsAppend(fs: seq<Fragment>, gs: seq<Fragment>)
    ensures Contacts(fs + gs) == Contacts(fs) + Contacts(gs)
    decreases |gs|
  {
    if gs == [] {
      assert fs + gs == fs;
    } else {
      assert (fs + gs)[..|fs + gs| - 1] == fs + gs[..|gs| - 1];
      ContactsAppend(fs, gs[..|gs| - 1]);
    }
  }

  /** When every fragment has an email or a phone, which the row checks
      guarantee, the guard drops nothing: one contact per fragment, in order. */
  lemma {:induction false} ContactsOneToOne(frags: seq<Fragment>)
    requires forall i :: 0 <= i < |frags| ==> HasChannel(frags[i])
    ensures |Contacts(frags)| == |frags|
    ensures forall i :: 0 <= i < |frags| ==> Contacts(frags)[i] == ContactOf(frags[i])
  {
    if frags != [] {
      var init := frags[..|frags| - 1];
      ContactsOneToOne(init);
      assert Contacts(frags) == Contacts(init) + [ContactOf(frags[|frags| - 1])];
    }
  }

  /** The inner loop of close_script.py:120-127. */
  method BuildContacts(frags: seq<Fragment>) returns (contacts: seq<ContactPayload>)
    ensures contacts == Contacts(frags)
  {
    contacts := [];
    for i := 0 to |frags|
      invariant contacts == Contacts(frags[..i])
    {
      var c := frags[i];
      assert frags[..i + 1][..i] == frags[..i] && frags[..i + 1][i] == c;
      if !(c.emails == [] && c.phones == []) {
        contacts := contacts + [ContactPayload(c.contactName, WrapEmails(c.emails), WrapPhones(c.phones))];
      }
    }
    assert frags[..|frags|] == frags;
  }

  predicate CatalogComplete(catalog: map<string, string>) {
    FoundedField in catalog && RevenueField in catalog && StateField in catalog
  }

  /** The payload for one company (close_script.py:107-127), given its
      fragments in input order. The three lookups run in the order the
      dictionary display evaluates them. */
  function LeadPayloadFor(name: string, frags: seq<Fragment>, catalog: map<string, string>): (r: Result<LeadPayload, ImportError>)
    requires frags != []
    ensures r.Success? <==> CatalogComplete(catalog)
    ensures r.Success? ==> r.value.name == name && r.value.contacts == Contacts(frags)
    ensures r.Success? ==> r.value.custom.Keys == {catalog[FoundedField], catalog[RevenueField], catalog[StateField]}
    ensures r.Failure? && FoundedField !in catalog ==> r.error == MissingCustomField(FoundedField)
    ensures r.Failure? && FoundedField in catalog && RevenueField !in catalog ==> r.error == MissingCustomField(RevenueField)
    ensures r.Failure? && FoundedField in catalog && RevenueField in catalog ==> r.error == MissingCustomField(StateField)
  {
    var first := frags[0];
    if FoundedField !in catalog then Failure(MissingCustomField(FoundedField))
    else if RevenueField !in catalog then Failure(MissingCustomField(RevenueField))
    else if StateField !in catalog then Failure(MissingCustomField(StateField))
    else
      var custom := map[catalog[FoundedField] := first.founded][catalog[RevenueField] := first.revenue][catalog[StateField] := first.state];
      Success(LeadPayload(name, custom, Contacts(frags)))
  }

  /** The payload of one company: the custom block, then the inner loop. */
  method BuildLeadPayload(name: string, frags: seq<Fragment>, catalog: map<string, string>) returns (r: Result<LeadPayload, ImportError>)
    requires frags != []
    ensures r == LeadPayloadFor(name, frags, catalog)
  {
    var first := frags[0];
    if FoundedField !in catalog {
      return Failure(MissingCustomField(FoundedField));
    }
    if RevenueField !in catalog {
      return Failure(MissingCustomField(RevenueField));
    }
    if StateField !in catalog {
      return Failure(MissingCustomField(StateField));
    }
    var custom := map[catalog[FoundedField] := first.founded][catalog[RevenueField] := first.revenue][catalog[StateField] := first.state];
    var contacts := BuildContacts(frags);
    r := Success(LeadPayload(name, custom, contacts));
  }

  /** The custom values are the first fragment's. Where two field names share
      an id, the later entry of the dictionary display wins. */
  lemma CustomFromFirst(name: string, frags: seq<Fragment>, catalog: map<string, string>)
    requires frags != [] && CatalogComplete(catalog)
    ensures var custom := LeadPayloadFor(name, frags, catalog).value.custom;
      custom[catalog[StateField]] == frags[0].state &&
      (catalog[RevenueField] != catalog[StateField] ==> custom[catalog[RevenueField]] == frags[0].revenue) &&
      (catalog[FoundedField] != catalog[RevenueField] && catalog[FoundedField] != catalog[StateField] ==>
        custom[catalog[FoundedField]] == frags[0].founded)
  {
  }

  /** First wins: later fragments of a company change only its contacts,
      which they extend. */
  lemma FirstWins(name: string, frags: seq<Fragment>, later: seq<Fragment>, catalog: map<string, string>)
    requires frags != [] && CatalogComplete(catalog)
    ensures var before := LeadPayloadFor(name, frags, catalog).value;
      var after := LeadPayloadFor(name, frags + later, catalog).value;
      after.name == before.name && after.custom == before.custom &&
      after.contacts == before.contacts + Contacts(later)
  {
    assert (frags + later)[0] == frags[0];
    ContactsAppend(frags, later);
  }

  // ---- the whole import (close_script.py:61-127) ----

  /** Per company of `names`, in that order, its name and the outcome of
      building its payload from its accepted fragments. */
  function Outcomes(ps: seq<(string, Fragment)>, names: seq<string>, catalog: map<string, string>)
    : (r: seq<(string, Result<LeadPayload, ImportError>)>)
    requires forall i :: 0 <= i < |names| ==> names[i] in KeySet(ps)
    ensures |r| == |names|
  {
    if names == [] then []
    else
      var name := names[|names| - 1];
      Outcomes(ps, names[..|names| - 1], catalog) + [(name, LeadPayloadFor(name, Bucket(ps, name), catalog))]
  }

  lemma OutcomesSnoc(ps: seq<(string, Fragment)>, names: seq<string>, catalog: map<string, string>, j: nat)
    requires j < |names| && forall i :: 0 <= i < |names| ==> names[i] in KeySet(ps)
    ensures Outcomes(ps, names[..j + 1], catalog) ==
      Outcomes(ps, names[..j], catalog) + [(names[j], LeadPayloadFor(names[j], Bucket(ps, names[j]), catalog))]
  {
    assert names[..j + 1][..j] == names[..j];
  }

  lemma {:induction false} OutcomesIndex(ps: seq<(string, Fragment)>, names: seq<string>, catalog: map<string, string>, j: nat)
    requires j < |names| && forall i :: 0 <= i < |names| ==> names[i] in KeySet(ps)
    ensures Bucket(ps, names[j]) != [] &&
      Outcomes(ps, names, catalog)[j] == (names[j], LeadPayloadFor(names[j], Bucket(ps, names[j]), catalog))
    decreases |names|
  {
    if j < |names| - 1 {
      OutcomesIndex(ps, names[..|names| - 1], catalog, j);
    }
  }

  /** The number of valid companies (close_script.py:103) and, per company in
      insertion order, the payload to post or the lookup that failed. */
  method ImportLeads(rows: seq<Row>, catalog: map<string, string>)
    returns (validCompanies: nat, outcomes: seq<(string, Result<LeadPayload, ImportError>)>)
    ensures validCompanies == |KeySet(Accepted(rows))|
    ensures outcomes == Outcomes(Accepted(rows), Keys(Accepted(rows)), catalog)
  {
    var order, companies := GroupCompanies(rows);
    validCompanies := |companies|;
    assert |companies| == |companies.Keys|;
    outcomes := PostCompanies(Accepted(rows), order, companies, catalog);
  }

  /** The payload loop (close_script.py:105-127) over the grouped companies. */
  method PostCompanies(ghost ps: seq<(string, Fragment)>, order: seq<string>, companies: map<string, seq<Fragment>>,
                       catalog: map<string, string>)
    returns (outcomes: seq<(string, Result<LeadPayload, ImportError>)>)
    requires forall i :: 0 <= i < |order| ==>
      order[i] in KeySet(ps) && order[i] in companies && companies[order[i]] == Bucket(ps, order[i])
    ensures outcomes == Outcomes(ps, order, catalog)
  {
    outcomes := [];
    for j := 0 to |order|
      invariant outcomes == Outcomes(ps, order[..j], catalog)
    {
      var name := order[j];
      var contacts := companies[name];
      var payload := BuildLeadPayload(name, contacts, catalog);
      OutcomesSnoc(ps, order, catalog, j);
      outcomes := outcomes + [(name, payload)];
    }
    assert order[..|order|] == order;
  }

  /** Outcome `j` is that of the `j`-th company to occur, built from exactly
      its accepted fragments; there is one outcome per distinct company. */
  lemma ImportOutcome(rows: seq<Row>, catalog: map<string, string>, j: nat)
    requires j < |Keys(Accepted(rows))|
    ensures var ps := Accepted(rows);
      var name := Keys(ps)[j];
      |Outcomes(ps, Keys(ps), catalog)| == |KeySet(ps)| &&
      Outcomes(ps, Keys(ps), catalog)[j] == (name, LeadPayloadFor(name, Bucket(ps, name), catalog))
  {
    var ps := Accepted(rows);
    KeysCount(ps);
    OutcomesIndex(ps, Keys(ps), catalog, j);
  }

  /** What the import posts, for each company: a payload named after it whose
      custom values come from its first accepted row and whose contacts are
      its accepted rows, one each, in input order. */
  lemma ImportedPayload(rows: seq<Row>, catalog: map<string, string>, j: nat, first: nat)
    requires CatalogComplete(catalog) && j < |Keys(Accepted(rows))|
    requires IsFirst(Accepted(rows), Keys(Accepted(rows))[j], first)
    ensures var name := Keys(Accepted(rows))[j];
      var frags := Bucket(Accepted(rows), name);
      var p := LeadPayloadFor(name, frags, catalog);
      var f := Accepted(rows)[first].1;
      p.Success? && p.value.name == name &&
      frags[0] == f &&
      p.value.custom[catalog[StateField]] == f.state &&
      (catalog[RevenueField] != catalog[StateField] ==> p.value.custom[catalog[RevenueField]] == f.revenue) &&
      (catalog[FoundedField] != catalog[RevenueField] && catalog[FoundedField] != catalog[StateField] ==>
        p.value.custom[catalog[FoundedField]] == f.founded) &&
      |p.value.contacts| == |frags| &&
      forall i :: 0 <= i < |frags| ==> p.value.contacts[i] == ContactOf(frags[i])
  {
    var ps := Accepted(rows);
    var name := Keys(ps)[j];
    BucketFirst(ps, name, first);
    CustomFromFirst(name, Bucket(ps, name), catalog);
    AcceptedValid(rows);
    BucketHasChannel(ps, name);
    ContactsOneToOne(Bucket(ps, name));
  }

  lemma {:induction false} BucketHasChannel(ps: seq<(string, Fragment)>, name: string)
    requires forall i :: 0 <= i < |ps| ==> HasChannel(ps[i].1)
    ensures forall i :: 0 <= i < |Bucket(ps, name)| ==> HasChannel(Bucket(ps, name)[i])
  {
    if ps != [] {
      BucketHasChannel(ps[..|ps| - 1], name);
    }
  }

  /** A catalog without one of the three names fails every company the same
      way (the script stops at the first), so no lead is created. */
  lemma IncompleteCatalogFails(rows: seq<Row>, catalog: map<string, string>, j: nat)
    requires !CatalogComplete(catalog) && j < |Keys(Accepted(rows))|
    ensures var name := Keys(Accepted(rows))[j];
      var p := LeadPayloadFor(name, Bucket(Accepted(rows), name), catalog);
      p.Failure? &&
      p.error == MissingCustomField(if FoundedField !in catalog then FoundedField
                                    else if RevenueField !in catalog then RevenueField
                                    else StateField)
  {
  }
}
