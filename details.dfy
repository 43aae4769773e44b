/**
 * `extract_company_details`: the record of one company page. The parsed
 * page is given by what the extractor reads from it: the text of the
 * `<title>` element, the page text, the `data-cfemail` attribute of the
 * first `a.__cf_email__` element and the text of the span the address
 * lookup finds. The record starts with every field empty and is then
 * overwritten rule by rule, in the order of the source.
 */
module Details {
  import opened Wrappers
  import opened Text
  import opened CfEmail
  import opened Fields

  datatype DetailPage = DetailPage(
    title: Option<string>,      // get_text() of the <title> element, if there is one
    text: string,               // soup.get_text()
    cfEmail: Option<string>,    // data-cfemail of the first a.__cf_email__, if both exist
    address: Option<string>)    // the span text the address lookup ends at, if it gets that far

  /** The record of one company, the source's dict with its eleven keys. */
  datatype CompanyDetails = CompanyDetails(
    url: string, companyName: string, cin: string, status: string,
    incorporated: string, email: string, phone: string, address: string,
    roc: string, registrationNumber: string, paidUpCapital: string)

  /** The column names of the source's dict. */
  const ColumnNames: set<string> := {
    "URL", "Company Name", "CIN", "Status", "Date of Incorporation", "Email",
    "Phone", "Address", "ROC", "Registration Number", "Paid Up Capital"}

  /** The record as the source's dict: its keys are exactly the column
      names. */
  function AsDict(d: CompanyDetails): (m: map<string, string>)
    ensures m.Keys == ColumnNames
  {
    map[
      "URL" := d.url, "Company Name" := d.companyName, "CIN" := d.cin,
      "Status" := d.status, "Date of Incorporation" := d.incorporated,
      "Email" := d.email, "Phone" := d.phone, "Address" := d.address,
      "ROC" := d.roc, "Registration Number" := d.registrationNumber,
      "Paid Up Capital" := d.paidUpCapital]
  }

  /** The eleven column names are distinct, so the dict has eleven entries. */
  lemma AsDictHasElevenKeys(d: CompanyDetails)
    ensures |AsDict(d).Keys| == 11
  {
    assert |ColumnNames| == 11;
  }

  /** The first six columns hold their fields of the record. */
  lemma AsDictValuesFirst(d: CompanyDetails)
    ensures var m := AsDict(d);
      m["URL"] == d.url && m["Company Name"] == d.companyName && m["CIN"] == d.cin &&
      m["Status"] == d.status && m["Date of Incorporation"] == d.incorporated && m["Email"] == d.email
  {
  }

  /** The last five columns hold their fields of the record. */
  lemma AsDictValuesLast(d: CompanyDetails)
    ensures var m := AsDict(d);
      m["Phone"] == d.phone && m["Address"] == d.address && m["ROC"] == d.roc &&
      m["Registration Number"] == d.registrationNumber && m["Paid Up Capital"] == d.paidUpCapital
  {
  }

  /** The `Email` field: a non-empty `data-cfemail` wins, even when it
      decodes to nothing; only otherwise is the text searched. */
  function EmailField(cfEmail: Option<string>, text: string): string {
    if cfEmail.Some? && cfEmail.value != "" then DecodeCfEmail(cfEmail.value)
    else EmailInText(text).GetOr("")
  }

  /** The e-mail selection, and what each branch yields. */
  lemma EmailFieldRule(cfEmail: Option<string>, text: string)
    ensures cfEmail.Some? && cfEmail.value != "" ==>
      EmailField(cfEmail, text) == DecodeCfEmail(cfEmail.value) &&
      |EmailField(cfEmail, text)| <= |cfEmail.value| / 2
    ensures !(cfEmail.Some? && cfEmail.value != "") ==>
      (EmailField(cfEmail, text) == "" <==> forall p, a, d, e :: !EmailMatch(text, p, a, d, e))
    ensures !(cfEmail.Some? && cfEmail.value != "") && EmailField(cfEmail, text) != "" ==>
      exists p, a, d, e :: GreediestEmail(text, p, a, d, e) && EmailField(cfEmail, text) == text[p..e] &&
        forall p', a', d', e' :: 0 <= p' < p ==> !EmailMatch(text, p', a', d', e')
  {
    EmailInTextRule(text);
    if !(cfEmail.Some? && cfEmail.value != "") {
      var r := EmailInText(text);
      if r.Some? {
        var p, a, d, e :| GreediestEmail(text, p, a, d, e) && r.value == text[p..e] &&
          forall p', a', d', e' :: 0 <= p' < p ==> !EmailMatch(text, p', a', d', e');
        assert |r.value| > 0;
      }
    }
  }

  /** Builds the record of the page at `companyUrl`. */
  method ExtractCompanyDetails(page: DetailPage, companyUrl: string) returns (details: CompanyDetails)
    ensures details.url == companyUrl
    ensures details.companyName == if page.title.Some? then CompanyName(page.title.value) else ""
    ensures details.cin == Cin(page.text).GetOr("")
    ensures details.status == Status(page.text)
    ensures details.incorporated == IncorporationDate(page.text).GetOr("")
    ensures details.email == EmailField(page.cfEmail, page.text)
    ensures details.phone == Phone(page.text).GetOr("")
    ensures details.address == page.address.GetOr("")
    ensures details.roc == Roc(page.text).GetOr("")
    ensures details.registrationNumber == "" && details.paidUpCapital == ""
  {
    details := CompanyDetails(companyUrl, "", "", "", "", "", "", "", "", "", "");
    var text := page.text;

    // Each rule overwrites its field only when it matches: `m.GetOr(old)`.
    if page.title.Some? {
      details := details.(companyName := CompanyName(page.title.value));
    }
    details := details.(cin := Cin(text).GetOr(details.cin));

    if Search(text, ActiveAt).Some? {
      details := details.(status := "Active");
    } else if Search(text, InactiveAt).Some? {
      details := details.(status := "Inactive");
    }
    details := details.(incorporated := IncorporationDate(text).GetOr(details.incorporated));

    if page.cfEmail.Some? && page.cfEmail.value != "" {
      details := details.(email := DecodeCfEmail(page.cfEmail.value));
    } else {
      details := details.(email := EmailInText(text).GetOr(details.email));
    }
    details := details.(phone := Phone(text).GetOr(details.phone));
    details := details.(address := page.address.GetOr(details.address));
    details := details.(roc := Roc(text).GetOr(details.roc));
  }

  /** A CIN, date or phone number that the rule finds is never empty, so an
      empty field says exactly that its rule found nothing. */
  lemma EmptyFieldMeansNoMatch(text: string)
    ensures Cin(text).GetOr("") == "" <==> forall p, q :: !LabelledMatch(text, p, "cin", CinShape, q)
    ensures IncorporationDate(text).GetOr("") == "" <==> forall p, q :: !DateMatch(text, p, q)
    ensures Phone(text).GetOr("") == "" <==> forall p, m :: !PhoneMatch(text, p, m)
  {
    CinRule(text);
    IncorporationDateRule(text);
    PhoneRule(text);
    if Phone(text).Some? {
      var p :| PhoneMatch(text, p, Phone(text).value) &&
        forall p', m' :: 0 <= p' < p ==> !PhoneMatch(text, p', m');
    }
  }
}
