/**
 * The deterministic parts of the LLM parser: header extraction, the length
 * cap on the LLM's fields, the keyword fallback used when the LLM call or
 * its JSON fails, and the fuzzy search for a related application.
 */
module LlmParser {
  import opened Wrappers
  import opened Text
  import opened Statuses
  import opened Keywords
  import opened Schema
  import opened Mail
  import opened Reconciliation

  // ---------------------------------------------------------------------------
  // extract_email_headers

  /** `extract_email_headers`: a dict from lower-cased header name to the value of the last header with that name. */
  method ExtractEmailHeaders(hs: seq<Header>) returns (headers: map<string, string>)
    ensures forall k :: k in headers <==> LastValue(hs, k).Some?
    ensures forall k :: k in headers ==> headers[k] == LastValue(hs, k).value
  {
    headers := map[];
    for i := 0 to |hs|
      invariant forall k :: k in headers <==> LastValue(hs[..i], k).Some?
      invariant forall k :: k in headers ==> headers[k] == LastValue(hs[..i], k).value
    {
      var name := Lower(hs[i].name);
      headers := headers[name := hs[i].value];
      assert hs[..i + 1] == hs[..i] + [hs[i]];
      forall k ensures LastValue(hs[..i + 1], k) == if name == k then Some(hs[i].value) else LastValue(hs[..i], k) {
        LastValueSnoc(hs[..i], hs[i], k);
      }
    }
    assert hs[..|hs|] == hs;
  }

  // ---------------------------------------------------------------------------
  // Clean-up of the LLM's fields

  const TruncatedColumns: seq<Column> := [JobTitle, Company, Location]
  const FieldLimit: nat := 200

  /** The clean-up loop: a truthy title, company or location longer than 200 characters keeps its first 200. */
  method TruncateFields(d: ApplicationData) returns (r: ApplicationData)
    ensures r.emailId == d.emailId && r.isNewApplication == d.isNewApplication
    ensures r.values.Keys == d.values.Keys
    ensures forall c :: c in d.values && c !in TruncatedColumns ==> r.values[c] == d.values[c]
    ensures forall c :: c in d.values && c in TruncatedColumns ==>
      && |r.values[c]| <= FieldLimit
      && IsPrefix(r.values[c], d.values[c])
      && (|d.values[c]| <= FieldLimit ==> r.values[c] == d.values[c])
  {
    var values := d.values;
    for k := 0 to |TruncatedColumns|
      invariant values.Keys == d.values.Keys
      invariant forall c :: c in d.values && c !in TruncatedColumns[..k] ==> values[c] == d.values[c]
      invariant forall c :: c in d.values && c in TruncatedColumns[..k] ==>
        && |values[c]| <= FieldLimit
        && IsPrefix(values[c], d.values[c])
        && (|d.values[c]| <= FieldLimit ==> values[c] == d.values[c])
    {
      var field := TruncatedColumns[k];
      if field in values && values[field] != "" {
        values := values[field := if |values[field]| > FieldLimit then values[field][..FieldLimit] else values[field]];
      }
    }
    r := d.(values := values);
  }

  // ---------------------------------------------------------------------------
  // create_fallback_result

  const OfferWords: seq<string> := ["offer", "congratulations", "we are pleased", "job offer"]
  const RejectedWords: seq<string> := ["rejected", "not selected", "unfortunately", "declined", "not moving forward"]
  const InterviewWords: seq<string> := ["interview", "technical interview", "final round", "interview scheduled"]
  const ScreenWords: seq<string> := ["recruiter", "phone screen", "initial screening", "screening call"]
  const DroppedWords: seq<string> := ["withdrawn", "withdraw", "cancelled", "cancel"]
  const GhostedWords: seq<string> := ["no response", "ghosted", "radio silence"]

  const FallbackReasoning := "LLM parsing failed, using fallback extraction"

  /** The fallback's if/elif chain over the lower-cased subject and body. */
  function FallbackStatus(content: string): (s: string)
    ensures s in PipelineStatuses
  {
    if AnyIn(OfferWords, content) then Offer
    else if AnyIn(RejectedWords, content) then Rejected
    else if AnyIn(InterviewWords, content) then Interview
    else if AnyIn(ScreenWords, content) then RecruiterScreen
    else if AnyIn(DroppedWords, content) then Dropped
    else if AnyIn(GhostedWords, content) then Ghosted
    else Applied
  }

  /** The precedence table: Offer, Rejected, Interview, Recruiter Screen, Dropped, Ghosted. */
  const FallbackCategories: seq<Category> := [
    Category(Offer, OfferWords), Category(Rejected, RejectedWords), Category(Interview, InterviewWords),
    Category(RecruiterScreen, ScreenWords), Category(Dropped, DroppedWords), Category(Ghosted, GhostedWords)]

  /** The if/elif chain is first-hit classification over the precedence table, 'Applied' when nothing hits. */
  lemma FallbackStatusIsClassify(content: string)
    ensures FallbackStatus(content) == Classify(FallbackCategories, content, Applied)
  {
    var cats := FallbackCategories;
    assert Hits(cats[0], content) == AnyIn(OfferWords, content);
    assert Hits(cats[1], content) == AnyIn(RejectedWords, content);
    assert Hits(cats[2], content) == AnyIn(InterviewWords, content);
    assert Hits(cats[3], content) == AnyIn(ScreenWords, content);
    assert Hits(cats[4], content) == AnyIn(DroppedWords, content);
    assert Hits(cats[5], content) == AnyIn(GhostedWords, content);
    var r := FirstHit(cats, content);
    if r.Some? {
      assert r.value < 6;
    }
  }

  /** The fallback company: the sender's '@' run up to the first '.', title-cased; none when the sender has no such run. */
  function FallbackCompany(sender: string): (r: Option<string>)
    ensures r.Some? <==> exists i :: 0 <= i < |sender| - 1 && sender[i] == '@' && sender[i + 1] != '.'
    ensures r.Some? ==> r.value == Title(AtRun(sender).value)
    ensures r.Some? ==> r.value != "" && Lower(r.value) == Lower(AtRun(sender).value) && '.' !in r.value
  {
    match AtRun(sender)
    case Some(run) =>
      TitleKeepsUncased(run, '.');
      TitleLower(run);
      Some(Title(run))
    case None => None
  }

  /** `email_date.split('T')[0] if email_date else None`. */
  function FallbackApplicationDate(emailDate: string): (r: Option<string>)
    ensures r.Some? <==> emailDate != ""
    ensures r.Some? ==> IsPrefix(r.value, emailDate) && 'T' !in r.value
    ensures r.Some? && 'T' !in emailDate ==> r.value == emailDate
  {
    if emailDate != "" then Some(BeforeFirst(emailDate, 'T')) else None
  }

  /** Add a column when there is a value for it (a None value stores no column). */
  function WithOptional(values: map<Column, string>, c: Column, v: Option<string>): (r: map<Column, string>)
    ensures r.Keys == if v.Some? then values.Keys + {c} else values.Keys
    ensures forall c' :: c' in values && c' != c ==> r[c'] == values[c']
    ensures v.Some? ==> r[c] == v.value
  {
    if v.Some? then values[c := v.value] else values
  }

  /** `create_fallback_result`: the record built from the sender, the date and keyword hits when the LLM gives nothing usable. */
  function CreateFallbackResult(emailId: string, emailDate: string, subject: string, sender: string, body: string): (r: ApplicationData)
    ensures r.emailId == emailId && r.isNewApplication
    ensures JobTitle !in r.values && Location !in r.values && RelatedApplicationId !in r.values
    ensures Date in r.values && Status in r.values && Sender in r.values && Subject in r.values
    ensures Confidence in r.values && Reasoning in r.values
    ensures r.values[Confidence] == "low" && r.values[Reasoning] == FallbackReasoning
    ensures r.values[Date] == emailDate && r.values[Sender] == sender && r.values[Subject] == subject
    ensures r.values[Status] in PipelineStatuses
    ensures Company in r.values <==> FallbackCompany(sender).Some?
    ensures Company in r.values ==> r.values[Company] == FallbackCompany(sender).value
    ensures ApplicationDate in r.values <==> FallbackApplicationDate(emailDate).Some?
    ensures ApplicationDate in r.values ==> r.values[ApplicationDate] == FallbackApplicationDate(emailDate).value
  {
    FallbackRecord(emailId, emailDate, subject, sender, FallbackStatus(Lower(subject + " " + body)),
                   FallbackCompany(sender), FallbackApplicationDate(emailDate))
  }

  /** The fallback's dict for a given status, company and application date. */
  function FallbackRecord(emailId: string, emailDate: string, subject: string, sender: string, status: string,
                          company: Option<string>, applicationDate: Option<string>): (r: ApplicationData)
    ensures r.emailId == emailId && r.isNewApplication
    ensures JobTitle !in r.values && Location !in r.values && RelatedApplicationId !in r.values
    ensures Date in r.values && Status in r.values && Sender in r.values && Subject in r.values
    ensures Confidence in r.values && Reasoning in r.values
    ensures Company in r.values <==> company.Some?
    ensures ApplicationDate in r.values <==> applicationDate.Some?
    ensures r.values[Confidence] == "low" && r.values[Reasoning] == FallbackReasoning
    ensures r.values[Date] == emailDate && r.values[Sender] == sender && r.values[Subject] == subject
    ensures r.values[Status] == status
    ensures Company in r.values ==> r.values[Company] == company.value
    ensures ApplicationDate in r.values ==> r.values[ApplicationDate] == applicationDate.value
  {
    var optional := WithOptional(WithOptional(map[], Company, company), ApplicationDate, applicationDate);
    var values := optional[Date := emailDate][Status := status][Sender := sender][Subject := subject]
                          [Confidence := "low"][Reasoning := FallbackReasoning];
    ApplicationData(emailId, values, true)
  }

  /** Title-casing changes only letters, so a character without case stays absent. */
  lemma TitleKeepsUncased(s: string, c: char)
    requires !IsCased(c) && c !in s
    ensures c !in Title(s)
  {
    var t := Title(s);
    forall k | 0 <= k < |t| ensures t[k] != c {
      TitleAt(s, k);
    }
  }

  /** A fallback record never merges by fuzzy match or by link: it updates its own row or is inserted. */
  lemma FallbackNeverMerges(rows: seq<Row>, emailId: string, emailDate: string, subject: string, sender: string, body: string)
    ensures var s := Resolve(rows, CreateFallbackResult(emailId, emailDate, subject, sender, body));
      s.ExactMatch? || s.Insert?
  {
    var d := CreateFallbackResult(emailId, emailDate, subject, sender, body);
    if !HasEmail(rows, d.emailId) {
      FuzzyNeedsTitle(rows, d);
    }
  }

  // ---------------------------------------------------------------------------
  // find_related_application

  /** A value of the parsed dict: key absent, present as None, or text. */
  datatype Field = Missing | Null | Text(s: string)

  datatype Related = NoRelated | RelatedTo(emailId: string) | AttributeError

  /** `parsed_data.get(key, '').lower()`: None has no `lower`. */
  function LowerField(f: Field): Option<string> {
    match f
    case Missing => Some("")
    case Null => None
    case Text(s) => Some(Lower(s))
  }

  /** `str(app.get(c, '')).lower()` on a stored row: a NULL cell reads as "none". */
  function ExistingText(r: Row, c: Column): string {
    Lower(if c in r.cells then r.cells[c] else "None")
  }

  /** The loop's test: companies contained either way, and a shared title word when both titles are non-empty, else equal companies. */
  predicate RelatedMatch(r: Row, company: string, role: string) {
    var ec, er := ExistingText(r, Company), ExistingText(r, JobTitle);
    && (Contains(ec, company) || Contains(company, ec))
    && if role != "" && er != "" then SharesWord(role, er) else company == ec
  }

  /** Position of the first stored row that passes the test. */
  function FirstRelated(rows: seq<Row>, company: string, role: string): (r: Option<nat>)
    ensures r.Some? ==> r.value < |rows| && RelatedMatch(rows[r.value], company, role)
    ensures r.Some? ==> forall j :: 0 <= j < r.value ==> !RelatedMatch(rows[j], company, role)
    ensures r.None? ==> forall j :: 0 <= j < |rows| ==> !RelatedMatch(rows[j], company, role)
    decreases |rows|
  {
    if rows == [] then None
    else if RelatedMatch(rows[0], company, role) then Some(0)
    else
      var r := FirstRelated(rows[1..], company, role);
      assert forall j :: 1 <= j < |rows| ==> rows[j] == rows[1..][j - 1];
      if r.Some? then Some(r.value + 1) else None
  }

  /** `find_related_application` over the loaded table (None when the frame is None). */
  function FindRelatedApplication(isNew: bool, company: Field, jobTitle: Field, existing: Option<seq<Row>>): (r: Related)
    ensures r.RelatedTo? ==> isNew && existing.Some? && HasEmail(existing.value, r.emailId)
    ensures r.AttributeError? <==> existing.Some? && existing.value != [] && isNew && (company.Null? || jobTitle.Null?)
  {
    if existing.None? || existing.value == [] || !isNew then NoRelated
    else
      match LowerField(company)
      case None => AttributeError
      case Some(c) =>
        match LowerField(jobTitle)
        case None => AttributeError
        case Some(role) =>
          if c == "" then NoRelated
          else
            match FirstRelated(existing.value, c, role)
            case Some(i) => RelatedTo(existing.value[i].emailId)
            case None => NoRelated
  }

  /** No search without a non-empty table and a new-application flag; `.lower()` on a None company or title raises before anything else. */
  lemma FindRelatedGuards(isNew: bool, company: Field, jobTitle: Field, existing: Option<seq<Row>>)
    ensures existing.None? || existing == Some([]) || !isNew ==> FindRelatedApplication(isNew, company, jobTitle, existing) == NoRelated
    ensures existing.Some? && existing.value != [] && isNew && (company.Null? || jobTitle.Null?) ==>
      FindRelatedApplication(isNew, company, jobTitle, existing) == AttributeError
    ensures existing.Some? && existing.value != [] && isNew && !jobTitle.Null? && (company == Missing || company == Text("")) ==>
      FindRelatedApplication(isNew, company, jobTitle, existing) == NoRelated
  {
  }

  /** The search returns the key of the first stored row passing the test, and nothing only when no row passes. */
  lemma FindRelatedIsFirstMatch(company: string, role: string, rows: seq<Row>, e: string)
    requires rows != [] && Lower(company) != ""
    ensures FindRelatedApplication(true, Text(company), Text(role), Some(rows)) == RelatedTo(e) <==>
      exists i :: 0 <= i < |rows| && rows[i].emailId == e && RelatedMatch(rows[i], Lower(company), Lower(role))
                  && forall j :: 0 <= j < i ==> !RelatedMatch(rows[j], Lower(company), Lower(role))
    ensures FindRelatedApplication(true, Text(company), Text(role), Some(rows)) == NoRelated <==>
      forall j :: 0 <= j < |rows| ==> !RelatedMatch(rows[j], Lower(company), Lower(role))
  {
    var c, rl := Lower(company), Lower(role);
    var r := FirstRelated(rows, c, rl);
    assert FindRelatedApplication(true, Text(company), Text(role), Some(rows)) ==
      (if r.Some? then RelatedTo(rows[r.value].emailId) else NoRelated);
    if exists i :: 0 <= i < |rows| && rows[i].emailId == e && RelatedMatch(rows[i], c, rl)
                  && forall j :: 0 <= j < i ==> !RelatedMatch(rows[j], c, rl) {
      var i :| 0 <= i < |rows| && rows[i].emailId == e && RelatedMatch(rows[i], c, rl)
                  && forall j :: 0 <= j < i ==> !RelatedMatch(rows[j], c, rl);
      FirstRelatedAt(rows, c, rl, i);
    }
  }

  lemma FirstRelatedAt(rows: seq<Row>, company: string, role: string, i: nat)
    requires i < |rows| && RelatedMatch(rows[i], company, role)
    requires forall j :: 0 <= j < i ==> !RelatedMatch(rows[j], company, role)
    ensures FirstRelated(rows, company, role) == Some(i)
  {
    var r := FirstRelated(rows, company, role);
    if r.None? {
    } else if r.value < i {
    } else if r.value > i {
    }
  }

  /** Equal companies do not suffice when both titles are non-empty and share no word. */
  lemma SameCompanyNeedsSharedWord(r: Row, company: string, role: string)
    requires ExistingText(r, Company) == company
    requires role != "" && ExistingText(r, JobTitle) != "" && !SharesWord(role, ExistingText(r, JobTitle))
    ensures !RelatedMatch(r, company, role)
  {
  }

  /** When either title is empty, the test is exact (lower-cased) company equality. */
  lemma EmptyRoleNeedsEqualCompany(r: Row, company: string, role: string)
    requires role == "" || ExistingText(r, JobTitle) == ""
    ensures RelatedMatch(r, company, role) <==> company == ExistingText(r, Company)
  {
    if company == ExistingText(r, Company) {
      assert IsPrefix(company, company);
    }
  }
}
