/**
 * The rule-based parser `parse_email_for_job_application`: the header scan,
 * the pattern lists tried in order (each `re.search` is an oracle from the
 * pattern's position and the searched text to the captured group), the
 * sender-domain company, the location filter, the status keywords and the
 * length caps.
 */
module EmailParser {
  import opened Wrappers
  import opened Text
  import opened Statuses
  import opened Keywords
  import opened Mail

  datatype RuleResult = RuleResult(
    jobTitle: Option<string>,
    company: Option<string>,
    location: Option<string>,
    status: string,
    date: Option<string>,
    emailId: string,
    sender: Option<string>,
    subject: Option<string>)

  /** `re.search(patterns[k], text)` and its first group, for one pattern list. */
  type Matcher = (nat, string) -> Option<string>

  const TitlePatternCount: nat := 6
  const CompanyPatternCount: nat := 3
  const LocationPatternCount: nat := 3

  const TitleCap: nat := 200
  const CompanyCap: nat := 100
  const LocationCap: nat := 100

  /** Words that mark a location candidate as a false positive. */
  const LocationNoise: seq<string> := ["job", "position", "role", "application"]

  /**
   * The `status_keywords` dict in insertion order. The label stored is the
   * key title-cased: 'rejected', 'in progress' and 'withdrawn' become the
   * names below.
   */
  const RuleCategories: seq<Category> := [
    Category(Rejected, ["rejected", "not selected", "unfortunately", "not moving forward", "declined"]),
    Category(InProgress, ["interview", "next step", "screening", "shortlisted", "reviewing"]),
    Category(Withdrawn, ["withdrawn", "withdraw", "cancelled"])]

  // ---------------------------------------------------------------------------
  // Reference definitions

  /** The first of patterns `from .. count-1` that matches `text`. */
  function FirstMatch(m: Matcher, from: nat, count: nat, text: string): (r: Option<nat>)
    ensures r.Some? ==> from <= r.value < count && m(r.value, text).Some?
    ensures r.Some? ==> forall j :: from <= j < r.value ==> m(j, text).None?
    ensures r.None? ==> forall j :: from <= j < count ==> m(j, text).None?
    decreases count - from
  {
    if from >= count then None
    else if m(from, text).Some? then Some(from)
    else FirstMatch(m, from + 1, count, text)
  }

  /** The stripped group of the first matching pattern. */
  function FirstGroup(m: Matcher, count: nat, text: string): Option<string> {
    match FirstMatch(m, 0, count, text)
    case Some(k) => Some(Strip(m(k, text).value))
    case None => None
  }

  /** The location filter: shorter than 50 characters and none of the noise words in it. */
  predicate AcceptableLocation(l: string) {
    |l| < 50 && !AnyIn(LocationNoise, Lower(l))
  }

  /** The first of patterns `from ..` whose stripped group passes `accept`. */
  function FirstAccepted(m: Matcher, accept: string -> bool, from: nat, text: string): (r: Option<nat>)
    ensures r.Some? ==> from <= r.value < LocationPatternCount && m(r.value, text).Some? && accept(Strip(m(r.value, text).value))
    ensures r.Some? ==> forall j :: from <= j < r.value && m(j, text).Some? ==> !accept(Strip(m(j, text).value))
    ensures r.None? ==> forall j :: from <= j < LocationPatternCount && m(j, text).Some? ==> !accept(Strip(m(j, text).value))
    decreases LocationPatternCount - from
  {
    if from >= LocationPatternCount then None
    else
      var hit := m(from, text);
      if hit.Some? && accept(Strip(hit.value)) then Some(from)
      else FirstAccepted(m, accept, from + 1, text)
  }

  /** The first pattern from `from` on whose stripped group passes the filter; a rejected group does not stop the search. */
  function FirstLocation(m: Matcher, from: nat, text: string): (r: Option<string>)
    ensures r.Some? ==> AcceptableLocation(r.value)
    ensures r.Some? ==>
      exists k :: && from <= k < LocationPatternCount && m(k, text).Some? && Strip(m(k, text).value) == r.value
                  && forall j :: from <= j < k && m(j, text).Some? ==> !AcceptableLocation(Strip(m(j, text).value))
    ensures r.None? ==> forall k :: from <= k < LocationPatternCount && m(k, text).Some? ==> !AcceptableLocation(Strip(m(k, text).value))
  {
    match FirstAccepted(m, AcceptableLocation, from, text)
    case Some(k) => Some(Strip(m(k, text).value))
    case None => None
  }

  /** The status the keyword loop assigns. */
  function RuleStatus(content: string): (r: string)
    ensures r == Applied <==> forall j :: 0 <= j < |RuleCategories| ==> !Hits(RuleCategories[j], content)
  {
    match FirstHit(RuleCategories, content)
    case Some(i) => RuleCategories[i].name
    case None => Applied
  }

  /** `parsedate_to_datetime(value).isoformat()`, or the current time when parsing raises. */
  function DateField(value: Option<string>, parseDate: string -> Option<string>, now: string): Option<string> {
    match value
    case None => None
    case Some(v) => Some(parseDate(v).GetOr(now))
  }

  /** The subject's title, else the body's when the subject gives none or an empty one. */
  function JobTitleFound(titles: Matcher, subject: string, body: string): (r: Option<string>)
    ensures var s, b := FirstGroup(titles, TitlePatternCount, subject), FirstGroup(titles, TitlePatternCount, body);
      && (s.Some? && s.value != "" ==> r == s)
      && (!(s.Some? && s.value != "") && b.Some? ==> r == b)
      && (r.None? <==> s.None? && b.None?)
  {
    var fromSubject := FirstGroup(titles, TitlePatternCount, subject);
    if fromSubject.Some? && fromSubject.value != "" then fromSubject
    else
      var fromBody := FirstGroup(titles, TitlePatternCount, body);
      if fromBody.Some? then fromBody else fromSubject
  }

  /** A subject pattern's company, else the sender's '@' run title-cased. */
  function CompanyFound(companies: Matcher, subject: string, sender: string): (r: Option<string>)
    ensures FirstGroup(companies, CompanyPatternCount, subject).Some? ==> r == FirstGroup(companies, CompanyPatternCount, subject)
    ensures r.None? <==> FirstGroup(companies, CompanyPatternCount, subject).None? && AtRun(sender).None?
    ensures FirstGroup(companies, CompanyPatternCount, subject).None? && r.Some? ==> r.value == Title(AtRun(sender).value)
  {
    var fromSubject := FirstGroup(companies, CompanyPatternCount, subject);
    if fromSubject.Some? then fromSubject
    else match AtRun(sender)
      case Some(run) => Some(Title(run))
      case None => None
  }

  /** The clean-up step: a truthy value keeps its first `n` characters. */
  function Cap(v: Option<string>, n: nat): (r: Option<string>)
    ensures r.Some? <==> v.Some?
    ensures r.Some? ==> |r.value| <= n && IsPrefix(r.value, v.value)
    ensures r.Some? && |v.value| <= n ==> r.value == v.value
  {
    match v
    case Some(s) => Some(if s != "" then Prefix(s, n) else s)
    case None => None
  }

  // ---------------------------------------------------------------------------
  // The parser

  /** One pattern loop: the stripped group of the first pattern that matches, then `break`. */
  method SearchPatterns(m: Matcher, count: nat, text: string) returns (g: Option<string>)
    ensures g == FirstGroup(m, count, text)
  {
    for k := 0 to count
      invariant forall j :: 0 <= j < k ==> m(j, text).None?
    {
      var found := m(k, text);
      if found.Some? {
        assert FirstMatch(m, 0, count, text) == Some(k) by { FirstMatchAt(m, 0, count, text, k); }
        return Some(Strip(found.value));
      }
    }
    assert FirstMatch(m, 0, count, text) == None by { NoMatchAt(m, 0, count, text); }
    return None;
  }

  lemma {:induction false} FirstMatchAt(m: Matcher, from: nat, count: nat, text: string, k: nat)
    requires from <= k < count && m(k, text).Some?
    requires forall j :: from <= j < k ==> m(j, text).None?
    ensures FirstMatch(m, from, count, text) == Some(k)
    decreases k - from
  {
    if from < k {
      FirstMatchAt(m, from + 1, count, text, k);
    }
  }

  lemma {:induction false} NoMatchAt(m: Matcher, from: nat, count: nat, text: string)
    requires forall j :: from <= j < count ==> m(j, text).None?
    ensures FirstMatch(m, from, count, text) == None
    decreases count - from
  {
    if from < count {
      NoMatchAt(m, from + 1, count, text);
    }
  }

  /** The location loop: a match whose stripped group fails the filter moves on to the next pattern. */
  method SearchLocation(m: Matcher, text: string) returns (location: Option<string>)
    ensures location == FirstLocation(m, 0, text)
  {
    for k := 0 to LocationPatternCount
      invariant FirstLocation(m, 0, text) == FirstLocation(m, k, text)
    {
      var found := m(k, text);
      if found.Some? {
        var l := Strip(found.value);
        if |l| < 50 && !AnyIn(LocationNoise, Lower(l)) {
          return Some(l);
        }
      }
    }
    return None;
  }

  /** The status loop over the keyword categories, first hit wins. */
  method SearchStatus(content: string) returns (status: string)
    ensures status == RuleStatus(content)
  {
    status := Applied;
    for k := 0 to |RuleCategories|
      invariant forall j :: 0 <= j < k ==> !Hits(RuleCategories[j], content)
    {
      if AnyIn(RuleCategories[k].keywords, content) {
        assert FirstHit(RuleCategories, content) == Some(k);
        return RuleCategories[k].name;
      }
    }
  }

  /** The header loop: the last `subject`, `from` and `date` header (names lower-cased) wins. */
  method ScanHeaders(headers: seq<Header>, parseDate: string -> Option<string>, now: string)
    returns (subject: Option<string>, sender: Option<string>, date: Option<string>)
    ensures subject == LastValue(headers, "subject")
    ensures sender == LastValue(headers, "from")
    ensures date == DateField(LastValue(headers, "date"), parseDate, now)
  {
    subject, sender, date := None, None, None;
    for i := 0 to |headers|
      invariant subject == LastValue(headers[..i], "subject")
      invariant sender == LastValue(headers[..i], "from")
      invariant date == DateField(LastValue(headers[..i], "date"), parseDate, now)
    {
      var name := Lower(headers[i].name);
      var value := headers[i].value;
      LastValuePrefix(headers, i, "subject");
      LastValuePrefix(headers, i, "from");
      LastValuePrefix(headers, i, "date");
      if name == "subject" {
        subject := Some(value);
      } else if name == "from" {
        sender := Some(value);
      } else if name == "date" {
        var parsed := parseDate(value);
        date := if parsed.Some? then Some(parsed.value) else Some(now);
      }
    }
    assert headers[..|headers|] == headers;
  }

  /** The two title searches: the subject first, the body when that gives nothing truthy. */
  method SearchJobTitle(titles: Matcher, subject: string, body: string) returns (jobTitle: Option<string>)
    ensures jobTitle == JobTitleFound(titles, subject, body)
  {
    jobTitle := SearchPatterns(titles, TitlePatternCount, subject);
    if jobTitle.None? || jobTitle.value == "" {
      var fromBody := SearchPatterns(titles, TitlePatternCount, body);
      if fromBody.Some? {
        jobTitle := fromBody;
      }
    }
  }

  /** The sender's domain, then the subject patterns. */
  method SearchCompany(companies: Matcher, subject: string, sender: string) returns (company: Option<string>)
    ensures company == CompanyFound(companies, subject, sender)
  {
    company := None;
    var run := AtRun(sender);
    if run.Some? {
      company := Some(Title(run.value));
    }
    var fromSubject := SearchPatterns(companies, CompanyPatternCount, subject);
    if fromSubject.Some? {
      company := fromSubject;
    }
  }

  /**
   * `parse_email_for_job_application`. `id` is the message's `id` entry;
   * `body` is the extracted body text; `parseDate` and `now` stand for the
   * date parser and the clock; `titles`, `companies` and `locations` stand
   * for the three regular-expression lists.
   */
  method ParseEmailForJobApplication(
    headers: seq<Header>, id: Option<string>, body: string,
    parseDate: string -> Option<string>, now: string,
    titles: Matcher, companies: Matcher, locations: Matcher)
    returns (r: RuleResult)
    ensures r.subject == LastValue(headers, "subject")
    ensures r.sender == LastValue(headers, "from")
    ensures r.date == DateField(LastValue(headers, "date"), parseDate, now)
    ensures r.emailId == id.GetOr("")
    ensures r.jobTitle == Cap(JobTitleFound(titles, r.subject.GetOr(""), body), TitleCap)
    ensures r.company == Cap(CompanyFound(companies, r.subject.GetOr(""), r.sender.GetOr("")), CompanyCap)
    ensures r.location == Cap(FirstLocation(locations, 0, body), LocationCap)
    ensures r.status == RuleStatus(Lower(r.subject.GetOr("") + " " + body))
  {
    var subject, sender, date := ScanHeaders(headers, parseDate, now);
    var emailId := id.GetOr("");
    var subjectText := subject.GetOr("");
    var jobTitle := SearchJobTitle(titles, subjectText, body);
    var company := SearchCompany(companies, subjectText, sender.GetOr(""));
    var location := SearchLocation(locations, body);
    var status := SearchStatus(Lower(subjectText + " " + body));
    r := RuleResult(Cap(jobTitle, TitleCap), Cap(company, CompanyCap), Cap(location, LocationCap),
                    status, date, emailId, sender, subject);
  }

  // ---------------------------------------------------------------------------
  // Properties

  /** The length caps: title at most 200 characters, company and location at most 100, shorter values unchanged. */
  lemma ParsedFieldsCapped(titles: Matcher, companies: Matcher, locations: Matcher, subject: string, sender: string, body: string)
    ensures var t := Cap(JobTitleFound(titles, subject, body), TitleCap);
      t.Some? ==> |t.value| <= 200 && (|JobTitleFound(titles, subject, body).value| <= 200 ==> t == JobTitleFound(titles, subject, body))
    ensures var c := Cap(CompanyFound(companies, subject, sender), CompanyCap);
      c.Some? ==> |c.value| <= 100 && (|CompanyFound(companies, subject, sender).value| <= 100 ==> c == CompanyFound(companies, subject, sender))
    ensures var l := Cap(FirstLocation(locations, 0, body), LocationCap);
      l.Some? ==> |l.value| < 50 && l == FirstLocation(locations, 0, body) && AcceptableLocation(l.value)
  {
  }

  /** Without a subject pattern the company is the sender's '@' run, title-cased; none when the sender has no '@' run. */
  lemma CompanyFromSender(companies: Matcher, subject: string, sender: string)
    requires forall k :: 0 <= k < CompanyPatternCount ==> companies(k, subject).None?
    ensures CompanyFound(companies, subject, sender).Some? <==> exists i :: 0 <= i < |sender| - 1 && sender[i] == '@' && sender[i + 1] != '.'
    ensures CompanyFound(companies, subject, sender).Some? ==>
      && CompanyFound(companies, subject, sender).value == Title(AtRun(sender).value)
      && Lower(CompanyFound(companies, subject, sender).value) == Lower(AtRun(sender).value)
  {
    NoMatchAt(companies, 0, CompanyPatternCount, subject);
    if AtRun(sender).Some? {
      TitleLower(AtRun(sender).value);
    }
  }

  /** A subject pattern's company overrides the sender's domain. */
  lemma SubjectCompanyWins(companies: Matcher, subject: string, sender: string, k: nat)
    requires k < CompanyPatternCount && companies(k, subject).Some?
    requires forall j :: 0 <= j < k ==> companies(j, subject).None?
    ensures CompanyFound(companies, subject, sender) == Some(Strip(companies(k, subject).value))
  {
    FirstMatchAt(companies, 0, CompanyPatternCount, subject, k);
  }

  /** The body is searched for a title only when the subject yields none or an empty one. */
  lemma TitlePrefersSubject(titles: Matcher, subject: string, body: string)
    requires FirstGroup(titles, TitlePatternCount, subject).Some? && FirstGroup(titles, TitlePatternCount, subject).value != ""
    ensures JobTitleFound(titles, subject, body) == FirstGroup(titles, TitlePatternCount, subject)
  {
  }

  /**
   * The keyword status: 'Rejected', 'In Progress' or 'Withdrawn' for the first
   * category with a hit, in that order, and 'Applied' when none hits.
   */
  lemma RuleStatusPrecedence(content: string)
    ensures RuleStatus(content) in [Applied, Rejected, InProgress, Withdrawn]
    ensures Hits(RuleCategories[0], content) ==> RuleStatus(content) == Rejected
    ensures !Hits(RuleCategories[0], content) && Hits(RuleCategories[1], content) ==> RuleStatus(content) == InProgress
    ensures !Hits(RuleCategories[0], content) && !Hits(RuleCategories[1], content) && Hits(RuleCategories[2], content) ==>
      RuleStatus(content) == Withdrawn
    ensures (forall j :: 0 <= j < |RuleCategories| ==> !Hits(RuleCategories[j], content)) ==> RuleStatus(content) == Applied
  {
  }
}
