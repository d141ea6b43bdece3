/**
  Keyword classification (`categorizeEntry`): the description is lowered and
  then tried, in order, against the eleven keyword lists of the category
  table, then against the seven fallback work terms, and otherwise falls
  into Miscellaneous. A list or term applies when one of its strings is a
  plain substring (`includes`) of the lowered text.

  `Decide` is the dispatch chain as the loops run it; `PrimaryPicks`,
  `FallbackPicks` and `NoMatch` say declaratively which rule decides, and
  `DecideIff` shows the two agree.
 */
module Categories {
  import opened Wrappers
  import opened Text

  /** The eleven categories of the table, and the default. */
  datatype Category =
    | Meetings | Research | Development | Planning | Communication | Design
    | Marketing | ProjectManagement | Customer | Administration | Learning
    | Miscellaneous

  /** The category names as they appear in the chart. */
  function Name(c: Category): string {
    match c
    case Meetings => "Meetings & Calls"
    case Research => "Research & Documentation"
    case Development => "Development & Engineering"
    case Planning => "Planning & Strategy"
    case Communication => "Communication & Coordination"
    case Design => "Design & Creative"
    case Marketing => "Marketing & Content"
    case ProjectManagement => "Project Management"
    case Customer => "Customer & Support"
    case Administration => "Administration & Ops"
    case Learning => "Learning & Growth"
    case Miscellaneous => "Miscellaneous"
  }

  /** One entry of the `categories` object: a category and its keywords. */
  datatype Row = Row(category: Category, keywords: seq<string>)

  /** One entry of the `workTerms` object: a term and the category it stands for. */
  datatype WorkTerm = WorkTerm(term: string, category: Category)

  /** `keywords.some(keyword => text.includes(keyword))`. */
  predicate Mentions(text: string, keywords: seq<string>) {
    exists kw :: kw in keywords && Contains(text, kw)
  }

  // The dispatch chain over any table and any list of work terms.

  /** The first loop: the first row from `k` on whose keywords the text mentions. */
  function FirstRow(text: string, rows: seq<Row>, k: nat): (r: Option<nat>)
    requires k <= |rows|
    ensures r.Some? ==> k <= r.value < |rows|
    decreases |rows| - k, text
  {
    if k == |rows| then None
    else if Mentions(text, rows[k].keywords) then Some(k)
    else FirstRow(text, rows, k + 1)
  }

  /** The second loop: the first work term from `k` on that the text contains. */
  function FirstTerm(text: string, terms: seq<WorkTerm>, k: nat): (r: Option<nat>)
    requires k <= |terms|
    ensures r.Some? ==> k <= r.value < |terms|
    decreases |terms| - k, text
  {
    if k == |terms| then None
    else if Contains(text, terms[k].term) then Some(k)
    else FirstTerm(text, terms, k + 1)
  }

  /** Which part of the chain decides: a table row, a work term, or the default. */
  datatype Rule = Primary(k: nat) | Fallback(k: nat) | Default

  /** The rule that decides for an already lowered text. */
  function Decide(text: string, rows: seq<Row>, terms: seq<WorkTerm>): (r: Rule)
    ensures r.Primary? ==> r.k < |rows|
    ensures r.Fallback? ==> r.k < |terms|
  {
    match FirstRow(text, rows, 0)
    case Some(k) => Primary(k)
    case None =>
      match FirstTerm(text, terms, 0)
      case Some(k) => Fallback(k)
      case None => Default
  }

  /** The category a rule returns. */
  function RuleCategory(r: Rule, rows: seq<Row>, terms: seq<WorkTerm>): Category
    requires r.Primary? ==> r.k < |rows|
    requires r.Fallback? ==> r.k < |terms|
  {
    match r
    case Primary(k) => rows[k].category
    case Fallback(k) => terms[k].category
    case Default => Miscellaneous
  }

  /** Row `k` decides: its keywords are mentioned and no earlier row's are. */
  predicate PrimaryPicks(text: string, rows: seq<Row>, k: nat) {
    && k < |rows|
    && Mentions(text, rows[k].keywords)
    && forall m :: 0 <= m < k ==> !Mentions(text, rows[m].keywords)
  }

  /** No row is mentioned. */
  predicate NoPrimary(text: string, rows: seq<Row>) {
    forall m :: 0 <= m < |rows| ==> !Mentions(text, rows[m].keywords)
  }

  /** Work term `k` decides: no row is mentioned, the term occurs and no earlier term does. */
  predicate FallbackPicks(text: string, rows: seq<Row>, terms: seq<WorkTerm>, k: nat) {
    && NoPrimary(text, rows)
    && k < |terms|
    && Contains(text, terms[k].term)
    && forall m :: 0 <= m < k ==> !Contains(text, terms[m].term)
  }

  /** Neither a row nor a work term applies. */
  predicate NoMatch(text: string, rows: seq<Row>, terms: seq<WorkTerm>) {
    && NoPrimary(text, rows)
    && forall m :: 0 <= m < |terms| ==> !Contains(text, terms[m].term)
  }

  /** What the first loop returns, stated declaratively. */
  lemma {:induction false} FirstRowSpec(text: string, rows: seq<Row>, k: nat)
    requires k <= |rows|
    ensures FirstRow(text, rows, k).Some? ==>
      && Mentions(text, rows[FirstRow(text, rows, k).value].keywords)
      && forall m :: k <= m < FirstRow(text, rows, k).value ==> !Mentions(text, rows[m].keywords)
    ensures FirstRow(text, rows, k).None? ==> forall m :: k <= m < |rows| ==> !Mentions(text, rows[m].keywords)
    decreases |rows| - k
  {
    if k < |rows| && !Mentions(text, rows[k].keywords) {
      FirstRowSpec(text, rows, k + 1);
    }
  }

  /** What the second loop returns, stated declaratively. */
  lemma {:induction false} FirstTermSpec(text: string, terms: seq<WorkTerm>, k: nat)
    requires k <= |terms|
    ensures FirstTerm(text, terms, k).Some? ==>
      && Contains(text, terms[FirstTerm(text, terms, k).value].term)
      && forall m :: k <= m < FirstTerm(text, terms, k).value ==> !Contains(text, terms[m].term)
    ensures FirstTerm(text, terms, k).None? ==> forall m :: k <= m < |terms| ==> !Contains(text, terms[m].term)
    decreases |terms| - k
  {
    if k < |terms| && !Contains(text, terms[k].term) {
      FirstTermSpec(text, terms, k + 1);
    }
  }

  /** The chain picks exactly the rule the declarative description names: a row when it is
      the first one mentioned, a work term only when no row is mentioned and it is the first
      term present, and the default only when nothing applies. */
  lemma DecideIff(text: string, rows: seq<Row>, terms: seq<WorkTerm>, r: Rule)
    ensures Decide(text, rows, terms) == r <==>
      match r
      case Primary(k) => PrimaryPicks(text, rows, k)
      case Fallback(k) => FallbackPicks(text, rows, terms, k)
      case Default => NoMatch(text, rows, terms)
  {
    FirstRowSpec(text, rows, 0);
    FirstTermSpec(text, terms, 0);
  }

  /** A mentioned row ends the search: the rule that decides is that row or an earlier one. */
  lemma RowWins(text: string, rows: seq<Row>, terms: seq<WorkTerm>, j: nat)
    requires j < |rows| && Mentions(text, rows[j].keywords)
    ensures Decide(text, rows, terms).Primary? && Decide(text, rows, terms).k <= j
  {
    FirstRowSpec(text, rows, 0);
  }

  /** A work term that is also a keyword of some row never decides. */
  lemma TermShadowed(text: string, rows: seq<Row>, terms: seq<WorkTerm>, t: nat, j: nat)
    requires t < |terms| && j < |rows| && terms[t].term in rows[j].keywords
    ensures Decide(text, rows, terms) != Fallback(t)
  {
    DecideIff(text, rows, terms, Fallback(t));
    if Contains(text, terms[t].term) {
      assert Mentions(text, rows[j].keywords);
    }
  }

  /** A keyword of row `j` that contains a keyword of an earlier row `i` never lets row `j`
      win: whenever it occurs, row `i` or an earlier one decides. */
  lemma KeywordShadowed(text: string, rows: seq<Row>, terms: seq<WorkTerm>, j: nat, kw: string, i: nat, kw2: string)
    requires i < j < |rows| && kw in rows[j].keywords && kw2 in rows[i].keywords
    requires Contains(kw, kw2) && Contains(text, kw)
    ensures Decide(text, rows, terms).Primary? && Decide(text, rows, terms).k <= i
  {
    ContainsTrans(text, kw, kw2);
    RowWins(text, rows, terms, i);
  }

  // The tables of `categorizeEntry`.

  /** The `categories` object, in the order `Object.entries` visits it. */
  function Table(): (rows: seq<Row>)
    ensures |rows| == 11
  {
    [
      Row(Meetings,
        ["call", "sync", "meeting", "standup", "catch-up", "catchup", "interview",
         "workshop", "session", "1:1", "one-on-one", "conference", "webinar"]),
      Row(Research,
        ["research", "documentation", "write", "draft", "review", "read",
         "analyze", "analysis", "report", "document", "study", "explore",
         "investigation", "learn", "notes", "writing", "wiki"]),
      Row(Development,
        ["test", "develop", "code", "debug", "programming", "deployment",
         "feature", "fix", "build", "implementation", "coding", "testing",
         "qa", "architecture", "design system", "technical", "engineering"]),
      Row(Planning,
        ["plan", "strategy", "prep", "roadmap", "goal", "okr", "vision",
         "initiative", "objective", "priority", "planning", "strategic",
         "forecast", "budget", "scope", "requirements"]),
      Row(Communication,
        ["message", "response", "coordination", "email", "slack", "chat",
         "discord", "telegram", "announcement", "communication", "respond",
         "follow-up", "followup", "update", "status"]),
      Row(Design,
        ["design", "mockup", "prototype", "wireframe", "ui", "ux",
         "visual", "graphics", "creative", "artwork", "illustration",
         "sketch", "figma", "styling"]),
      Row(Marketing,
        ["marketing", "content", "social media", "blog", "post", "tweet",
         "campaign", "promotion", "seo", "analytics", "metrics", "copy",
         "editorial", "publish", "social"]),
      Row(ProjectManagement,
        ["project", "management", "tracking", "jira", "trello", "asana",
         "milestone", "deadline", "timeline", "schedule", "coordination",
         "organizing", "backlog", "sprint"]),
      Row(Customer,
        ["customer", "support", "client", "user", "feedback", "help",
         "ticket", "issue", "service", "complaint", "resolution",
         "assistance", "troubleshoot"]),
      Row(Administration,
        ["admin", "operation", "process", "procedure", "policy",
         "system", "setup", "configure", "maintenance", "infrastructure",
         "organize", "filing", "documentation"]),
      Row(Learning,
        ["training", "learning", "course", "workshop", "education",
         "skill", "development", "growth", "mentor", "coaching",
         "onboarding", "tutorial"])
    ]
  }

  /** The `workTerms` object, in the order `Object.entries` visits it. */
  function WorkTerms(): (terms: seq<WorkTerm>)
    ensures |terms| == 7
  {
    [ WorkTerm("team", ProjectManagement),
      WorkTerm("review", Research),
      WorkTerm("presentation", Communication),
      WorkTerm("report", Research),
      WorkTerm("discussion", Meetings),
      WorkTerm("brainstorm", Planning),
      WorkTerm("collaboration", ProjectManagement) ]
  }

  /** The row of each table category. */
  function RowOf(c: Category): (k: nat)
    requires c != Miscellaneous
    ensures k < |Table()| && Table()[k].category == c
  {
    match c
    case Meetings => 0
    case Research => 1
    case Development => 2
    case Planning => 3
    case Communication => 4
    case Design => 5
    case Marketing => 6
    case ProjectManagement => 7
    case Customer => 8
    case Administration => 9
    case Learning => 10
  }

  /** `categorizeEntry(text)`, as a category. */
  function Categorize(text: string): Category {
    var t := Lower(text);
    RuleCategory(Decide(t, Table(), WorkTerms()), Table(), WorkTerms())
  }

  /** `categorizeEntry(text)`: the category name. */
  function CategorizeEntry(text: string): string {
    Name(Categorize(text))
  }

  // Properties of the classification.

  /** Classification ignores case: it sees only the lowered text. */
  lemma CaseInsensitive(text: string)
    ensures Categorize(Lower(text)) == Categorize(text)
  {
    LowerIdempotent(text);
  }

  /** Every row and every work term names one of the eleven table categories. */
  lemma TablesAvoidDefault()
    ensures forall k :: 0 <= k < |Table()| ==> Table()[k].category != Miscellaneous
    ensures forall k :: 0 <= k < |WorkTerms()| ==> WorkTerms()[k].category != Miscellaneous
  {
  }

  /** Miscellaneous is returned exactly when no keyword and no work term occurs. */
  lemma MiscellaneousIff(text: string)
    ensures Categorize(text) == Miscellaneous <==> NoMatch(Lower(text), Table(), WorkTerms())
  {
    TablesAvoidDefault();
    DecideIff(Lower(text), Table(), WorkTerms(), Default);
  }

  /** The earliest row in table order whose keyword occurs wins. */
  lemma EarlierWins(text: string, j: nat)
    requires j < 11 && Mentions(Lower(text), Table()[j].keywords)
    ensures var r := Decide(Lower(text), Table(), WorkTerms()); r.Primary? && r.k <= j
  {
    RowWins(Lower(text), Table(), WorkTerms(), j);
  }

  /** "workshop" is listed under Meetings & Calls first, so it never means Learning & Growth. */
  lemma WorkshopIsMeeting(text: string)
    requires Contains(Lower(text), "workshop")
    ensures CategorizeEntry(text) == "Meetings & Calls"
  {
    assert "workshop" in Table()[0].keywords;
    EarlierWins(text, 0);
  }

  /** "documentation" is listed under Research & Documentation before Administration & Ops,
      so it never means the latter. */
  lemma DocumentationIsResearch(text: string)
    requires Contains(Lower(text), "documentation")
    ensures Categorize(text) == Meetings || Categorize(text) == Research
  {
    assert "documentation" in Table()[1].keywords;
    EarlierWins(text, 1);
  }

  /** "coordination" is listed under Communication & Coordination before Project Management,
      so it never means the latter. */
  lemma CoordinationIsCommunication(text: string)
    requires Contains(Lower(text), "coordination")
    ensures Categorize(text) in {Meetings, Research, Development, Planning, Communication}
  {
    assert "coordination" in Table()[4].keywords;
    EarlierWins(text, 4);
    var r := Decide(Lower(text), Table(), WorkTerms());
    LeadingRows(r.k);
  }

  /** The categories of the first five rows, in table order. */
  lemma LeadingRows(k: nat)
    requires k < 5
    ensures Table()[k].category == [Meetings, Research, Development, Planning, Communication][k]
  {
  }

  /** "learning" contains the Research & Documentation keyword "learn". */
  lemma LearningMeansResearch(text: string)
    requires Contains(Lower(text), "learning")
    ensures Categorize(text) == Meetings || Categorize(text) == Research
  {
    assert "learning" in Table()[10].keywords && "learn" in Table()[1].keywords;
    ContainsAt("learning", "learn", 0);
    KeywordShadowed(Lower(text), Table(), WorkTerms(), 10, "learning", 1, "learn");
  }

  /** "development" contains the Development & Engineering keyword "develop". */
  lemma DevelopmentMeansEngineering(text: string)
    requires Contains(Lower(text), "development")
    ensures Categorize(text) in {Meetings, Research, Development}
  {
    assert "development" in Table()[10].keywords && "develop" in Table()[2].keywords;
    ContainsAt("development", "develop", 0);
    KeywordShadowed(Lower(text), Table(), WorkTerms(), 10, "development", 2, "develop");
  }

  /** Three keywords of Learning & Growth can never decide for it: "workshop" is a
      Meetings & Calls keyword, "learning" contains "learn" and "development" contains "develop". */
  lemma LearningShadowed(text: string)
    requires Categorize(text) == Learning
    ensures !Contains(Lower(text), "workshop")
    ensures !Contains(Lower(text), "learning")
    ensures !Contains(Lower(text), "development")
  {
    if Contains(Lower(text), "workshop") {
      WorkshopIsMeeting(text);
    }
    if Contains(Lower(text), "learning") {
      LearningMeansResearch(text);
    }
    if Contains(Lower(text), "development") {
      DevelopmentMeansEngineering(text);
    }
  }

  /** The work terms "review" and "report" never decide: both are Research & Documentation
      keywords, so the first loop has already returned whenever they occur. */
  lemma ReviewReportNeverDecide(text: string)
    ensures Decide(text, Table(), WorkTerms()) != Fallback(1)
    ensures Decide(text, Table(), WorkTerms()) != Fallback(3)
  {
    assert WorkTerms()[1].term == "review" && "review" in Table()[1].keywords;
    TermShadowed(text, Table(), WorkTerms(), 1, 1);
    assert WorkTerms()[3].term == "report" && "report" in Table()[1].keywords;
    TermShadowed(text, Table(), WorkTerms(), 3, 1);
  }

  /** The result is always the name of a table category or "Miscellaneous". */
  lemma CategorizeEntryTotal(text: string)
    ensures CategorizeEntry(text) == "Miscellaneous"
      || exists k :: 0 <= k < |Table()| && CategorizeEntry(text) == Name(Table()[k].category)
  {
    var r := Decide(Lower(text), Table(), WorkTerms());
    match r
    case Primary(k) =>
    case Fallback(k) =>
      var c := WorkTerms()[k].category;
      assert c == Table()[RowOf(c)].category;
    case Default =>
  }

  /** "code review call" mentions the Meetings & Calls keyword "call", which comes first in
      the table, so the Research & Documentation keyword "review" and the Development &
      Engineering keyword "code" do not decide. */
  lemma CodeReviewCall()
    ensures CategorizeEntry("code review call") == "Meetings & Calls"
  {
    var t := "code review call";
    assert Lower(t) == t;
    assert "call" in Table()[0].keywords;
    ContainsAt(t, "call", 12);
    EarlierWins(t, 0);
  }
}
