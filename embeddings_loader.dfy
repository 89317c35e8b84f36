/**
 * The RAG content loader: each job posting and each profile is rendered as a
 * labelled text, embedded, and upserted as one row of the `rag_content` table.
 *
 * Reading the JSON files, the OpenAI embedding call and the Supabase client
 * are outside the model: the parsed items are inputs, the embedding call is
 * the function parameter `embed` (`None` when it raises), the table is the
 * object `RagTable`, and whether the store accepts the n-th upsert is the
 * function parameter `accepts`.
 */
module EmbeddingsLoader {
  import opened Wrappers
  import opened Strings
  import opened Numerals

  /** A job posting as read from JSON; an absent key is `None`. */
  datatype Job = Job(
    id: Option<string>,
    title: Option<string>,
    company: Option<string>,
    location: Option<string>,
    employmentType: Option<string>,
    experienceLevel: Option<string>,
    salaryRange: Option<string>,
    skills: Option<seq<string>>,
    description: Option<string>)

  datatype Education = Education(degree: Option<string>, school: Option<string>)

  /** A profile as read from JSON; an absent key is `None`. */
  datatype Profile = Profile(
    name: Option<string>,
    title: Option<string>,
    company: Option<string>,
    location: Option<string>,
    experienceYears: Option<int>,
    careerLevel: Option<string>,
    industry: Option<string>,
    skills: Option<seq<string>>,
    education: Option<seq<Education>>,
    summary: Option<string>,
    linkedinUrl: Option<string>)

  /** An embedding vector; the loader passes it through without looking inside. */
  type Vector = seq<real>

  datatype DocumentType = JobDocument | ProfileDocument

  /** One row of `rag_content`. */
  datatype Record = Record(id: string, embedding: Vector, context: string, userId: int, documentType: DocumentType)

  // ---------------------------------------------------------------------------
  // Rendering

  /** A scalar field as the f-string writes it, `N/A` when the key is absent. */
  function Field(value: Option<string>): string {
    value.GetOr("N/A")
  }

  /** The skills joined with ", ", empty when the key is absent. */
  function SkillsText(skills: Option<seq<string>>): string {
    Join(skills.GetOr([]), ", ")
  }

  /** One education entry: "{degree} from {school}", an absent part being empty. */
  function EducationEntry(e: Education): string {
    e.degree.GetOr("") + " from " + e.school.GetOr("")
  }

  function EducationEntries(es: seq<Education>): seq<string> {
    seq(|es|, k requires 0 <= k < |es| => EducationEntry(es[k]))
  }

  /** The education entries joined with "; ", empty when the key is absent. */
  function EducationText(education: Option<seq<Education>>): string {
    Join(EducationEntries(education.GetOr([])), "; ")
  }

  /** Skills appear in list order, one ", " between neighbours; a missing list renders as nothing. */
  lemma SkillsTextOrder(skills: seq<string>, skill: string)
    ensures SkillsText(None) == "" && SkillsText(Some([skill])) == skill
    ensures skills != [] ==> SkillsText(Some(skills + [skill])) == SkillsText(Some(skills)) + ", " + skill
  {
    if skills != [] {
      JoinAppend(skills, skill, ", ");
    }
  }

  /** Education entries appear in list order, one "; " between neighbours; a missing list renders as nothing. */
  lemma EducationTextOrder(es: seq<Education>, e: Education)
    ensures EducationText(None) == "" && EducationText(Some([e])) == EducationEntry(e)
    ensures es != [] ==> EducationText(Some(es + [e])) == EducationText(Some(es)) + "; " + EducationEntry(e)
  {
    assert EducationEntries([e]) == [EducationEntry(e)];
    if es != [] {
      assert EducationEntries(es + [e]) == EducationEntries(es) + [EducationEntry(e)];
      JoinAppend(EducationEntries(es), EducationEntry(e), "; ");
    }
  }

  /** An entry with neither key renders as " from ", the two parts being empty. */
  lemma EmptyEducationEntry()
    ensures EducationEntry(Education(None, None)) == " from "
  {
  }

  /** What each line of a job's text starts with, in order. */
  const JobLabels: seq<string> := ["Job Title: ", "Company: ", "Location: ", "Employment Type: ",
                                   "Experience Level: ", "Salary Range: ", "Skills: ", "Description: "]

  /** What each line of a profile's text starts with, in order. */
  const ProfileLabels: seq<string> := ["Name: ", "Title: ", "Company: ", "Location: ", "Experience: ", "Career Level: ",
                                       "Industry: ", "Skills: ", "Education: ", "Summary: ", "LinkedIn: "]

  /** What follows each label of a job, in label order. */
  function JobValues(job: Job): seq<string> {
    [Field(job.title), Field(job.company), Field(job.location), Field(job.employmentType),
     Field(job.experienceLevel), Field(job.salaryRange), SkillsText(job.skills), Field(job.description)]
  }

  /** What follows each label of a profile, in label order. */
  function ProfileValues(p: Profile): seq<string> {
    [Field(p.name), Field(p.title), Field(p.company), Field(p.location),
     IntToString(p.experienceYears.GetOr(0)) + " years", Field(p.careerLevel), Field(p.industry),
     SkillsText(p.skills), EducationText(p.education), Field(p.summary), Field(p.linkedinUrl)]
  }

  /** Each label followed by its value. */
  function Labeled(labels: seq<string>, values: seq<string>): (r: seq<string>)
    requires |labels| == |values|
    ensures |r| == |labels| && forall k :: 0 <= k < |r| ==> r[k] == labels[k] + values[k]
  {
    seq(|labels|, k requires 0 <= k < |labels| => labels[k] + values[k])
  }

  predicate NoNewline(values: seq<string>) {
    forall k :: 0 <= k < |values| ==> '\n' !in values[k]
  }

  /**
   * `format_job_context`: the eight labelled lines of the f-string, one per
   * line. When no value holds a line break, the text splits back into exactly
   * those lines.
   */
  function FormatJobContext(job: Job): (text: string)
    ensures NoNewline(JobValues(job)) ==>
              Split(text, '\n') == Labeled(JobLabels, JobValues(job)) && |Split(text, '\n')| == 8
  {
    JobLabelsNoNewline();
    JoinLabeledSplit(JobLabels, JobValues(job));
    Join(Labeled(JobLabels, JobValues(job)), "\n")
  }

  /**
   * `format_profile_context`: the eleven labelled lines of the f-string, one
   * per line. When no value holds a line break, the text splits back into
   * exactly those lines.
   */
  function FormatProfileContext(p: Profile): (text: string)
    ensures NoNewline(ProfileValues(p)) ==>
              Split(text, '\n') == Labeled(ProfileLabels, ProfileValues(p)) && |Split(text, '\n')| == 11
  {
    ProfileLabelsNoNewline();
    JoinLabeledSplit(ProfileLabels, ProfileValues(p));
    Join(Labeled(ProfileLabels, ProfileValues(p)), "\n")
  }

  lemma JobLabelsNoNewline()
    ensures NoNewline(JobLabels)
  {
  }

  lemma ProfileLabelsNoNewline()
    ensures NoNewline(ProfileLabels)
  {
  }

  /** Lines joined by line breaks split back into themselves when neither a label nor a value holds one. */
  lemma JoinLabeledSplit(labels: seq<string>, values: seq<string>)
    requires |labels| == |values| && |labels| >= 1 && NoNewline(labels)
    ensures NoNewline(values) ==> Split(Join(Labeled(labels, values), "\n"), '\n') == Labeled(labels, values)
  {
    if NoNewline(values) {
      var lines := Labeled(labels, values);
      assert NoNewline(lines);
      SplitJoin(lines, '\n');
    }
  }

  /** A job with none of its keys has `N/A` after every label but `Skills: `, which is left empty. */
  lemma EmptyJobLines()
    ensures Split(FormatJobContext(Job(None, None, None, None, None, None, None, None, None)), '\n')
         == Labeled(JobLabels, ["N/A", "N/A", "N/A", "N/A", "N/A", "N/A", "", "N/A"])
  {
    var values := ["N/A", "N/A", "N/A", "N/A", "N/A", "N/A", "", "N/A"];
    assert JobValues(Job(None, None, None, None, None, None, None, None, None)) == values;
    assert NoNewline(values);
  }

  /**
   * A profile with none of its keys has `N/A` after every label but
   * `Experience: `, which reads `0 years`, and `Skills: ` and `Education: `,
   * which are left empty.
   */
  lemma EmptyProfileLines()
    ensures Split(FormatProfileContext(Profile(None, None, None, None, None, None, None, None, None, None, None)), '\n')
         == Labeled(ProfileLabels, ["N/A", "N/A", "N/A", "N/A", "0" + " years", "N/A", "N/A", "", "", "N/A", "N/A"])
  {
    var empty := Profile(None, None, None, None, None, None, None, None, None, None, None);
    var values := ["N/A", "N/A", "N/A", "N/A", "0" + " years", "N/A", "N/A", "", "", "N/A", "N/A"];
    assert IntToString(0) == "0";
    assert ProfileValues(empty) == values;
    assert NoNewline(values);
  }

  // ---------------------------------------------------------------------------
  // Row ids and records

  /**
   * A job row's id: "job_" and the job's `id`, or its position in the file
   * when it has none, which then reads back as that position.
   */
  function JobRowId(job: Job, index: nat): (id: string)
    ensures StartsWith(id, "job_")
    ensures job.id.Some? ==> id[4..] == job.id.value
    ensures job.id.None? ==> ParseInt(id[4..]) == Some(index)
  {
    ParseIntOfIntToString(index);
    var suffix := match job.id case Some(id) => id case None => IntToString(index);
    assert ("job_" + suffix)[4..] == suffix;
    "job_" + suffix
  }

  /**
   * A profile row's id: its `linkedin_url`, or its position in the file when
   * it has none, which then reads back as that position.
   */
  function ProfileRowId(p: Profile, index: nat): (id: string)
    ensures p.linkedinUrl.Some? ==> id == p.linkedinUrl.value
    ensures p.linkedinUrl.None? ==> ParseInt(id) == Some(index)
  {
    ParseIntOfIntToString(index);
    match p.linkedinUrl
    case Some(url) => url
    case None => IntToString(index)
  }

  /** Two jobs without an `id` at different positions get different rows. */
  lemma JobRowIdsDistinct(a: Job, i: nat, b: Job, j: nat)
    requires a.id.None? && b.id.None? && i != j
    ensures JobRowId(a, i) != JobRowId(b, j)
  {
    IntToStringInjective(i, j);
    assert JobRowId(a, i)[4..] == IntToString(i);
    assert JobRowId(b, j)[4..] == IntToString(j);
  }

  /** Two profiles without a `linkedin_url` at different positions get different rows. */
  lemma ProfileRowIdsDistinct(a: Profile, i: nat, b: Profile, j: nat)
    requires a.linkedinUrl.None? && b.linkedinUrl.None? && i != j
    ensures ProfileRowId(a, i) != ProfileRowId(b, j)
  {
    IntToStringInjective(i, j);
  }

  /** A position-derived profile id never collides with a job id. */
  lemma IndexProfileIdIsNoJobId(p: Profile, i: nat, job: Job, j: nat)
    requires p.linkedinUrl.None?
    ensures ProfileRowId(p, i) != JobRowId(job, j)
  {
    assert IsDigit(ProfileRowId(p, i)[0]);
    assert JobRowId(job, j)[0] == 'j';
  }

  /** The record `load_jobs_into_rag` upserts for the job at `index`. */
  function JobRecord(job: Job, index: nat, userId: int, embedding: Vector): (r: Record)
    ensures StartsWith(r.id, "job_") && r.embedding == embedding && r.userId == userId && r.documentType == JobDocument
    ensures NoNewline(JobValues(job)) ==> |Split(r.context, '\n')| == 8
  {
    Record(JobRowId(job, index), embedding, FormatJobContext(job), userId, JobDocument)
  }

  /** The record `load_profiles_into_rag` upserts for the profile at `index`. */
  function ProfileRecord(p: Profile, index: nat, userId: int, embedding: Vector): (r: Record)
    ensures r.embedding == embedding && r.userId == userId && r.documentType == ProfileDocument
    ensures p.linkedinUrl.None? ==> ParseInt(r.id) == Some(index)
    ensures NoNewline(ProfileValues(p)) ==> |Split(r.context, '\n')| == 11
  {
    Record(ProfileRowId(p, index), embedding, FormatProfileContext(p), userId, ProfileDocument)
  }

  /**
   * The position, at or after `from`, of the first embedding call that fails
   * (`|contexts|` if none does): the loop stops there. Call `i` embeds the
   * text of item `i`.
   */
  function EmbeddedCount(contexts: seq<string>, embed: (nat, string) -> Option<Vector>, from: nat): (k: nat)
    requires from <= |contexts|
    ensures from <= k <= |contexts|
    ensures forall i :: from <= i < k ==> embed(i, contexts[i]).Some?
    ensures k < |contexts| ==> embed(k, contexts[k]).None?
    decreases |contexts| - from
  {
    if from == |contexts| || embed(from, contexts[from]).None? then from
    else EmbeddedCount(contexts, embed, from + 1)
  }

  /** Each call is its own request: the same text can embed at one position and fail at the next. */
  lemma RepeatedTextCanFailLater(c: string, v: Vector)
    ensures var embed := (i: nat, text: string) => if i == 0 then Some(v) else None;
            EmbeddedCount([c, c], embed, 0) == 1
  {
    var embed := (i: nat, text: string) => if i == 0 then Some(v) else None;
    assert EmbeddedCount([c, c], embed, 1) == 1;
  }

  /** The text of each item, in order. */
  function Contexts<T>(items: seq<T>, render: T -> string): (r: seq<string>)
    ensures |r| == |items| && forall i :: 0 <= i < |items| ==> r[i] == render(items[i])
  {
    seq(|items|, i requires 0 <= i < |items| => render(items[i]))
  }

  /**
   * The upserts a loader issues for `items`: one per item, in order, up to the
   * first failed embedding; item `i` gets the id `rowId(item, i)`, the text
   * `render(item)` and its embedding.
   */
  function Upserts<T>(items: seq<T>, rowId: (T, nat) -> string, render: T -> string,
                      docType: DocumentType, userId: int, embed: (nat, string) -> Option<Vector>): (r: seq<Record>)
    ensures |r| <= |items|
    ensures forall i :: 0 <= i < |r| ==>
              && embed(i, render(items[i])).Some?
              && r[i] == Record(rowId(items[i], i), embed(i, render(items[i])).value, render(items[i]), userId, docType)
    ensures |r| < |items| ==> embed(|r|, render(items[|r|])).None?
  {
    var contexts := Contexts(items, render);
    var k := EmbeddedCount(contexts, embed, 0);
    seq(k, i requires 0 <= i < k => Record(rowId(items[i], i), embed(i, contexts[i]).value, contexts[i], userId, docType))
  }

  /** The upserts of `load_jobs_into_rag`. */
  function JobUpserts(jobs: seq<Job>, userId: int, embed: (nat, string) -> Option<Vector>): seq<Record> {
    Upserts(jobs, JobRowId, FormatJobContext, JobDocument, userId, embed)
  }

  /** The upserts of `load_profiles_into_rag`. */
  function ProfileUpserts(profiles: seq<Profile>, userId: int, embed: (nat, string) -> Option<Vector>): seq<Record> {
    Upserts(profiles, ProfileRowId, FormatProfileContext, ProfileDocument, userId, embed)
  }

  /** The table after the upserts `recs`, the i-th taking effect when `accepts(i)`. */
  function ApplyUpserts(rows: map<string, Record>, recs: seq<Record>, accepts: nat -> bool): (table: map<string, Record>)
    ensures rows.Keys <= table.Keys
    decreases |recs|
  {
    if recs == [] then rows
    else
      var n := |recs| - 1;
      var before := ApplyUpserts(rows, recs[..n], accepts);
      if accepts(n) then before[recs[n].id := recs[n]] else before
  }

  /** The rows after the upserts are the old ones and those of the accepted upserts: nothing is deleted. */
  lemma {:induction false} ApplyUpsertsKeys(rows: map<string, Record>, recs: seq<Record>, accepts: nat -> bool)
    ensures ApplyUpserts(rows, recs, accepts).Keys == rows.Keys + set i | 0 <= i < |recs| && accepts(i) :: recs[i].id
    decreases |recs|
  {
    if recs != [] {
      var n := |recs| - 1;
      var init := recs[..n];
      ApplyUpsertsKeys(rows, init, accepts);
      var written := set i | 0 <= i < |recs| && accepts(i) :: recs[i].id;
      var writtenBefore := set i | 0 <= i < n && accepts(i) :: init[i].id;
      assert written == writtenBefore + (if accepts(n) then {recs[n].id} else {});
    }
  }

  /** The i-th upsert is accepted and no later accepted upsert writes the same id. */
  predicate LatestAccepted(recs: seq<Record>, accepts: nat -> bool, i: int) {
    && 0 <= i < |recs| && accepts(i)
    && forall j :: i < j < |recs| && accepts(j) ==> recs[j].id != recs[i].id
  }

  /**
   * Upsert semantics: a row holds the latest accepted record with its id;
   * an id no accepted upsert wrote keeps what the table had. Rejected
   * upserts leave no trace.
   */
  lemma {:induction false} ApplyUpsertsRows(rows: map<string, Record>, recs: seq<Record>, accepts: nat -> bool)
    ensures forall i :: LatestAccepted(recs, accepts, i) ==>
              recs[i].id in ApplyUpserts(rows, recs, accepts) && ApplyUpserts(rows, recs, accepts)[recs[i].id] == recs[i]
    ensures forall id :: (forall i :: 0 <= i < |recs| && accepts(i) ==> recs[i].id != id) ==>
              (id in ApplyUpserts(rows, recs, accepts) <==> id in rows)
              && (id in rows ==> ApplyUpserts(rows, recs, accepts)[id] == rows[id])
    decreases |recs|
  {
    if recs != [] {
      var n := |recs| - 1;
      var init := recs[..n];
      ApplyUpsertsRows(rows, init, accepts);
      var before := ApplyUpserts(rows, init, accepts);
      var after := ApplyUpserts(rows, recs, accepts);
      assert after == if accepts(n) then before[recs[n].id := recs[n]] else before;
      forall i | LatestAccepted(recs, accepts, i)
        ensures recs[i].id in after && after[recs[i].id] == recs[i]
      {
        if i < n {
          assert LatestAccepted(init, accepts, i);
        }
      }
      forall id | forall i :: 0 <= i < |recs| && accepts(i) ==> recs[i].id != id
        ensures (id in after <==> id in rows) && (id in rows ==> after[id] == rows[id])
      {
        assert forall i :: 0 <= i < |init| && accepts(i) ==> init[i].id != id;
      }
    }
  }

  /** When every upsert is accepted and no two share an id, each record ends up as its row. */
  lemma AllAcceptedDistinctStored(rows: map<string, Record>, recs: seq<Record>, accepts: nat -> bool)
    requires forall i :: 0 <= i < |recs| ==> accepts(i)
    requires forall i, j :: 0 <= i < j < |recs| ==> recs[i].id != recs[j].id
    ensures forall i :: 0 <= i < |recs| ==>
              recs[i].id in ApplyUpserts(rows, recs, accepts) && ApplyUpserts(rows, recs, accepts)[recs[i].id] == recs[i]
  {
    ApplyUpsertsRows(rows, recs, accepts);
    assert forall i :: 0 <= i < |recs| ==> LatestAccepted(recs, accepts, i);
  }

  /**
   * When every embedding succeeds, every upsert is accepted and the items'
   * ids are pairwise different, each item's text ends up stored under its id.
   */
  lemma DistinctIdsAllStored<T>(rows: map<string, Record>, items: seq<T>, rowId: (T, nat) -> string,
                                render: T -> string, docType: DocumentType, userId: int,
                                embed: (nat, string) -> Option<Vector>, accepts: nat -> bool)
    requires forall i :: 0 <= i < |items| ==> embed(i, render(items[i])).Some? && accepts(i)
    requires forall i, j :: 0 <= i < j < |items| ==> rowId(items[i], i) != rowId(items[j], j)
    ensures var table := ApplyUpserts(rows, Upserts(items, rowId, render, docType, userId, embed), accepts);
            forall i :: 0 <= i < |items| ==>
              rowId(items[i], i) in table && table[rowId(items[i], i)].context == render(items[i])
  {
    UpsertsOnePerItem(items, rowId, render, docType, userId, embed);
    AllAcceptedDistinctStored(rows, Upserts(items, rowId, render, docType, userId, embed), accepts);
  }

  /**
   * Jobs without an `id` never overwrite one another: when every embedding
   * succeeds and every upsert is accepted, each job's text is stored under
   * `job_<position>`.
   */
  lemma JobsWithoutIdAllStored(rows: map<string, Record>, jobs: seq<Job>, userId: int,
                               embed: (nat, string) -> Option<Vector>, accepts: nat -> bool)
    requires forall i :: 0 <= i < |jobs| ==> jobs[i].id.None? && embed(i, FormatJobContext(jobs[i])).Some? && accepts(i)
    ensures var table := ApplyUpserts(rows, JobUpserts(jobs, userId, embed), accepts);
            forall i :: 0 <= i < |jobs| ==>
              JobRowId(jobs[i], i) in table && table[JobRowId(jobs[i], i)].context == FormatJobContext(jobs[i])
  {
    forall i, j | 0 <= i < j < |jobs| ensures JobRowId(jobs[i], i) != JobRowId(jobs[j], j) {
      JobRowIdsDistinct(jobs[i], i, jobs[j], j);
    }
    DistinctIdsAllStored(rows, jobs, JobRowId, FormatJobContext, JobDocument, userId, embed, accepts);
  }

  // ---------------------------------------------------------------------------
  // The table and the two loaders

  /** The `rag_content` table: its rows by id, and every upsert sent to it, in order. */
  class RagTable {
    var rows: map<string, Record>
    var attempts: seq<Record>

    constructor (rows: map<string, Record>)
      ensures this.rows == rows && attempts == []
    {
      this.rows := rows;
      attempts := [];
    }

    /** One `upsert(data).execute()`; `accepted` is the store's answer, a rejection changing no row. */
    method Upsert(rec: Record, accepted: bool)
      modifies this
      ensures attempts == old(attempts) + [rec]
      ensures rows == if accepted then old(rows)[rec.id := rec] else old(rows)
    {
      attempts := attempts + [rec];
      if accepted {
        rows := rows[rec.id := rec];
      }
    }
  }

  /** How a loader run ends: all items done, or the embedding call raised on item `index`. */
  datatype LoadOutcome = Completed | EmbeddingFailed(index: nat)

  /**
   * The loop both loaders run: for each item in order, build its id and text,
   * embed the text (a failure there ends the run) and upsert the record; a
   * rejected upsert is reported and the loop goes on.
   */
  method LoadIntoRag<T>(table: RagTable, items: seq<T>, rowId: (T, nat) -> string, render: T -> string,
                        docType: DocumentType, userId: int, embed: (nat, string) -> Option<Vector>, accepts: nat -> bool)
    returns (outcome: LoadOutcome)
    modifies table
    ensures var recs := Upserts(items, rowId, render, docType, userId, embed);
            && table.attempts == old(table.attempts) + recs
            && table.rows == ApplyUpserts(old(table.rows), recs, accepts)
            && outcome == if |recs| == |items| then Completed else EmbeddingFailed(|recs|)
  {
    ghost var recs := Upserts(items, rowId, render, docType, userId, embed);
    ghost var contexts := Contexts(items, render);
    assert |recs| == EmbeddedCount(contexts, embed, 0);
    var i := 0;
    while i < |items|
      invariant i <= |recs|
      invariant table.attempts == old(table.attempts) + recs[..i]
      invariant table.rows == ApplyUpserts(old(table.rows), recs[..i], accepts)
    {
      var id := rowId(items[i], i);
      var context := render(items[i]);
      var embedding := embed(i, context);
      if embedding.None? {
        assert context == contexts[i] && |recs| == i;
        assert recs[..i] == recs;
        return EmbeddingFailed(i);
      }
      var data := Record(id, embedding.value, context, userId, docType);
      assert i < |recs| && data == recs[i];
      table.Upsert(data, accepts(i));
      assert recs[..i + 1][..i] == recs[..i];
      i := i + 1;
    }
    assert recs[..i] == recs;
    return Completed;
  }

  /** `load_jobs_into_rag`: the loop over jobs, each upserted with the `job` document type. */
  method LoadJobsIntoRag(table: RagTable, jobs: seq<Job>, userId: int,
                         embed: (nat, string) -> Option<Vector>, accepts: nat -> bool)
    returns (outcome: LoadOutcome)
    modifies table
    ensures var recs := JobUpserts(jobs, userId, embed);
            && table.attempts == old(table.attempts) + recs
            && table.rows == ApplyUpserts(old(table.rows), recs, accepts)
            && outcome == if |recs| == |jobs| then Completed else EmbeddingFailed(|recs|)
  {
    outcome := LoadIntoRag(table, jobs, JobRowId, FormatJobContext, JobDocument, userId, embed, accepts);
  }

  /** `load_profiles_into_rag`: the loop over profiles, each upserted with the `profile` document type. */
  method LoadProfilesIntoRag(table: RagTable, profiles: seq<Profile>, userId: int,
                             embed: (nat, string) -> Option<Vector>, accepts: nat -> bool)
    returns (outcome: LoadOutcome)
    modifies table
    ensures var recs := ProfileUpserts(profiles, userId, embed);
            && table.attempts == old(table.attempts) + recs
            && table.rows == ApplyUpserts(old(table.rows), recs, accepts)
            && outcome == if |recs| == |profiles| then Completed else EmbeddingFailed(|recs|)
  {
    outcome := LoadIntoRag(table, profiles, ProfileRowId, FormatProfileContext, ProfileDocument, userId, embed, accepts);
  }

  /**
   * When every embedding succeeds, a loader sends exactly one upsert per
   * item, in input order, each carrying the item's id and text, the text's
   * embedding, the given user and the document type.
   */
  lemma UpsertsOnePerItem<T>(items: seq<T>, rowId: (T, nat) -> string, render: T -> string,
                             docType: DocumentType, userId: int, embed: (nat, string) -> Option<Vector>)
    requires forall i :: 0 <= i < |items| ==> embed(i, render(items[i])).Some?
    ensures var recs := Upserts(items, rowId, render, docType, userId, embed);
            && |recs| == |items|
            && forall i :: 0 <= i < |items| ==>
                 recs[i] == Record(rowId(items[i], i), embed(i, render(items[i])).value, render(items[i]), userId, docType)
  {
  }

  /** `UpsertsOnePerItem` for the job loader. */
  lemma JobUpsertsOnePerJob(jobs: seq<Job>, userId: int, embed: (nat, string) -> Option<Vector>)
    requires forall i :: 0 <= i < |jobs| ==> embed(i, FormatJobContext(jobs[i])).Some?
    ensures var recs := JobUpserts(jobs, userId, embed);
            && |recs| == |jobs|
            && forall i :: 0 <= i < |jobs| ==>
                 recs[i] == JobRecord(jobs[i], i, userId, embed(i, FormatJobContext(jobs[i])).value)
  {
    UpsertsOnePerItem(jobs, JobRowId, FormatJobContext, JobDocument, userId, embed);
  }

  /** `UpsertsOnePerItem` for the profile loader. */
  lemma ProfileUpsertsOnePerProfile(profiles: seq<Profile>, userId: int, embed: (nat, string) -> Option<Vector>)
    requires forall i :: 0 <= i < |profiles| ==> embed(i, FormatProfileContext(profiles[i])).Some?
    ensures var recs := ProfileUpserts(profiles, userId, embed);
            && |recs| == |profiles|
            && forall i :: 0 <= i < |profiles| ==>
                 recs[i] == ProfileRecord(profiles[i], i, userId, embed(i, FormatProfileContext(profiles[i])).value)
  {
    UpsertsOnePerItem(profiles, ProfileRowId, FormatProfileContext, ProfileDocument, userId, embed);
  }
}
