/**
 * The job board page (`pages/Jobs.tsx`): the search and tab filter, the
 * requirements field parser of the post form, posting a job, and the apply
 * button's guards. The application itself goes to a server method that is
 * not part of this model; its success or failure is a parameter.
 */
module Jobs {
  import opened Wrappers
  import opened Types
  import Text
  import Seqs
  import Db

  datatype Tab = Browse | Applied

  /** The search box: the lower-cased term occurs in the lower-cased title or company. */
  predicate MatchesSearch(j: Job, term: string) {
    Text.Contains(Text.Lower(j.title), Text.Lower(term))
    || Text.Contains(Text.Lower(j.company), Text.Lower(term))
  }

  predicate Keep(j: Job, term: string, tab: Tab, applied: set<Id>) {
    MatchesSearch(j, term) && (tab == Applied ==> j.id in applied)
  }

  /** `filteredJobs`: the jobs that match the search and, on the applied tab, were applied to, in list order. */
  function FilteredJobs(jobs: seq<Job>, term: string, tab: Tab, applied: set<Id>): (r: seq<Job>)
    ensures Seqs.Subseq(r, jobs)
    ensures forall j :: j in r <==> j in jobs && MatchesSearch(j, term) && (tab == Applied ==> j.id in applied)
    ensures forall j :: multiset(r)[j] == if Keep(j, term, tab, applied) then multiset(jobs)[j] else 0
  {
    Seqs.FilterSubseq(jobs, j => Keep(j, term, tab, applied));
    Seqs.Filter(jobs, j => Keep(j, term, tab, applied))
  }

  /** With an empty search box the browse tab lists every job, in order. */
  lemma EmptySearchListsAll(jobs: seq<Job>, applied: set<Id>)
    ensures FilteredJobs(jobs, "", Browse, applied) == jobs
  {
    forall j | j in jobs
      ensures Keep(j, "", Browse, applied)
    {
      Text.ContainsEmpty(Text.Lower(j.title));
    }
    Seqs.FilterAll(jobs, j => Keep(j, "", Browse, applied));
  }

  /** The applied tab shows the part of the browse tab's list that was applied to. */
  lemma AppliedTabWithinBrowse(jobs: seq<Job>, term: string, applied: set<Id>)
    ensures forall j :: j in FilteredJobs(jobs, term, Applied, applied) <==>
      j in FilteredJobs(jobs, term, Browse, applied) && j.id in applied
  {
  }

  // ---------------------------------------------------------------- requirements

  predicate IsRequirementSep(c: char) {
    c == '\n' || c == ','
  }

  /** `map(r => r.trim())`. */
  function TrimAll(pieces: seq<string>): (r: seq<string>)
    ensures |r| == |pieces|
    ensures forall i :: 0 <= i < |pieces| ==> r[i] == Text.Trim(pieces[i])
  {
    if pieces == [] then [] else [Text.Trim(pieces[0])] + TrimAll(pieces[1..])
  }

  /** `filter(r => r.length > 0)`. */
  predicate NonEmpty(q: string) {
    |q| > 0
  }

  /** The requirements field: split at new lines and commas, each piece trimmed, empty pieces dropped. */
  function Requirements(raw: string): (r: seq<string>)
    ensures forall q :: q in r ==> q != [] && !Text.IsSpace(q[0]) && !Text.IsSpace(q[|q| - 1])
    ensures forall q, i :: q in r && 0 <= i < |q| ==> !IsRequirementSep(q[i])
    ensures |r| <= Text.CountWhere(raw, IsRequirementSep) + 1
  {
    var pieces := Text.SplitWhere(raw, IsRequirementSep);
    var trimmed := TrimAll(pieces);
    RequirementsFacts(raw, pieces, trimmed);
    Seqs.Filter(trimmed, NonEmpty)
  }

  lemma RequirementsFacts(raw: string, pieces: seq<string>, trimmed: seq<string>)
    requires pieces == Text.SplitWhere(raw, IsRequirementSep)
    requires |trimmed| == |pieces| && forall i :: 0 <= i < |pieces| ==> trimmed[i] == Text.Trim(pieces[i])
    ensures |pieces| == Text.CountWhere(raw, IsRequirementSep) + 1
    ensures forall q, i :: q in trimmed && 0 <= i < |q| ==> !IsRequirementSep(q[i])
    ensures forall q :: q in trimmed && q != [] ==> !Text.IsSpace(q[0]) && !Text.IsSpace(q[|q| - 1])
  {
    Text.SplitWhereFacts(raw, IsRequirementSep);
    forall q | q in trimmed
      ensures forall i :: 0 <= i < |q| ==> !IsRequirementSep(q[i])
      ensures q != [] ==> !Text.IsSpace(q[0]) && !Text.IsSpace(q[|q| - 1])
    {
      var n :| 0 <= n < |trimmed| && trimmed[n] == q;
      assert pieces[n] in pieces;
      TrimmedPieceNoSep(pieces[n]);
    }
  }

  lemma TrimmedPieceNoSep(p: string)
    requires forall i :: 0 <= i < |p| ==> !IsRequirementSep(p[i])
    ensures forall i :: 0 <= i < |Text.Trim(p)| ==> !IsRequirementSep(Text.Trim(p)[i])
  {
    var k := Text.TrimIsInfix(p);
    forall i | 0 <= i < |Text.Trim(p)|
      ensures !IsRequirementSep(Text.Trim(p)[i])
    {
      assert Text.Trim(p)[i] == p[k + i];
    }
  }

  /** A field with one non-blank requirement and no separator gives exactly that requirement, trimmed. */
  lemma SingleRequirement(raw: string)
    requires forall i :: 0 <= i < |raw| ==> !IsRequirementSep(raw[i])
    requires !Text.IsBlank(raw)
    ensures Requirements(raw) == [Text.Trim(raw)]
  {
    NoSepSplit(raw);
    assert TrimAll([raw]) == [Text.Trim(raw)];
    assert Seqs.Filter([Text.Trim(raw)], NonEmpty) == [Text.Trim(raw)] + Seqs.Filter([], NonEmpty);
  }

  /**
   * Requirements are read piece by piece: a separator-free piece in front of
   * the first separator contributes itself, trimmed, unless it is blank, and
   * the text after the separator is read the same way.
   */
  lemma RequirementsCons(a: string, c: char, b: string)
    requires forall i :: 0 <= i < |a| ==> !IsRequirementSep(a[i])
    requires IsRequirementSep(c)
    ensures Requirements(a + [c] + b) == (if Text.IsBlank(a) then [] else [Text.Trim(a)]) + Requirements(b)
  {
    var rest := Text.SplitWhere(b, IsRequirementSep);
    Text.SplitAtSep(a, c, b, IsRequirementSep);
    assert TrimAll([a] + rest) == [Text.Trim(a)] + TrimAll(rest) by {
      assert ([a] + rest)[1..] == rest;
    }
    var t := TrimAll(rest);
    assert Seqs.Filter([Text.Trim(a)] + t, NonEmpty)
      == (if NonEmpty(Text.Trim(a)) then [Text.Trim(a)] else []) + Seqs.Filter(t, NonEmpty) by {
      assert ([Text.Trim(a)] + t)[1..] == t;
    }
  }

  /** A blank field without a separator lists no requirement. */
  lemma BlankRequirement(raw: string)
    requires forall i :: 0 <= i < |raw| ==> !IsRequirementSep(raw[i])
    requires Text.IsBlank(raw)
    ensures Requirements(raw) == []
  {
    NoSepSplit(raw);
    assert TrimAll([raw]) == [Text.Trim(raw)];
    assert Seqs.Filter([Text.Trim(raw)], NonEmpty) == [] + Seqs.Filter([], NonEmpty);
  }

  /** Text without a separator splits into itself alone. */
  lemma {:induction false} NoSepSplit(s: string)
    requires forall i :: 0 <= i < |s| ==> !IsRequirementSep(s[i])
    ensures Text.SplitWhere(s, IsRequirementSep) == [s]
    decreases |s|
  {
    if s != [] {
      NoSepSplit(s[1..]);
      assert [s[0]] + s[1..] == s;
    }
  }

  // ---------------------------------------------------------------- posting

  /** The post form, every field as typed; requirements in one text field. */
  datatype JobForm = JobForm(
    title: string,
    company: string,
    location: string,
    kind: JobType,
    salary: string,
    description: string,
    requirements: string)

  /** `user?.id || 'anonymous'`. */
  function PosterId(user: Option<User>): Id {
    if user.Some? && Text.Truthy(user.value.id) then user.value.id else "anonymous"
  }

  /**
   * `handlePostJob`: the form becomes a job at the front of the store, under
   * the poster's name and id, with its requirements parsed; every other field
   * is the form's.
   */
  function PostJob(st: Db.Store, user: Option<User>, form: JobForm, now: nat): (r: Db.Store)
    ensures |r.jobs| == |st.jobs| + 1 && r.jobs[1..] == st.jobs
    ensures r.jobs[0].id == Db.NewJobId(now) && r.jobs[0].title == form.title && r.jobs[0].company == form.company
    ensures r.jobs[0].location == form.location && r.jobs[0].kind == form.kind
    ensures r.jobs[0].salary == Some(form.salary) && r.jobs[0].description == Some(form.description)
    ensures r.jobs[0].postedBy == NameOr(user, "Anonymous")
    ensures user.Some? && Text.Truthy(user.value.id) ==> r.jobs[0].postedByUserId == Some(user.value.id)
    ensures !(user.Some? && Text.Truthy(user.value.id)) ==> r.jobs[0].postedByUserId == Some("anonymous")
    ensures r.jobs[0].requirements == Requirements(form.requirements)
    ensures r == st.(jobs := r.jobs)
  {
    var job := Job("", form.title, form.company, form.location, form.kind, NameOr(user, "Anonymous"),
                   Some(PosterId(user)), Some(form.salary), Some(form.description),
                   Requirements(form.requirements));
    Db.AddJob(st, job, now)
  }

  /** Every posted job names a poster and an owner, signed in or not. */
  lemma PostedJobNamesPoster(st: Db.Store, user: Option<User>, form: JobForm, now: nat)
    ensures var j := PostJob(st, user, form, now).jobs[0];
      j.postedBy != "" && j.postedByUserId.Some? && j.postedByUserId.value != ""
  {
    NameOrNonEmpty(user, "Anonymous");
  }

  /** Deleting a job just posted, under an id no stored job has, gives back the stored jobs. */
  lemma DeletePostedJob(st: Db.Store, user: Option<User>, form: JobForm, now: nat)
    requires forall j :: j in st.jobs ==> j.id != Db.NewJobId(now)
    ensures Db.DeleteJob(PostJob(st, user, form, now), Db.NewJobId(now)).jobs == st.jobs
  {
    var job := Job("", form.title, form.company, form.location, form.kind, NameOr(user, "Anonymous"),
                   Some(PosterId(user)), Some(form.salary), Some(form.description),
                   Requirements(form.requirements));
    Db.DeleteAddedJob(st, job, now);
  }

  // ---------------------------------------------------------------- applying

  /** After a click: the applied set, and whether the server was asked. */
  datatype ApplyResult = ApplyResult(applied: set<Id>, requested: bool)

  /**
   * `handleApply`: without a user, or for a job already applied to, nothing
   * happens and the server is not asked. Otherwise the server is asked; on
   * success the job id joins the set, on failure the set stays as it was.
   */
  function Apply(applied: set<Id>, user: Option<User>, jobId: Id, succeeded: bool): (r: ApplyResult)
    ensures r.requested <==> user.Some? && jobId !in applied
    ensures !r.requested ==> r.applied == applied
    ensures r.requested && succeeded ==> r.applied == applied + {jobId}
    ensures r.requested && !succeeded ==> r.applied == applied
    ensures applied <= r.applied
  {
    if user.None? || jobId in applied then ApplyResult(applied, false)
    else ApplyResult(if succeeded then applied + {jobId} else applied, true)
  }

  /** Applying twice asks the server once: the second click finds the job applied. */
  lemma ApplyIdempotent(applied: set<Id>, user: Option<User>, jobId: Id, s1: bool, s2: bool)
    requires s1
    ensures var first := Apply(applied, user, jobId, s1);
      Apply(first.applied, user, jobId, s2) == ApplyResult(first.applied, false)
  {
  }
}
