/**
 * The mentorship page (`pages/Mentorship.tsx`): the expertise list built
 * from the mentors' skills, the mentor search and expertise filter, and the
 * active mentorships panel. The mentor list and the requests come from
 * server methods that are not part of this model; they are inputs here.
 */
module Mentorship {
  import opened Wrappers
  import opened Types
  import Text
  import Seqs

  function MentoringSkillLists(mentors: seq<User>): (r: seq<seq<string>>)
    ensures |r| == |mentors| && forall i :: 0 <= i < |mentors| ==> r[i] == mentors[i].mentoringSkills
  {
    seq(|mentors|, i requires 0 <= i < |mentors| => mentors[i].mentoringSkills)
  }

  /**
   * `allSkills`: the mentors' skills through a `Set`, so each once, in the
   * order they first appear.
   */
  function AllSkills(mentors: seq<User>): (r: seq<string>)
    ensures Seqs.Distinct(r)
    ensures Seqs.Subseq(r, Seqs.Flatten(MentoringSkillLists(mentors)))
    ensures forall s :: s in r <==> exists m :: m in mentors && s in m.mentoringSkills
    ensures forall i, j :: 0 <= i < j < |r| ==>
      Seqs.IndexOf(Seqs.Flatten(MentoringSkillLists(mentors)), r[i]) < Seqs.IndexOf(Seqs.Flatten(MentoringSkillLists(mentors)), r[j])
  {
    var flat := Seqs.Flatten(MentoringSkillLists(mentors));
    assert forall s :: s in flat <==> exists m :: m in mentors && s in m.mentoringSkills by {
      forall s
        ensures s in flat <==> exists m :: m in mentors && s in m.mentoringSkills
      {
        if exists m :: m in mentors && s in m.mentoringSkills {
          var m :| m in mentors && s in m.mentoringSkills;
          var i :| 0 <= i < |mentors| && mentors[i] == m;
          assert s in MentoringSkillLists(mentors)[i];
        }
      }
    }
    Seqs.Dedup(flat)
  }

  /** Skills already distinct across the mentors come out exactly as listed. */
  lemma AllSkillsKeepsDistinct(mentors: seq<User>)
    requires Seqs.Distinct(Seqs.Flatten(MentoringSkillLists(mentors)))
    ensures AllSkills(mentors) == Seqs.Flatten(MentoringSkillLists(mentors))
  {
    Seqs.DedupDistinct(Seqs.Flatten(MentoringSkillLists(mentors)));
  }

  /** The first skill of the first mentor who lists any heads the expertise list. */
  lemma FirstSkillLeads(mentors: seq<User>)
    requires Seqs.Flatten(MentoringSkillLists(mentors)) != []
    ensures AllSkills(mentors) != [] && AllSkills(mentors)[0] == Seqs.Flatten(MentoringSkillLists(mentors))[0]
  {
    var flat := Seqs.Flatten(MentoringSkillLists(mentors));
    var r := AllSkills(mentors);
    assert flat[0] in Seqs.Dedup(flat);
    var j :| 0 <= j < |r| && r[j] == flat[0];
    assert j == 0;
  }

  /** The search box: the lower-cased term in the lower-cased name or department. */
  predicate MatchesSearch(m: User, term: string) {
    Text.Contains(Text.Lower(m.name), Text.Lower(term)) || Text.Contains(Text.Lower(m.department), Text.Lower(term))
  }

  /** The expertise box: a non-empty choice must be one of the mentor's skills. */
  predicate MatchesSkill(m: User, selected: string) {
    !Text.Truthy(selected) || selected in m.mentoringSkills
  }

  predicate NotMe(m: User, user: Option<User>) {
    user.None? || m.id != user.value.id
  }

  /** `filteredMentors`: the mentors passing search and expertise, never the signed-in user, in list order. */
  function FilteredMentors(mentors: seq<User>, term: string, selected: string, user: Option<User>): (r: seq<User>)
    ensures Seqs.Subseq(r, mentors)
    ensures forall m :: m in r <==> m in mentors && MatchesSearch(m, term) && MatchesSkill(m, selected) && NotMe(m, user)
    ensures user.Some? ==> forall m :: m in r ==> m.id != user.value.id
    ensures Text.Truthy(selected) ==> forall m :: m in r ==> selected in m.mentoringSkills
    ensures forall m :: multiset(r)[m] == (if MatchesSearch(m, term) && MatchesSkill(m, selected) && NotMe(m, user) then multiset(mentors)[m] else 0)
  {
    var keep := m => MatchesSearch(m, term) && MatchesSkill(m, selected) && NotMe(m, user);
    Seqs.FilterSubseq(mentors, keep);
    Seqs.Filter(mentors, keep)
  }

  /** Signed out, with empty boxes, every mentor is listed. */
  lemma NoFilterListsAll(mentors: seq<User>)
    ensures FilteredMentors(mentors, "", "", None) == mentors
  {
    forall m | m in mentors
      ensures MatchesSearch(m, "")
    {
      Text.ContainsEmpty(Text.Lower(m.name));
    }
    Seqs.FilterAll(mentors, m => MatchesSearch(m, "") && MatchesSkill(m, "") && NotMe(m, None));
  }

  /** The active mentorships panel: the user's outgoing requests that were accepted, in order. */
  function ActiveMentorships(outgoing: seq<MentorshipRequest>): (r: seq<MentorshipRequest>)
    ensures Seqs.Subseq(r, outgoing)
    ensures forall q :: q in r <==> q in outgoing && q.status == Accepted
    ensures forall q :: multiset(r)[q] == if q.status == Accepted then multiset(outgoing)[q] else 0
  {
    Seqs.FilterSubseq(outgoing, (q: MentorshipRequest) => q.status == Accepted);
    Seqs.Filter(outgoing, (q: MentorshipRequest) => q.status == Accepted)
  }

  /** The panel's empty message shows exactly when no outgoing request was accepted. */
  lemma NoneActiveIff(outgoing: seq<MentorshipRequest>)
    ensures ActiveMentorships(outgoing) == [] <==> forall q :: q in outgoing ==> q.status != Accepted
  {
    var r := ActiveMentorships(outgoing);
    if r != [] {
      assert r[0] in r;
    }
  }
}
