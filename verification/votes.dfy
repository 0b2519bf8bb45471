/** Votes on crowd reports and the score they give a report
    (`CrowdReport.UpdateScore`, `PutScoreForReport` and `CrowdVote`,
    model.py:1223-1346). Each voter holds at most one vote per report, under
    the entity ID `report_id + '\x00' + voter`. */
module Votes {
  import opened Base
  import CrowdReports

  datatype VoteType = AnonymousUp | AnonymousDown | ReviewerUp | ReviewerDown

  /** A stored vote; a vote type of None has no weight (a withdrawn vote). */
  datatype Vote = Vote(reportId: string, voter: string, voteType: Option<VoteType>)

  /** The vote entities by ID. */
  type VoteStore = map<string, Vote>

  /** The change in the number of votes of type `t` when `oldVote` (if
      any) is replaced by a vote of type `newType`. */
  function Adjust(oldVote: Option<Vote>, newType: Option<VoteType>, t: VoteType): int
  {
    (if newType == Some(t) then 1 else 0) - (if oldVote.Some? && oldVote.value.voteType == Some(t) then 1 else 0)
  }

  /** `CountVotes`: the count the index gives for `t`, adjusted for the vote
      about to replace `oldVote`. `indexed` is what the index query returns; the
      index may lag behind the votes written. */
  function CountVotes(indexed: VoteType -> int, oldVote: Option<Vote>, newType: Option<VoteType>, t: VoteType): int
  {
    indexed(t) + Adjust(oldVote, newType, t)
  }

  /** The vote statistics `UpdateScore` writes onto a report. */
  datatype ScoreUpdate = ScoreUpdate(upvoteCount: int, downvoteCount: int, score: int, hidden: bool)

  /** Reviewer votes weigh 1000 times an anonymous vote. */
  const REVIEWER_WEIGHT: int := 1000

  /** A score at or below this hides the report (two anonymous downvotes). */
  const HIDE_AT: int := -2

  /** The score of a tally: up minus down, reviewers weighted. */
  function Score(up: int, down: int, reviewerUp: int, reviewerDown: int): int
  {
    up - down + REVIEWER_WEIGHT * (reviewerUp - reviewerDown)
  }

  /** The statistics `UpdateScore` computes: the counts it writes add both
      kinds of vote together, the score weighs them, and the report is hidden
      exactly when the score is at most -2. */
  function ComputeScore(indexed: VoteType -> int, oldVote: Option<Vote>, newType: Option<VoteType>): (u: ScoreUpdate)
    ensures u.score == Score(CountVotes(indexed, oldVote, newType, AnonymousUp),
                             CountVotes(indexed, oldVote, newType, AnonymousDown),
                             CountVotes(indexed, oldVote, newType, ReviewerUp),
                             CountVotes(indexed, oldVote, newType, ReviewerDown))
    ensures u.hidden <==> u.score <= HIDE_AT
    ensures u.upvoteCount == CountVotes(indexed, oldVote, newType, AnonymousUp) + CountVotes(indexed, oldVote, newType, ReviewerUp)
    ensures u.downvoteCount == CountVotes(indexed, oldVote, newType, AnonymousDown) + CountVotes(indexed, oldVote, newType, ReviewerDown)
  {
    var up := CountVotes(indexed, oldVote, newType, AnonymousUp);
    var down := CountVotes(indexed, oldVote, newType, AnonymousDown);
    var reviewerUp := CountVotes(indexed, oldVote, newType, ReviewerUp);
    var reviewerDown := CountVotes(indexed, oldVote, newType, ReviewerDown);
    var score := Score(up, down, reviewerUp, reviewerDown);
    ScoreUpdate(up + reviewerUp, down + reviewerDown, score, score <= HIDE_AT)
  }

  /** Replacing a vote by one of the same type changes no count, so the
      statistics are those of the index alone. */
  lemma SameTypeChangesNothing(indexed: VoteType -> int, oldVote: Vote, t: VoteType)
    requires oldVote.voteType == Some(t)
    ensures forall v :: CountVotes(indexed, Some(oldVote), Some(t), v) == indexed(v)
    ensures ComputeScore(indexed, Some(oldVote), Some(t)) == ComputeScore(indexed, None, None)
  {
  }

  /** A single reviewer downvote outweighs up to 998 anonymous upvotes:
      with no reviewer upvotes, such a report is hidden. */
  lemma ReviewerDownvoteHides(indexed: VoteType -> int)
    requires indexed(ReviewerUp) == 0 && indexed(ReviewerDown) >= 1
    requires 0 <= indexed(AnonymousUp) < 999 && indexed(AnonymousDown) >= 0
    ensures ComputeScore(indexed, None, None).hidden
  {
  }

  /** `PutScoreForReport`: writes the statistics onto the report if it
      exists; a missing report is left missing. */
  function PutScoreForReport(reports: map<string, CrowdReports.Report>, reportId: string, u: ScoreUpdate)
    : (r: map<string, CrowdReports.Report>)
    ensures reportId !in reports ==> r == reports
    ensures r.Keys == reports.Keys
    ensures forall k :: k in reports && k != reportId ==> r[k] == reports[k]
    ensures reportId in reports ==>
              var p := r[reportId];
              p.upvoteCount == u.upvoteCount && p.downvoteCount == u.downvoteCount
              && p.score == u.score && p.hidden == u.hidden
              && p.(upvoteCount := 0, downvoteCount := 0, score := 0, hidden := false)
                 == reports[reportId].(upvoteCount := 0, downvoteCount := 0, score := 0, hidden := false)
  {
    if reportId in reports then
      reports[reportId := reports[reportId].(upvoteCount := u.upvoteCount, downvoteCount := u.downvoteCount,
                                             score := u.score, hidden := u.hidden)]
    else reports
  }

  /** `CrowdReport.UpdateScore`. */
  function UpdateScore(reports: map<string, CrowdReports.Report>, reportId: string, indexed: VoteType -> int,
                       oldVote: Option<Vote>, newType: Option<VoteType>): map<string, CrowdReports.Report>
  {
    PutScoreForReport(reports, reportId, ComputeScore(indexed, oldVote, newType))
  }

  const NUL: char := '\0'

  /** The entity ID of `voter`'s vote on a report. */
  function VoteKey(reportId: string, voter: string): string
  {
    reportId + [NUL] + voter
  }

  /** `CrowdVote.Get`. */
  function GetVote(votes: VoteStore, reportId: string, voter: string): (r: Option<Vote>)
    ensures r.Some? <==> VoteKey(reportId, voter) in votes
    ensures r.Some? ==> r.value == votes[VoteKey(reportId, voter)]
  {
    var k := VoteKey(reportId, voter);
    if k in votes then Some(votes[k]) else None
  }

  /** The two stores `CrowdVote.Put` writes. */
  datatype Voted = Voted(votes: VoteStore, reports: map<string, CrowdReports.Report>)

  /** `CrowdVote.Put`: fetches the voter's previous vote, updates the
      report's statistics for the change, then stores the newType vote in place
      of the oldVote one. */
  function PutVote(votes: VoteStore, reports: map<string, CrowdReports.Report>, indexed: VoteType -> int,
                   reportId: string, voter: string, voteType: Option<VoteType>): (r: Voted)
    ensures r.votes == votes[VoteKey(reportId, voter) := Vote(reportId, voter, voteType)]
    ensures r.reports == UpdateScore(reports, reportId, indexed, GetVote(votes, reportId, voter), voteType)
  {
    var oldVote := GetVote(votes, reportId, voter);
    Voted(votes[VoteKey(reportId, voter) := Vote(reportId, voter, voteType)],
          UpdateScore(reports, reportId, indexed, oldVote, voteType))
  }

  /** The IDs of the votes of type `t` on a report. */
  function VotesOfType(votes: VoteStore, reportId: string, t: VoteType): set<string>
  {
    set k | k in votes && votes[k].reportId == reportId && votes[k].voteType == Some(t)
  }

  /** How many stored votes on the report have type `t`. */
  function TrueCount(votes: VoteStore, reportId: string, t: VoteType): nat
  {
    |VotesOfType(votes, reportId, t)|
  }

  /** Every vote sits under the ID built from its report and voter, and no
      report ID contains NUL. */
  predicate WellKeyed(votes: VoteStore)
  {
    forall k :: k in votes ==> !HasChar(votes[k].reportId, NUL) && k == VoteKey(votes[k].reportId, votes[k].voter)
  }

  /** Storing vote `v` under `key` replaces whatever was there: the votes
      of type `t` are the others plus `key` when `v` is of that type. */
  lemma StoreVoteOfType(votes: VoteStore, key: string, v: Vote, reportId: string, t: VoteType)
    ensures VotesOfType(votes[key := v], reportId, t)
            == (VotesOfType(votes, reportId, t) - {key})
               + (if v.reportId == reportId && v.voteType == Some(t) then {key} else {})
  {
  }

  /** Hence the count moves by at most one in each direction. */
  lemma StoreVoteCount(votes: VoteStore, key: string, v: Vote, reportId: string, t: VoteType)
    ensures TrueCount(votes[key := v], reportId, t)
            == TrueCount(votes, reportId, t)
               + (if v.reportId == reportId && v.voteType == Some(t) then 1 else 0)
               - (if key in VotesOfType(votes, reportId, t) then 1 else 0)
  {
    StoreVoteOfType(votes, key, v, reportId, t);
    var before := VotesOfType(votes, reportId, t);
    var rest := before - {key};
    var added: set<string> := if v.reportId == reportId && v.voteType == Some(t) then {key} else {};
    assert rest !! added;
    if key in before {
      assert before == rest + {key};
    } else {
      assert before == rest;
    }
  }

  /** If the index is up to date when a vote is cast, the adjusted counts are
      exactly the counts of the votes stored afterwards: the vote replaced is
      subtracted once and the new one added once. */
  lemma PutVoteCountsExactly(votes: VoteStore, reports: map<string, CrowdReports.Report>, indexed: VoteType -> int,
                             reportId: string, voter: string, voteType: Option<VoteType>, t: VoteType)
    requires WellKeyed(votes) && !HasChar(reportId, NUL)
    requires indexed(t) == TrueCount(votes, reportId, t)
    ensures CountVotes(indexed, GetVote(votes, reportId, voter), voteType, t)
            == TrueCount(PutVote(votes, reports, indexed, reportId, voter, voteType).votes, reportId, t)
  {
    var key := VoteKey(reportId, voter);
    if key in votes {
      JoinInjective(votes[key].reportId, votes[key].voter, reportId, voter, NUL);
    }
    StoreVoteCount(votes, key, Vote(reportId, voter, voteType), reportId, t);
  }

  /** `PutVote` keeps the vote store well keyed. */
  lemma PutVoteKeepsWellKeyed(votes: VoteStore, reports: map<string, CrowdReports.Report>, indexed: VoteType -> int,
                              reportId: string, voter: string, voteType: Option<VoteType>)
    requires WellKeyed(votes) && !HasChar(reportId, NUL)
    ensures WellKeyed(PutVote(votes, reports, indexed, reportId, voter, voteType).votes)
  {
  }

  /** Consequently a report's written statistics, for an up-to-date index,
      are those of the stored votes. */
  lemma PutVoteScoreExact(votes: VoteStore, reports: map<string, CrowdReports.Report>, indexed: VoteType -> int,
                          reportId: string, voter: string, voteType: Option<VoteType>)
    requires WellKeyed(votes) && !HasChar(reportId, NUL) && reportId in reports
    requires forall t :: indexed(t) == TrueCount(votes, reportId, t)
    ensures var after := PutVote(votes, reports, indexed, reportId, voter, voteType);
            var p := after.reports[reportId];
            p.upvoteCount == TrueCount(after.votes, reportId, AnonymousUp) + TrueCount(after.votes, reportId, ReviewerUp)
            && p.downvoteCount == TrueCount(after.votes, reportId, AnonymousDown) + TrueCount(after.votes, reportId, ReviewerDown)
            && p.score == Score(TrueCount(after.votes, reportId, AnonymousUp), TrueCount(after.votes, reportId, AnonymousDown),
                                TrueCount(after.votes, reportId, ReviewerUp), TrueCount(after.votes, reportId, ReviewerDown))
            && (p.hidden <==> p.score <= HIDE_AT)
  {
    PutVoteCountsExactly(votes, reports, indexed, reportId, voter, voteType, AnonymousUp);
    PutVoteCountsExactly(votes, reports, indexed, reportId, voter, voteType, AnonymousDown);
    PutVoteCountsExactly(votes, reports, indexed, reportId, voter, voteType, ReviewerUp);
    PutVoteCountsExactly(votes, reports, indexed, reportId, voter, voteType, ReviewerDown);
  }
}
