/**
 * The review-approval gate: the pull request's requested reviewers are
 * compared with the reviewers who have submitted reviews. The run fails
 * (exit code 1) when a requested reviewer has not reviewed at all. Once every
 * requested reviewer has reviewed, the final test looks at the reviewers'
 * logins rather than their approvals, and both of its branches exit 0, so
 * approvals never decide the exit code.
 */
module ReviewApproval {
  import opened Process

  /** A user object of the API; only its login is read. */
  datatype User = User(login: string)

  /** One entry of the reviews response, which the API lists in chronological order. */
  datatype Review = Review(user: User, state: string)

  const REVIEW_APPROVED: string := "APPROVED"
  const REQUESTED_BAD_RESPONSE_MESSAGE: string := "Bad response from GitHub requested reviewers API."
  const REVIEWS_BAD_RESPONSE_MESSAGE: string := "Bad response from GitHub reviews API."

  function NonApprovingLine(login: string): string
  {
    "Non-approving review by reviewer " + login + "."
  }

  function NotReviewedLine(login: string): string
  {
    "Requested reviewer " + login + " has not reviewed."
  }

  /** `get_requested_reviewers` on an already fetched response: the logins of `users`, in order. */
  function GetRequestedReviewers(resp: Response<seq<User>>): (r: Fetched<seq<string>>)
    ensures resp.status != HTTP_OK ==> r == BadResponse(REQUESTED_BAD_RESPONSE_MESSAGE)
    ensures resp.status == HTTP_OK ==>
      r.Ok? && |r.value| == |resp.body| && forall i :: 0 <= i < |r.value| ==> r.value[i] == resp.body[i].login
  {
    match Expect200(resp, REQUESTED_BAD_RESPONSE_MESSAGE)
    case BadResponse(message) => BadResponse(message)
    case Ok(users) => Ok(seq(|users|, i requires 0 <= i < |users| => users[i].login))
  }

  /** The set of logins that have submitted at least one review. */
  function ReviewerLogins(reviews: seq<Review>): set<string>
  {
    set r | r in reviews :: r.user.login
  }

  /**
   * The `reviews_by_reviewer` dictionary after the first `|reviews|` reviews:
   * each review overwrites its author's entry with whether its state is
   * exactly "APPROVED". Its keys are exactly the logins that reviewed.
   */
  function ApprovalsFold(reviews: seq<Review>): (m: map<string, bool>)
    ensures m.Keys == ReviewerLogins(reviews)
  {
    if |reviews| == 0 then map[]
    else
      var review := reviews[|reviews| - 1];
      assert reviews == reviews[..|reviews| - 1] + [review];
      ApprovalsFold(reviews[..|reviews| - 1])[review.user.login := review.state == REVIEW_APPROVED]
  }

  /**
   * The dictionary's key order: each login where it first reviewed, since
   * overwriting an existing key keeps its position. It lists every reviewer once.
   */
  function Reviewers(reviews: seq<Review>): (order: seq<string>)
    ensures forall a, b :: 0 <= a < b < |order| ==> order[a] != order[b]
    ensures forall l :: l in order <==> l in ReviewerLogins(reviews)
  {
    if |reviews| == 0 then []
    else
      var order := Reviewers(reviews[..|reviews| - 1]);
      var login := reviews[|reviews| - 1].user.login;
      assert reviews == reviews[..|reviews| - 1] + [reviews[|reviews| - 1]];
      if login in order then order else order + [login]
  }

  /** The lines printed while walking `order` over the final dictionary. */
  function NonApprovingLog(order: seq<string>, approvals: map<string, bool>): seq<string>
    requires forall k :: k in order ==> k in approvals
  {
    if |order| == 0 then []
    else
      var login := order[|order| - 1];
      NonApprovingLog(order[..|order| - 1], approvals) +
        (if !approvals[login] then [NonApprovingLine(login)] else [])
  }

  /** The lines printed while walking the requested reviewers. */
  function NotReviewedLog(requested: seq<string>, approvals: map<string, bool>): seq<string>
  {
    if |requested| == 0 then []
    else
      var login := requested[|requested| - 1];
      NotReviewedLog(requested[..|requested| - 1], approvals) +
        (if login !in approvals then [NotReviewedLine(login)] else [])
  }

  /** Python's `all(d)` iterates the keys: true iff no login is the (falsy) empty string. */
  predicate AllKeysTruthy(approvals: map<string, bool>)
  {
    forall login :: login in approvals ==> login != ""
  }

  /**
   * The final `all(reviewer_approvals)` test fails exactly when some review
   * was submitted under the empty login; the approval values play no part.
   */
  lemma AllKeysTruthyIffLoginsNonEmpty(reviews: seq<Review>)
    ensures AllKeysTruthy(ApprovalsFold(reviews)) <==>
      forall i :: 0 <= i < |reviews| ==> reviews[i].user.login != ""
  {
    var approvals := ApprovalsFold(reviews);
    if !AllKeysTruthy(approvals) {
      assert "" in ReviewerLogins(reviews);
    } else {
      forall i | 0 <= i < |reviews| ensures reviews[i].user.login != "" {
        assert reviews[i].user.login in ReviewerLogins(reviews);
      }
    }
  }

  /**
   * A reviewer's entry is decided by their last review alone: it is true iff
   * that review's state is exactly "APPROVED"; earlier reviews are overwritten.
   */
  lemma {:induction false} ApprovalIsLatestReview(reviews: seq<Review>, i: int)
    requires 0 <= i < |reviews|
    requires forall j :: i < j < |reviews| ==> reviews[j].user.login != reviews[i].user.login
    ensures reviews[i].user.login in ApprovalsFold(reviews)
    ensures ApprovalsFold(reviews)[reviews[i].user.login] == (reviews[i].state == REVIEW_APPROVED)
    decreases |reviews|
  {
    var n := |reviews| - 1;
    if i < n {
      var prefix := reviews[..n];
      assert prefix[i] == reviews[i];
      ApprovalIsLatestReview(prefix, i);
    }
  }

  lemma NonApprovingLineInjective(a: string, b: string)
    requires NonApprovingLine(a) == NonApprovingLine(b)
    ensures a == b
  {
    var prefix := "Non-approving review by reviewer ";
    assert a == NonApprovingLine(a)[|prefix|..|prefix| + |a|];
  }

  lemma NotReviewedLineInjective(a: string, b: string)
    requires NotReviewedLine(a) == NotReviewedLine(b)
    ensures a == b
  {
    var prefix := "Requested reviewer ";
    assert a == NotReviewedLine(a)[|prefix|..|prefix| + |a|];
  }

  /** Over a list of distinct logins, each non-approver is logged once and each approver never. */
  lemma {:induction false} NonApprovingLogCount(order: seq<string>, approvals: map<string, bool>, login: string)
    requires forall k :: k in order ==> k in approvals
    requires forall a, b :: 0 <= a < b < |order| ==> order[a] != order[b]
    ensures multiset(NonApprovingLog(order, approvals))[NonApprovingLine(login)] ==
      if login in order && !approvals[login] then 1 else 0
    decreases |order|
  {
    if |order| > 0 {
      var n := |order| - 1;
      var prefix := order[..n];
      var last := order[n];
      assert order == prefix + [last];
      NonApprovingLogCount(prefix, approvals, login);
      var tail := if !approvals[last] then [NonApprovingLine(last)] else [];
      assert NonApprovingLog(order, approvals) == NonApprovingLog(prefix, approvals) + tail;
      assert multiset(NonApprovingLog(order, approvals)) == multiset(NonApprovingLog(prefix, approvals)) + multiset(tail);
      if last == login {
        assert login !in prefix;
      } else {
        if NonApprovingLine(last) == NonApprovingLine(login) {
          NonApprovingLineInjective(last, login);
        }
        assert multiset(tail)[NonApprovingLine(login)] == 0;
        assert login in order <==> login in prefix;
      }
    }
  }

  /**
   * "Non-approving review" is logged exactly once for each reviewer whose
   * final entry is false, and never for an approver or a non-reviewer.
   */
  lemma NonApprovingLoggedOnce(reviews: seq<Review>, login: string)
    ensures multiset(NonApprovingLog(Reviewers(reviews), ApprovalsFold(reviews)))[NonApprovingLine(login)] ==
      if login in ApprovalsFold(reviews) && !ApprovalsFold(reviews)[login] then 1 else 0
  {
    NonApprovingLogCount(Reviewers(reviews), ApprovalsFold(reviews), login);
  }

  /**
   * "has not reviewed" is logged once per listing of a requested reviewer who
   * has no entry, and never for one who reviewed.
   */
  lemma {:induction false} NotReviewedLogCount(requested: seq<string>, approvals: map<string, bool>, login: string)
    ensures multiset(NotReviewedLog(requested, approvals))[NotReviewedLine(login)] ==
      if login in approvals then 0 else multiset(requested)[login]
    decreases |requested|
  {
    if |requested| > 0 {
      var n := |requested| - 1;
      var prefix := requested[..n];
      var last := requested[n];
      assert requested == prefix + [last];
      assert multiset(requested) == multiset(prefix) + multiset([last]);
      NotReviewedLogCount(prefix, approvals, login);
      var tail := if last !in approvals then [NotReviewedLine(last)] else [];
      assert NotReviewedLog(requested, approvals) == NotReviewedLog(prefix, approvals) + tail;
      assert multiset(NotReviewedLog(requested, approvals)) ==
        multiset(NotReviewedLog(prefix, approvals)) + multiset(tail);
      if last != login {
        if NotReviewedLine(last) == NotReviewedLine(login) {
          NotReviewedLineInjective(last, login);
        }
        assert multiset(tail)[NotReviewedLine(login)] == 0;
      }
    }
  }

  /**
   * `get_reviewer_approvals` on an already fetched response: the folding loop
   * over the reviews, then the logging loop over the dictionary's items.
   */
  method GetReviewerApprovals(resp: Response<seq<Review>>)
    returns (approvals: Fetched<map<string, bool>>, log: seq<string>)
    ensures resp.status != HTTP_OK ==> approvals == BadResponse(REVIEWS_BAD_RESPONSE_MESSAGE) && log == []
    ensures resp.status == HTTP_OK ==> approvals == Ok(ApprovalsFold(resp.body))
    ensures resp.status == HTTP_OK ==> log == NonApprovingLog(Reviewers(resp.body), ApprovalsFold(resp.body))
  {
    if resp.status != HTTP_OK {
      return BadResponse(REVIEWS_BAD_RESPONSE_MESSAGE), [];
    }
    var reviews := resp.body;
    var reviewsByReviewer: map<string, bool> := map[];
    var order: seq<string> := [];
    for k := 0 to |reviews|
      invariant reviewsByReviewer == ApprovalsFold(reviews[..k])
      invariant order == Reviewers(reviews[..k])
    {
      assert reviews[..k + 1][..k] == reviews[..k];
      var approved := reviews[k].state == REVIEW_APPROVED;
      var reviewer := reviews[k].user.login;
      assert reviewer in reviewsByReviewer <==> reviewer in order;
      if reviewer !in reviewsByReviewer {
        order := order + [reviewer];
      }
      reviewsByReviewer := reviewsByReviewer[reviewer := approved];
    }
    assert reviews[..|reviews|] == reviews;
    log := LogNonApprovingReviewers(order, reviewsByReviewer);
    approvals := Ok(reviewsByReviewer);
  }

  /** The second loop of `get_reviewer_approvals`: walk the dictionary's items and log non-approvers. */
  method LogNonApprovingReviewers(order: seq<string>, approvals: map<string, bool>) returns (log: seq<string>)
    requires forall k :: k in order ==> k in approvals
    ensures log == NonApprovingLog(order, approvals)
  {
    log := [];
    for k := 0 to |order|
      invariant log == NonApprovingLog(order[..k], approvals)
    {
      assert order[..k + 1][..k] == order[..k];
      if !approvals[order[k]] {
        log := log + [NonApprovingLine(order[k])];
      }
    }
    assert order[..|order|] == order;
  }

  /**
   * The end of the script: log every requested reviewer without a review and
   * exit 1 if there was one; otherwise test `all(reviewer_approvals)`, whose
   * two outcomes both exit 0.
   */
  method RequestedReviewersGate(requested: seq<string>, approvals: map<string, bool>) returns (o: Outcome)
    ensures o.Exit? && (o.code == 0 || o.code == 1)
    ensures o.code == 1 <==> exists i :: 0 <= i < |requested| && requested[i] !in approvals
    ensures o.log == NotReviewedLog(requested, approvals)
  {
    var allRequestedReviewersHaveReviewed := true;
    var log: seq<string> := [];
    for k := 0 to |requested|
      invariant log == NotReviewedLog(requested[..k], approvals)
      invariant allRequestedReviewersHaveReviewed <==> forall i :: 0 <= i < k ==> requested[i] in approvals
    {
      assert requested[..k + 1][..k] == requested[..k];
      if requested[k] !in approvals {
        log := log + [NotReviewedLine(requested[k])];
        allRequestedReviewersHaveReviewed := false;
      }
    }
    assert requested[..|requested|] == requested;
    if !allRequestedReviewersHaveReviewed {
      return Exit(1, log);
    }
    if !AllKeysTruthy(approvals) {
      return Exit(0, log);
    }
    return Exit(0, log);
  }

  /**
   * The script's run. The exit code depends only on which logins reviewed,
   * never on the review states: it is 1 iff a requested reviewer never reviewed.
   */
  method CheckReviewApproval(requestedResp: Response<seq<User>>, reviewsResp: Response<seq<Review>>)
    returns (o: Outcome)
    ensures requestedResp.status != HTTP_OK ==> o == AssertionFailed(REQUESTED_BAD_RESPONSE_MESSAGE)
    ensures requestedResp.status == HTTP_OK && reviewsResp.status != HTTP_OK ==>
      o == AssertionFailed(REVIEWS_BAD_RESPONSE_MESSAGE)
    ensures requestedResp.status == HTTP_OK && reviewsResp.status == HTTP_OK ==>
      o.Exit? && (o.code == 0 || o.code == 1) &&
      (o.code == 1 <==> exists i :: 0 <= i < |requestedResp.body| &&
                          requestedResp.body[i].login !in ReviewerLogins(reviewsResp.body))
    ensures requestedResp.status == HTTP_OK && reviewsResp.status == HTTP_OK ==>
      o.log == NonApprovingLog(Reviewers(reviewsResp.body), ApprovalsFold(reviewsResp.body)) +
               NotReviewedLog(GetRequestedReviewers(requestedResp).value, ApprovalsFold(reviewsResp.body))
  {
    var requested := GetRequestedReviewers(requestedResp);
    if requested.BadResponse? {
      return AssertionFailed(requested.message);
    }
    var approvals, approvalsLog := GetReviewerApprovals(reviewsResp);
    if approvals.BadResponse? {
      return AssertionFailed(approvals.message);
    }
    var gate := RequestedReviewersGate(requested.value, approvals.value);
    o := Exit(gate.code, approvalsLog + gate.log);
  }

  /** alice commented then approved, bob requested changes: alice approves, bob does not. */
  lemma LastReviewWinsScenario()
    ensures ApprovalsFold([Review(User("alice"), "COMMENTED"), Review(User("alice"), "APPROVED"),
                           Review(User("bob"), "CHANGES_REQUESTED")])
      == map["alice" := true, "bob" := false]
  {
    var reviews := [Review(User("alice"), "COMMENTED"), Review(User("alice"), "APPROVED"),
                    Review(User("bob"), "CHANGES_REQUESTED")];
    assert reviews[..2][..1] == [reviews[0]];
    assert [reviews[0]][..0] == [];
    assert reviews[..2] == [reviews[0], reviews[1]];
    assert "CHANGES_REQUESTED" != REVIEW_APPROVED;
  }

  /** carol is requested but only dave reviewed: carol is reported and the gate fails. */
  lemma MissingReviewerScenario()
    ensures "carol" !in ApprovalsFold([Review(User("dave"), "APPROVED")])
    ensures NotReviewedLog(["carol"], ApprovalsFold([Review(User("dave"), "APPROVED")]))
      == ["Requested reviewer carol has not reviewed."]
  {
    assert ReviewerLogins([Review(User("dave"), "APPROVED")]) == {"dave"};
    assert "carol" != "dave";
    assert ["carol"][..0] == [];
    assert "Requested reviewer " + "carol" == "Requested reviewer carol";
    assert "Requested reviewer carol" + " has not reviewed." == "Requested reviewer carol has not reviewed.";
  }

  /** carol is the only reviewer and approved: her entry is true. */
  lemma SoleApprovalScenario()
    ensures ApprovalsFold([Review(User("carol"), "APPROVED")]) == map["carol" := true]
    ensures Reviewers([Review(User("carol"), "APPROVED")]) == ["carol"]
  {
    var reviews := [Review(User("carol"), "APPROVED")];
    assert reviews[..0] == [];
  }

  /** carol is requested and approved, no one else reviewed: nothing is logged and the gate passes. */
  lemma ApprovedReviewerScenario()
    ensures NonApprovingLog(Reviewers([Review(User("carol"), "APPROVED")]),
                            ApprovalsFold([Review(User("carol"), "APPROVED")])) == []
    ensures NotReviewedLog(["carol"], ApprovalsFold([Review(User("carol"), "APPROVED")])) == []
  {
    SoleApprovalScenario();
    var approvals := map["carol" := true];
    assert ["carol"][..0] == [];
    assert NonApprovingLog(["carol"], approvals) == NonApprovingLog([], approvals) + [];
    assert NotReviewedLog(["carol"], approvals) == NotReviewedLog([], approvals) + [];
  }
}
