# merge-bot decisions in Dafny

This project models the decision logic of merge-bot's three merge-gating scripts. Each script is a pull-request check run by a CI pipeline, and it passes or fails through its process exit code:

- **check_blocking_label**: fails when the configured blocking label is one of the pull request's labels.
- **check_dependent_checks**: fails unless, for every requested check, the last run with that name in the response has a passing conclusion.
- **check_review_approval**: fails when a requested reviewer has not submitted any review.

Each HTTP response is modelled as an input value `Response(status, body)` with an already decoded body. A run of a script is a value `Outcome`:

- `Exit(code, log)` holds the exit code and the lines the script printed. Falling off the end of a script is exit code 0.
- `AssertionFailed(message)` is the uncaught `AssertionError` raised when a status is not 200. The interpreter then ends with exit status 1 and prints a traceback, so a CI gate sees the same status as `exit(1)`. The model keeps it as a separate outcome because it happens before any decision is made.

The source of each file decides its modelling style:

- The blocking-label decision is pure, so it is a function.
- The dictionary-building loops of the other two scripts are methods with `for` loops. Each method is proved equal to a recursive fold, and the lemmas characterise that fold: "last write wins", "keys are exactly …", and "logged exactly once".

Modules:

- `Process` (process.dfy): `Option`, `Response`, `Fetched` (a value or the failed status assertion) and `Outcome`.
- `PyStr` (pystr.dfy): Python's `str.split(",")` and its inverse `join`, used by the dependent-checks command line.
- `BlockingLabel` (blocking_label.dfy)
- `DependentChecks` (dependent_checks.dfy)
- `ReviewApproval` (review_approval.dfy)

Python details modelled on purpose:

- A dict keeps its keys in insertion order, and overwriting a key does not move it. The "Non-approving review" lines therefore follow each reviewer's *first* review (`Reviewers`).
- `all(reviewer_approvals)` iterates the dict's **keys**, which are logins. So it is false only when some login is the empty string (`AllKeysTruthy`). Both of its outcomes exit 0, so approval states never decide the exit code.
- A check run's `conclusion` can be JSON `null` for an unfinished run. It is modelled as `None`, never passes, and prints as `None`.
- `--blocking-label` omitted gives `None`, and `None in labels` is false. `--labels` omitted gives the default `[""]`. `--labels` given with no values gives `[]`.
- `"".split(",")` is `[""]`, not `[]`. So an empty `--checks` requests one check whose name is empty.

## Model

| member | source | states |
|---|---|---|
| `PyStr.Split` | merge_bot/check_dependent_checks.py:75-76 | splitting a comma-separated argument yields at least one piece, and no piece contains the separator |
| `PyStr.JoinSplit` | merge_bot/check_dependent_checks.py:75-76 | joining the pieces with the separator gives back the original argument |
| `PyStr.SplitJoin` | merge_bot/check_dependent_checks.py:75-76 | splitting a join of separator-free pieces gives back exactly those pieces |
| `BlockingLabel.ParsedLabels` | merge_bot/check_blocking_label.py:14-19 | `--labels` omitted yields `[""]`; otherwise the given values, possibly none |
| `BlockingLabel.CheckBlockingLabel` | merge_bot/check_blocking_label.py:24-27 | exit 1 iff a blocking label was given and some element of labels equals it exactly; "Stopping merge" is logged only then, otherwise exit 0 with no output |
| `BlockingLabel.DefaultLabelsBlockOnlyEmpty` | merge_bot/check_blocking_label.py:17-25 | with `--labels` omitted, only the empty-string blocking label blocks |
| `BlockingLabel.EmptyLabelsNeverBlock` | merge_bot/check_blocking_label.py:18-25 | `--labels` with no values never blocks |
| `BlockingLabel.OmittedBlockingLabelNeverBlocks` | merge_bot/check_blocking_label.py:9-25 | without `--blocking-label`, no list of labels blocks |
| `BlockingLabel.MatchIsExact` | merge_bot/check_blocking_label.py:25 | labels that differ only in case or by a leading space do not block |
| `BlockingLabel.BlockedScenario` | merge_bot/check_blocking_label.py:25-27 | "do-not-merge" among ["wip", "do-not-merge"] exits 1 with the stop line |
| `DependentChecks.ChecksPassedFold` | merge_bot/check_dependent_checks.py:32-44 | the dictionary's keys are exactly the requested names; runs with unrequested names add no key |
| `DependentChecks.LatestRunIsLast` | merge_bot/check_dependent_checks.py:33-44 | the latest run found for a name is the last run with that name in response order; none is found iff no run has the name |
| `DependentChecks.FoldIsLatest` | merge_bot/check_dependent_checks.py:32-44 | each requested name's flag is true iff its latest run exists and has a passing conclusion; earlier runs are overwritten and absent checks stay false |
| `DependentChecks.AllPassIffLatestPasses` | merge_bot/check_dependent_checks.py:11-46 | the result is true iff every requested name has a last matching run whose conclusion is in the passing statuses |
| `DependentChecks.MissingCheckFails` | merge_bot/check_dependent_checks.py:32-46 | a requested check absent from the response makes the result false |
| `DependentChecks.NothingRequestedPasses` | merge_bot/check_dependent_checks.py:32-46 | an empty requested list is vacuously true |
| `DependentChecks.FailingRunsCount` | merge_bot/check_dependent_checks.py:33-42 | each run appears among the logged runs exactly as often as it appears in the response if it is requested and not passing, and never otherwise; the log is one failure line per such run, in response order |
| `DependentChecks.FailingRunsMembers` | merge_bot/check_dependent_checks.py:33-42 | a run prints a line iff it is in the response, is requested, and its conclusion is not passing; a check absent from the response prints nothing |
| `DependentChecks.CheckStatusesOfChecks` | merge_bot/check_dependent_checks.py:28-46 | non-200 aborts with the checks-API message and no output; otherwise the result is the all-requested-pass decision and the log is the failure lines in run order |
| `DependentChecks.CheckDependentChecks` | merge_bot/check_dependent_checks.py:75-79 | splits both arguments on commas; exit 1 iff the decision is false, else exit 0; a non-200 response is the uncaught assertion, which ends the process with status 1 and a traceback before any decision |
| `DependentChecks.EmptyChecksArgumentRequestsEmptyName` | merge_bot/check_dependent_checks.py:75 | an empty `--checks` requests the empty name, which fails unless some run has that name |
| `DependentChecks.FailingTestScenario` | merge_bot/check_dependent_checks.py:32-46 | build=success, test=failure, passing ["success"]: false, with the single line "Check test failed with status failure" |
| `ReviewApproval.GetRequestedReviewers` | merge_bot/check_review_approval.py:26-33 | non-200 is the requested-reviewers assertion; otherwise the logins of `users`, same length and order |
| `ReviewApproval.ApprovalsFold` | merge_bot/check_review_approval.py:57-62 | the approvals map's keys are exactly the logins in the review list, so an empty list gives an empty map |
| `ReviewApproval.Reviewers` | merge_bot/check_review_approval.py:57-65 | the dictionary's iteration order lists each reviewer once, and exactly the reviewers |
| `ReviewApproval.ApprovalIsLatestReview` | merge_bot/check_review_approval.py:55-62 | a reviewer's value is whether their last review's state is exactly "APPROVED"; earlier reviews do not matter |
| `ReviewApproval.NonApprovingLogCount` | merge_bot/check_review_approval.py:64-67 | walking distinct reviewers logs each non-approver once and each approver never |
| `ReviewApproval.NonApprovingLoggedOnce` | merge_bot/check_review_approval.py:64-67 | exactly one "Non-approving review" line per reviewer whose final value is false; none for approvers or non-reviewers |
| `ReviewApproval.NotReviewedLogCount` | merge_bot/check_review_approval.py:101-105 | one "has not reviewed" line per listing of a requested reviewer missing from the map; none for one who reviewed |
| `ReviewApproval.GetReviewerApprovals` | merge_bot/check_review_approval.py:51-69 | non-200 is the reviews assertion; otherwise returns the last-write-wins fold and logs non-approvers in the dict's insertion order |
| `ReviewApproval.LogNonApprovingReviewers` | merge_bot/check_review_approval.py:64-67 | the logging loop produces exactly the non-approval lines for the given reviewer order |
| `ReviewApproval.AllKeysTruthyIffLoginsNonEmpty` | merge_bot/check_review_approval.py:111 | `all(reviewer_approvals)` over the keys is false iff some review has the empty login; approval values play no part, and both branches exit 0 |
| `ReviewApproval.RequestedReviewersGate` | merge_bot/check_review_approval.py:101-112 | exit 1 iff some requested reviewer is not a key; otherwise exit 0 whatever `all` over the keys says; logs the missing reviewers |
| `ReviewApproval.CheckReviewApproval` | merge_bot/check_review_approval.py:88-112 | the requested-reviewers assertion comes first, then the reviews assertion; after that, exit 1 iff a requested login never reviewed, which does not depend on review states; the log is the non-approval lines followed by the missing-reviewer lines |
| `ReviewApproval.LastReviewWinsScenario` | merge_bot/check_review_approval.py:57-62 | alice COMMENTED then APPROVED, bob CHANGES_REQUESTED gives {alice: true, bob: false} |
| `ReviewApproval.MissingReviewerScenario` | merge_bot/check_review_approval.py:101-108 | carol requested, only dave reviewed: carol is not a key and "Requested reviewer carol has not reviewed." is logged |
| `ReviewApproval.SoleApprovalScenario` | merge_bot/check_review_approval.py:57-62 | a single APPROVED review by carol gives {carol: true}, and carol is the only reviewer |
| `ReviewApproval.ApprovedReviewerScenario` | merge_bot/check_review_approval.py:64-105 | carol requested and approving, no one else reviewed: no non-approval line and no missing-reviewer line |

## Left out

- HTTP requests (`requests.get`), URL building and the Authorization/Accept headers are network I/O. Each response is a parameter.
- JSON decoding and the `.get` chains: the model assumes records are well formed (`users[].login`, `reviews[].user.login` and `state`, `check_runs[].name` and `conclusion`).
- Pagination of API responses: the scripts do not implement it either.
- Reading `GITHUB_TOKEN` from the environment is process state and does not affect any decision.
- argparse mechanics are out, apart from the `--labels` default, `nargs="*"`, an omitted `--blocking-label`, and the comma split. Parsed values are parameters.
- An omitted `--checks` or `--passing-check-statuses` makes `None.split` raise an `AttributeError`. This crash is not modelled: the arguments are strings.
- `print` and `exit` are a returned log and exit code. Python's traceback text on an assertion failure is not modelled.
- Run order: the dependent-checks decision uses the last run with a name in response order. Nothing in merge_bot/check_dependent_checks.py says that order is chronological, and the model assumes nothing about it.
- The unused `from urllib import response` import in merge_bot/check_dependent_checks.py has no behaviour.
