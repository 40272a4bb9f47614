/**
 * The blocking-label check: the run fails (exit code 1) exactly when the
 * configured blocking label is one of the pull request's labels.
 * The decision is a single list-membership test on the parsed arguments.
 */
module BlockingLabel {
  import opened Process

  const STOP_MESSAGE: string := "Stopping merge, blocking label detected."

  /** argparse's default for `--labels` when the flag is not given at all. */
  const DEFAULT_LABELS: seq<string> := [""]

  /**
   * The value of `args.labels`: the default `[""]` when `--labels` is omitted,
   * otherwise the values given after it, which `nargs="*"` allows to be none.
   */
  function ParsedLabels(given: Option<seq<string>>): (labels: seq<string>)
    ensures given.None? ==> labels == [""]
    ensures given.Some? ==> labels == given.value
  {
    if given.Some? then given.value else DEFAULT_LABELS
  }

  /**
   * The script's run. `blockingLabel` is `None` when `--blocking-label` is
   * omitted; `None in labels` is false for a list of strings, so it never blocks.
   * The test is exact string equality: no case folding and no trimming.
   */
  function CheckBlockingLabel(blockingLabel: Option<string>, labels: seq<string>): (o: Outcome)
    ensures o.Exit?
    ensures o.code == 1 <==>
      blockingLabel.Some? && exists i :: 0 <= i < |labels| && labels[i] == blockingLabel.value
    ensures o.code != 1 ==> o.code == 0 && o.log == []
    ensures o.code == 1 ==> o.log == [STOP_MESSAGE]
  {
    if blockingLabel.Some? && blockingLabel.value in labels then Exit(1, [STOP_MESSAGE])
    else Exit(0, [])
  }

  /** With `--labels` omitted, only an empty-string blocking label blocks. */
  lemma DefaultLabelsBlockOnlyEmpty(blockingLabel: Option<string>)
    ensures CheckBlockingLabel(blockingLabel, ParsedLabels(None)).code == 1 <==> blockingLabel == Some("")
  {
    assert ParsedLabels(None)[0] == "";
  }

  /** `--labels` given with no values is the empty list, which never blocks. */
  lemma EmptyLabelsNeverBlock(blockingLabel: Option<string>)
    ensures CheckBlockingLabel(blockingLabel, ParsedLabels(Some([]))) == Exit(0, [])
  {
  }

  /** Without `--blocking-label` the run never blocks, whatever the labels. */
  lemma OmittedBlockingLabelNeverBlocks(labels: seq<string>)
    ensures CheckBlockingLabel(None, labels) == Exit(0, [])
  {
  }

  /** Matching is exact: a label differing in case or surrounding spaces does not block. */
  lemma MatchIsExact()
    ensures CheckBlockingLabel(Some("do-not-merge"), ["Do-Not-Merge", " do-not-merge"]) == Exit(0, [])
  {
    assert "Do-Not-Merge"[0] != "do-not-merge"[0];
    assert |" do-not-merge"| != |"do-not-merge"|;
  }

  /** A pull request labelled "wip" and "do-not-merge", blocked on "do-not-merge", stops. */
  lemma BlockedScenario()
    ensures CheckBlockingLabel(Some("do-not-merge"), ["wip", "do-not-merge"]) == Exit(1, [STOP_MESSAGE])
  {
    assert ["wip", "do-not-merge"][1] == "do-not-merge";
  }
}
