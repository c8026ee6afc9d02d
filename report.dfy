/** What main makes of dedup's result: an error, the "nothing happened"
    outcome when no byte was copied, or the summary in units of 1024 bytes. */
module Report {
  import opened Dedup
  import DedupProperties

  datatype Exit =
    | Failed(message: string)
    | NothingHappened
    | Summary(copiedKB: nat, skippedKB: nat)

  /** The process exit code for each outcome. */
  function ExitCode(r: Exit): int
  {
    if r.Summary? then 0 else 1
  }

  /** main's reading of dedup's result. */
  function Finish(copied: nat, skipped: nat, err: Option<string>): (r: Exit)
    ensures r.Failed? <==> err.Some?
    ensures err.Some? ==> r.message == "Error doing dedup: " + err.value
    ensures r.NothingHappened? <==> err.None? && copied == 0
    ensures ExitCode(r) == 0 <==> err.None? && copied > 0
    ensures r.Summary? ==>
              && r.copiedKB * 1024 <= copied < (r.copiedKB + 1) * 1024
              && r.skippedKB * 1024 <= skipped < (r.skippedKB + 1) * 1024
  {
    if err.Some? then Failed("Error doing dedup: " + err.value)
    else if copied == 0 then NothingHappened
    else Summary(copied / 1024, skipped / 1024)
  }

  /** A walk with nothing but directories, empty files and .DS_Store files
      runs through, changes nothing and is reported as nothing happened. */
  lemma {:induction false} NothingToCopy(cfg: Config, files0: map<string, Bytes>, w: seq<Entry>)
    requires forall k :: 0 <= k < |w| ==> !w[k].Unreadable? && !Eligible(w[k])
    ensures Run(cfg, Init(files0), w) == Outcome(Init(files0), None)
    ensures var o := Run(cfg, Init(files0), w);
            Finish(o.state.copied, o.state.skipped, RunError(o)) == NothingHappened
    decreases |w|
  {
    if w != [] {
      NothingToCopy(cfg, files0, w[..|w| - 1]);
    }
  }

  /** A successful run over a walk that holds at least one eligible file is
      reported as a summary, with exit code 0. */
  lemma SomethingCopied(cfg: Config, files0: map<string, Bytes>, w: seq<Entry>, k: nat)
    requires Run(cfg, Init(files0), w).failure.None?
    requires k < |w| && Eligible(w[k])
    ensures var o := Run(cfg, Init(files0), w);
            Finish(o.state.copied, o.state.skipped, RunError(o)).Summary?
  {
    var s0 := Init(files0);
    DedupProperties.FirstSeenWins(cfg, s0, w);
    FirstBytesPositive(cfg, w, k);
  }

  /** The first eligible file of any digest is counted by FirstBytes. */
  lemma {:induction false} FirstBytesPositive(cfg: Config, w: seq<Entry>, k: nat)
    requires k < |w| && Eligible(w[k])
    ensures FirstBytes(cfg, w) > 0
    decreases |w|
  {
    var prefix, last := w[..|w| - 1], w[|w| - 1];
    if k < |w| - 1 {
      FirstBytesPositive(cfg, prefix, k);
    } else if DigestOf(cfg, last) in Seen(cfg, prefix) {
      var j := FirstPos(cfg, prefix, DigestOf(cfg, last));
      FirstBytesPositive(cfg, prefix, j);
    }
  }
}
