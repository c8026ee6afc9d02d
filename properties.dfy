/** What a dedup run guarantees: fail-fast, byte accounting, first-seen-wins
    and the shape of the destination tree. */
module DedupProperties {
  import opened Paths
  import opened Dedup

  /** Once a prefix of the walk has failed, the later entries change nothing. */
  lemma {:induction false} FailureIsFinal(cfg: Config, s0: State, w: seq<Entry>, k: nat)
    requires k <= |w| && Run(cfg, s0, w[..k]).failure.Some?
    ensures Run(cfg, s0, w) == Run(cfg, s0, w[..k])
    decreases |w|
  {
    if k < |w| {
      var prefix := w[..|w| - 1];
      assert prefix[..k] == w[..k];
      FailureIsFinal(cfg, s0, prefix, k);
    } else {
      assert w[..k] == w;
    }
  }

  /** A failed run is a successful run of a prefix followed by one failing
      entry; what that step stopped with is what the run returns, so the
      counters are those accumulated before the failing entry. */
  lemma {:induction false} FirstFailure(cfg: Config, s0: State, w: seq<Entry>) returns (k: nat)
    requires Run(cfg, s0, w).failure.Some?
    ensures k < |w|
    ensures Run(cfg, s0, w[..k]).failure.None?
    ensures Step(cfg, Run(cfg, s0, w[..k]).state, w[k])
            == Stop(Run(cfg, s0, w).state, Run(cfg, s0, w).failure.value)
    ensures Run(cfg, s0, w).state.copied == Run(cfg, s0, w[..k]).state.copied
    ensures Run(cfg, s0, w).state.skipped == Run(cfg, s0, w[..k]).state.skipped
    decreases |w|
  {
    var prefix := w[..|w| - 1];
    if Run(cfg, s0, prefix).failure.Some? {
      k := FirstFailure(cfg, s0, prefix);
      assert prefix[..k] == w[..k] && prefix[k] == w[k];
    } else {
      k := |w| - 1;
      assert w[..k] == prefix;
    }
  }

  /** A walk in which the walker meets no error and the filesystem fails no
      operation runs to its end. */
  lemma {:induction false} CleanWalkSucceeds(cfg: Config, s0: State, w: seq<Entry>)
    requires forall k :: 0 <= k < |w| ==> !w[k].Unreadable? && (w[k].File? ==> w[k].fault == NoFault)
    ensures Run(cfg, s0, w).failure.None?
    decreases |w|
  {
    if w != [] {
      CleanWalkSucceeds(cfg, s0, w[..|w| - 1]);
    }
  }

  /** A run one entry longer takes one more step from where the shorter run
      stopped, unless it had already failed. */
  lemma RunExtend(cfg: Config, s0: State, w: seq<Entry>, k: nat)
    requires k < |w|
    ensures var prev := Run(cfg, s0, w[..k]);
            Run(cfg, s0, w[..k + 1])
            == if prev.failure.Some? then prev
               else match Step(cfg, prev.state, w[k])
                    case Continue(s) => Outcome(s, None)
                    case Stop(s, f) => Outcome(s, Some(f))
  {
    assert w[..k + 1][..k] == w[..k];
  }

  /** A successful run adds the size of every eligible file to exactly one
      of the two counters. */
  lemma {:induction false} ByteAccounting(cfg: Config, s0: State, w: seq<Entry>)
    requires Run(cfg, s0, w).failure.None?
    ensures Run(cfg, s0, w).state.copied + Run(cfg, s0, w).state.skipped
            == s0.copied + s0.skipped + EligibleBytes(w)
    decreases |w|
  {
    if w != [] {
      ByteAccounting(cfg, s0, w[..|w| - 1]);
    }
  }

  /** Every eligible file is either the first of its digest or a repeat. */
  lemma {:induction false} FirstAndRepeatCoverEligible(cfg: Config, w: seq<Entry>)
    ensures FirstBytes(cfg, w) + RepeatBytes(cfg, w) == EligibleBytes(w)
    decreases |w|
  {
    if w != [] {
      FirstAndRepeatCoverEligible(cfg, w[..|w| - 1]);
    }
  }

  /** The digests seen grow by the last file's digest. */
  lemma SeenSnoc(cfg: Config, w: seq<Entry>)
    requires w != []
    ensures Seen(cfg, w) == Seen(cfg, w[..|w| - 1])
                            + (if Eligible(w[|w| - 1]) then {DigestOf(cfg, w[|w| - 1])} else {})
  {
  }

  /** The reference index grows by the last file when its digest is new. */
  lemma FirstIndexSnoc(cfg: Config, w: seq<Entry>)
    requires w != []
    ensures var prefix, last := w[..|w| - 1], w[|w| - 1];
            FirstIndex(cfg, w)
            == if Eligible(last) && DigestOf(cfg, last) !in Seen(cfg, prefix)
               then FirstIndex(cfg, prefix)[DigestOf(cfg, last) := RelOf(cfg, last)]
               else FirstIndex(cfg, prefix)
  {
    var prefix, last := w[..|w| - 1], w[|w| - 1];
    forall d | d in Seen(cfg, prefix)
      ensures FirstPos(cfg, w, d) == FirstPos(cfg, prefix, d)
      ensures w[FirstPos(cfg, w, d)] == prefix[FirstPos(cfg, prefix, d)]
    {
    }
  }

  /** The reference destinations grow by the last file when its digest is new. */
  lemma FirstDestsSnoc(cfg: Config, w: seq<Entry>)
    requires w != []
    ensures var prefix, last := w[..|w| - 1], w[|w| - 1];
            FirstDests(cfg, w)
            == if Eligible(last) && DigestOf(cfg, last) !in Seen(cfg, prefix)
               then FirstDests(cfg, prefix) + {DestOf(cfg, last)}
               else FirstDests(cfg, prefix)
  {
    var prefix, last := w[..|w| - 1], w[|w| - 1];
    forall d | d in Seen(cfg, prefix)
      ensures FirstPos(cfg, w, d) == FirstPos(cfg, prefix, d)
      ensures w[FirstPos(cfg, w, d)] == prefix[FirstPos(cfg, prefix, d)]
    {
    }
    if Eligible(last) && DigestOf(cfg, last) !in Seen(cfg, prefix) {
      assert FirstPos(cfg, w, DigestOf(cfg, last)) == |w| - 1;
    }
  }

  /** First-seen-wins: after a successful run from an empty index, the index
      maps each digest met to the relative path of its first file, the
      copied counter holds the sizes of those first files and the skipped
      counter the sizes of all later ones. */
  lemma {:induction false} FirstSeenWins(cfg: Config, s0: State, w: seq<Entry>)
    requires s0.hashes == map[]
    requires Run(cfg, s0, w).failure.None?
    ensures Run(cfg, s0, w).state.hashes == FirstIndex(cfg, w)
    ensures Run(cfg, s0, w).state.copied == s0.copied + FirstBytes(cfg, w)
    ensures Run(cfg, s0, w).state.skipped == s0.skipped + RepeatBytes(cfg, w)
    decreases |w|
  {
    if w != [] {
      var prefix := w[..|w| - 1];
      FirstSeenWins(cfg, s0, prefix);
      FirstIndexSnoc(cfg, w);
    }
  }

  /** A step that goes through changes the destination only by writing a
      file whose digest the index did not have, whole, to its destination. */
  lemma StepFiles(cfg: Config, t: State, e: Entry, r: State)
    requires Step(cfg, t, e) == Continue(r)
    ensures r.files == if Eligible(e) && DigestOf(cfg, e) !in t.hashes
                       then t.files[DestOf(cfg, e) := e.content] else t.files
  {
  }

  /** Writing the last file when its digest is new keeps the destination
      holding the first copies. */
  lemma HoldsFirstCopiesSnoc(cfg: Config, files0: map<string, Bytes>, w: seq<Entry>,
                             files: map<string, Bytes>, files': map<string, Bytes>)
    requires w != [] && DistinctDests(cfg, w)
    requires HoldsFirstCopies(cfg, files0, w[..|w| - 1], files)
    requires var prefix, last := w[..|w| - 1], w[|w| - 1];
             files' == if Eligible(last) && DigestOf(cfg, last) !in Seen(cfg, prefix)
                       then files[DestOf(cfg, last) := last.content] else files
    ensures HoldsFirstCopies(cfg, files0, w, files')
  {
    FirstDestsSnoc(cfg, w);
    forall d | d in Seen(cfg, w)
      ensures DestOf(cfg, w[FirstPos(cfg, w, d)]) in files'
      ensures files'[DestOf(cfg, w[FirstPos(cfg, w, d)])] == w[FirstPos(cfg, w, d)].content
    {
      FirstCopyKept(cfg, files0, w, files, files', d);
    }
  }

  /** The first file of one digest is still whole at its destination after
      the last file of the walk is written. */
  lemma FirstCopyKept(cfg: Config, files0: map<string, Bytes>, w: seq<Entry>,
                      files: map<string, Bytes>, files': map<string, Bytes>, d: Digest)
    requires w != [] && DistinctDests(cfg, w)
    requires HoldsFirstCopies(cfg, files0, w[..|w| - 1], files)
    requires var prefix, last := w[..|w| - 1], w[|w| - 1];
             files' == if Eligible(last) && DigestOf(cfg, last) !in Seen(cfg, prefix)
                       then files[DestOf(cfg, last) := last.content] else files
    requires d in Seen(cfg, w)
    ensures DestOf(cfg, w[FirstPos(cfg, w, d)]) in files'
    ensures files'[DestOf(cfg, w[FirstPos(cfg, w, d)])] == w[FirstPos(cfg, w, d)].content
  {
    var prefix, last := w[..|w| - 1], w[|w| - 1];
    SeenSnoc(cfg, w);
    if d in Seen(cfg, prefix) {
      var j := FirstPos(cfg, prefix, d);
      assert FirstPos(cfg, w, d) == j && w[j] == prefix[j];
      if Eligible(last) && DigestOf(cfg, last) !in Seen(cfg, prefix) {
        assert DestOf(cfg, w[j]) != DestOf(cfg, last);
      }
    } else {
      assert FirstPos(cfg, w, d) == |w| - 1;
    }
  }

  /** After a successful run from an empty index, the destination holds, in
      addition to what was there, the first file of every digest met, whole,
      at its destination; nothing else in it changes. */
  lemma {:induction false} DestinationHoldsFirstCopies(cfg: Config, s0: State, w: seq<Entry>)
    requires s0.hashes == map[]
    requires DistinctDests(cfg, w)
    requires Run(cfg, s0, w).failure.None?
    ensures HoldsFirstCopies(cfg, s0.files, w, Run(cfg, s0, w).state.files)
    decreases |w|
  {
    if w != [] {
      var prefix := w[..|w| - 1];
      assert DistinctDests(cfg, prefix);
      DestinationHoldsFirstCopies(cfg, s0, prefix);
      FirstSeenWins(cfg, s0, prefix);
      var t, r := Run(cfg, s0, prefix).state, Run(cfg, s0, w).state;
      StepFiles(cfg, t, w[|w| - 1], r);
      HoldsFirstCopiesSnoc(cfg, s0.files, w, t.files, r.files);
    } else {
      assert Seen(cfg, w) == {} && FirstDests(cfg, w) == {};
    }
  }

  /** Different digests land at different destinations with different
      contents: one file per distinct digest. */
  lemma OneFilePerDigest(cfg: Config, files0: map<string, Bytes>, w: seq<Entry>, files: map<string, Bytes>, d1: Digest, d2: Digest)
    requires DistinctDests(cfg, w) && HoldsFirstCopies(cfg, files0, w, files)
    requires d1 in Seen(cfg, w) && d2 in Seen(cfg, w) && d1 != d2
    ensures var p1, p2 := DestOf(cfg, w[FirstPos(cfg, w, d1)]), DestOf(cfg, w[FirstPos(cfg, w, d2)]);
            p1 != p2 && p1 in files && p2 in files && files[p1] != files[p2]
  {
    var j1, j2 := FirstPos(cfg, w, d1), FirstPos(cfg, w, d2);
    assert j1 != j2;
    if j1 < j2 {
      assert DestOf(cfg, w[j1]) != DestOf(cfg, w[j2]);
    } else {
      assert DestOf(cfg, w[j2]) != DestOf(cfg, w[j1]);
    }
  }

  /** A file whose digest an earlier file already has never touches the
      destination: its destination path is left as it was found. */
  lemma DuplicateLeavesDestination(cfg: Config, files0: map<string, Bytes>, w: seq<Entry>, files: map<string, Bytes>, k: nat)
    requires DistinctDests(cfg, w) && HoldsFirstCopies(cfg, files0, w, files)
    requires k < |w| && Eligible(w[k]) && FirstPos(cfg, w, DigestOf(cfg, w[k])) < k
    ensures DestOf(cfg, w[k]) in files <==> DestOf(cfg, w[k]) in files0
    ensures DestOf(cfg, w[k]) in files0 ==> files[DestOf(cfg, w[k])] == files0[DestOf(cfg, w[k])]
  {
    var p := DestOf(cfg, w[k]);
    forall d | d in Seen(cfg, w)
      ensures DestOf(cfg, w[FirstPos(cfg, w, d)]) != p
    {
      var j := FirstPos(cfg, w, d);
      assert j != k;
      DistinctDestsAt(cfg, w, j, k);
    }
    NotAFirstDest(cfg, w, p);
  }

  /** DistinctDests for one pair of positions, in either order. */
  lemma DistinctDestsAt(cfg: Config, w: seq<Entry>, i: nat, j: nat)
    requires DistinctDests(cfg, w)
    requires i < |w| && j < |w| && i != j && Eligible(w[i]) && Eligible(w[j])
    ensures DestOf(cfg, w[i]) != DestOf(cfg, w[j])
  {
    if i < j {
      assert DestOf(cfg, w[i]) != DestOf(cfg, w[j]);
    } else {
      assert DestOf(cfg, w[j]) != DestOf(cfg, w[i]);
    }
  }

  /** A path that is no first file's destination is not among FirstDests. */
  lemma NotAFirstDest(cfg: Config, w: seq<Entry>, p: string)
    requires forall d :: d in Seen(cfg, w) ==> DestOf(cfg, w[FirstPos(cfg, w, d)]) != p
    ensures p !in FirstDests(cfg, w)
  {
  }

  /** With a digest that tells contents apart, every eligible file's content
      is in the destination, at the destination of the first file with that
      content. */
  lemma EveryContentCopied(cfg: Config, files0: map<string, Bytes>, w: seq<Entry>, files: map<string, Bytes>, k: nat)
    requires Injective(cfg.hash) && HoldsFirstCopies(cfg, files0, w, files)
    requires k < |w| && Eligible(w[k])
    ensures var j := FirstPos(cfg, w, DigestOf(cfg, w[k]));
            j <= k && w[j].content == w[k].content
            && DestOf(cfg, w[j]) in files && files[DestOf(cfg, w[j])] == w[k].content
  {
    var j := FirstPos(cfg, w, DigestOf(cfg, w[k]));
    assert cfg.hash(w[j].content) == cfg.hash(w[k].content);
  }

  /** What the walker guarantees rules out two copies sharing a destination,
      and places every file's copy at outDir/relPath. */
  lemma WalkDestinations(cfg: Config, w: seq<Entry>)
    requires cfg.outDir != ""
    requires WellFormedWalk(cfg, w)
    ensures DistinctDests(cfg, w)
    ensures forall k :: 0 <= k < |w| && w[k].File? ==>
              DestOf(cfg, w[k]) == (if cfg.outDir == "/" then "/" else cfg.outDir + "/") + RelOf(cfg, w[k])
  {
    forall k | 0 <= k < |w| && w[k].File?
      ensures DestOf(cfg, w[k]) == (if cfg.outDir == "/" then "/" else cfg.outDir + "/") + RelOf(cfg, w[k])
    {
      DestPathUnder(cfg.outDir, RelOf(cfg, w[k]));
    }
    forall i, j | 0 <= i < j < |w| && Eligible(w[i]) && Eligible(w[j])
      ensures DestOf(cfg, w[i]) != DestOf(cfg, w[j])
    {
      RelPathInjective(cfg.inDir, w[i].path, w[j].path);
      DestPathInjective(cfg.outDir, RelOf(cfg, w[i]), RelOf(cfg, w[j]));
    }
  }

  /** An error text names its failure: two failures with the same message
      say the same thing went wrong, for the same reason. */
  lemma MessageInjective(f1: Failure, f2: Failure)
    requires Message(f1) == Message(f2)
    ensures Words(f1) == Words(f2) && f1.reason == f2.reason
  {
    var w1, w2, m := Words(f1), Words(f2), Message(f1);
    // the first colon of the message ends the words of either failure
    assert m[|w1|] == ':' && m[|w2|] == ':';
    assert forall i :: 0 <= i < |w1| ==> m[i] == w1[i];
    assert forall i :: 0 <= i < |w2| ==> m[i] == w2[i];
    assert |w1| == |w2|;
    assert w1 == m[..|w1|] == w2;
  }
}
