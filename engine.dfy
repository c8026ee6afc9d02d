/** dedupFS itself: a run object that owns the index and the counters the
    walk callback shares, the callback as a method that updates them in
    place, and the walk as a loop over the entries that returns at the first
    failure. */
module Engine {
  import opened Paths
  import opened Dedup
  import DedupProperties

  /** The destination side of the filesystem: its files by full path. */
  class MemFs {
    var files: map<string, Bytes>

    constructor (files: map<string, Bytes>)
      ensures this.files == files
    {
      this.files := files;
    }
  }

  /** The variables the walk callback captures: the index from digest to
      the relative path that produced it first, and the byte counters. */
  class DedupRun {
    const cfg: Config
    const fs: MemFs
    var hashes: map<Digest, string>
    var copied: nat
    var skipped: nat

    /** The run's state as the specification sees it. */
    function Snapshot(): State
      reads this, fs
    {
      State(hashes, copied, skipped, fs.files)
    }

    /** A run starts with an empty index and zero counters. */
    constructor (cfg: Config, fs: MemFs)
      ensures this.cfg == cfg && this.fs == fs
      ensures Snapshot() == Init(fs.files)
    {
      this.cfg := cfg;
      this.fs := fs;
      hashes := map[];
      copied := 0;
      skipped := 0;
    }

    /** The walk callback on one entry: None lets the walk go on, Some
        stops it with that failure. */
    method Visit(e: Entry) returns (failure: Option<Failure>)
      modifies this, fs
      ensures Step(cfg, old(Snapshot()), e)
              == if failure.None? then Continue(Snapshot()) else Stop(Snapshot(), failure.value)
    {
      if e.Unreadable? {
        return Some(WalkFailed(e.reason));
      }
      if e.Directory? {
        return None;
      }
      var relPath := RelPath(e.path, cfg.inDir);
      if |e.content| == 0 || HasSuffix(e.path, DsStore) {
        return None;
      }
      var fault := e.fault;
      if fault.FailAt? && fault.stage.Open? {
        return Some(StageFailed(Open, fault.reason));
      }
      if fault.FailAt? && fault.stage.Hash? {
        return Some(StageFailed(Hash, fault.reason));
      }
      var hash := cfg.hash(e.content);
      if hash in hashes {
        skipped := skipped + |e.content|;
        return None;
      }
      hashes := hashes[hash := relPath];
      failure := CopyOut(e, relPath);
    }

    /** The rest of the callback once the new digest is indexed. */
    method CopyOut(e: Entry, relPath: string) returns (failure: Option<Failure>)
      requires e.File? && !FailsBeforeHash(e) && relPath == RelOf(cfg, e)
      modifies this, fs
      ensures Dedup.CopyOut(cfg, old(Snapshot()), e)
              == if failure.None? then Continue(Snapshot()) else Stop(Snapshot(), failure.value)
    {
      var fault := e.fault;
      if fault.FailAt? && fault.stage.Seek? {
        return Some(StageFailed(Seek, fault.reason));
      }
      if fault.FailAt? && fault.stage.Mkdir? {
        return Some(StageFailed(Mkdir, fault.reason));
      }
      var outFullPath := DestPath(cfg.outDir, relPath);
      if fault.FailAt? && fault.stage.Create? {
        return Some(StageFailed(Create, fault.reason));
      }
      // the created file is written once, by the copy below: every path
      // from here on stores either a prefix of the content or all of it
      if fault.FailAt? && fault.stage.Copy? {
        fs.files := fs.files[outFullPath := e.content[..Min(fault.stage.written, |e.content|)]];
        return Some(StageFailed(fault.stage, fault.reason));
      }
      fs.files := fs.files[outFullPath := e.content];
      if fault.FailAt? && fault.stage.Sync? {
        return Some(StageFailed(Sync, fault.reason));
      }
      copied := copied + |e.content|;
      return None;
    }
  }

  /** dedupFS: walks the entries in order, returns the two counters and,
      when a step failed, its error wrapped once more. */
  method DedupFS(fs: MemFs, inDir: string, outDir: string, hash: Bytes -> Digest, walk: seq<Entry>)
    returns (copied: nat, skipped: nat, err: Option<string>)
    modifies fs
    ensures var o := Run(Config(inDir, outDir, hash), Init(old(fs.files)), walk);
            && copied == o.state.copied && skipped == o.state.skipped
            && fs.files == o.state.files
            && err == RunError(o)
  {
    var cfg := Config(inDir, outDir, hash);
    ghost var s0 := Init(fs.files);
    var run := new DedupRun(cfg, fs);
    var i := 0;
    while i < |walk|
      invariant 0 <= i <= |walk|
      invariant run.cfg == cfg && run.fs == fs
      invariant Run(cfg, s0, walk[..i]) == Outcome(run.Snapshot(), None)
    {
      var failure := run.Visit(walk[i]);
      assert walk[..i + 1][..i] == walk[..i];
      if failure.Some? {
        DedupProperties.FailureIsFinal(cfg, s0, walk, i + 1);
        return run.copied, run.skipped, Some(WrapPrefix + Message(failure.value));
      }
      i := i + 1;
    }
    assert walk[..i] == walk;
    return run.copied, run.skipped, None;
  }
}
