/** The deduplication run of dedupFS as a state machine over the entries the
    walker reports. One step is what the walk callback does with one entry;
    a run is the steps over a walk, stopping at the first failure. */
module Dedup {
  import opened Paths

  newtype byte = x: int | 0 <= x < 256
  type Bytes = seq<byte>

  /** A content digest as the callback keys it: the hex text of SHA-256. */
  type Digest = string

  datatype Option<T> = None | Some(value: T)

  /** The callback's operations on an eligible file that can fail. */
  datatype Stage =
    | Open
    | Hash
    | Seek
    | Mkdir
    | Create
    | Copy(written: nat)  // how many bytes reached the destination before the failure
    | Sync

  /** The failure the filesystem holds in store for a file, if any. */
  datatype Fault = NoFault | FailAt(stage: Stage, reason: string)

  /** What the walker hands to the callback: an error it met while listing,
      a directory, or a file with its content. */
  datatype Entry =
    | Unreadable(path: string, reason: string)
    | Directory(path: string)
    | File(path: string, content: Bytes, fault: Fault)

  /** The run's parameters: both roots (already absolute) and the digest. */
  datatype Config = Config(inDir: string, outDir: string, hash: Bytes -> Digest)

  /** What the callback shares across entries: the index from digest to the
      relative path that produced it first, the two byte counters, and the
      files of the destination tree by full path. */
  datatype State = State(hashes: map<Digest, string>, copied: nat, skipped: nat, files: map<string, Bytes>)

  datatype Failure = WalkFailed(reason: string) | StageFailed(stage: Stage, reason: string)

  datatype StepResult = Continue(state: State) | Stop(state: State, failure: Failure)

  /** The state a run ends in and the failure that ended it early, if any. */
  datatype Outcome = Outcome(state: State, failure: Option<Failure>)

  const DsStore: string := ".DS_Store"
  const WrapPrefix: string := "failed somewhere along the copy process: "

  /** A fresh run: empty index, zero counters, the destination as found. */
  function Init(files: map<string, Bytes>): State
  {
    State(map[], 0, 0, files)
  }

  /** Files the callback hashes: non-empty and not ending in .DS_Store. */
  predicate Eligible(e: Entry)
  {
    e.File? && |e.content| > 0 && !HasSuffix(e.path, DsStore)
  }

  /** The file cannot be opened or read through, so it is never hashed. */
  predicate FailsBeforeHash(e: Entry)
  {
    e.File? && e.fault.FailAt? && (e.fault.stage.Open? || e.fault.stage.Hash?)
  }

  function Size(e: Entry): nat
  {
    if e.File? then |e.content| else 0
  }

  function DigestOf(cfg: Config, e: Entry): Digest
    requires e.File?
  {
    cfg.hash(e.content)
  }

  function RelOf(cfg: Config, e: Entry): string
  {
    RelPath(e.path, cfg.inDir)
  }

  function DestOf(cfg: Config, e: Entry): string
  {
    DestPath(cfg.outDir, RelOf(cfg, e))
  }

  function Min(a: nat, b: nat): nat
  {
    if a <= b then a else b
  }

  /** The first map agrees with the second on all its keys. */
  ghost predicate Extends(m: map<Digest, string>, m': map<Digest, string>)
  {
    forall d :: d in m ==> d in m' && m'[d] == m[d]
  }

  /** The rest of the callback once a new digest is indexed: rewind the
      source, create the directory hierarchy and the file at outDir/relPath,
      copy the content, sync. */
  function CopyOut(cfg: Config, s: State, e: Entry): (r: StepResult)
    requires e.File? && !FailsBeforeHash(e)
    ensures r.state.hashes == s.hashes && r.state.skipped == s.skipped
    // it goes through exactly when the filesystem holds no failure for the file
    ensures r.Continue? <==> e.fault == NoFault
    ensures r.Continue? ==>
              r.state == s.(copied := s.copied + |e.content|, files := s.files[DestOf(cfg, e) := e.content])
    ensures r.Stop? ==> r.state.copied == s.copied && r.failure == StageFailed(e.fault.stage, e.fault.reason)
    // a failure before the file is created leaves the destination as it was
    ensures r.Stop? && !e.fault.stage.Copy? && !e.fault.stage.Sync? ==> r.state.files == s.files
    // a failed copy leaves the bytes written so far in the created file
    ensures r.Stop? && e.fault.stage.Copy? ==>
              r.state.files == s.files[DestOf(cfg, e) := e.content[..Min(e.fault.stage.written, |e.content|)]]
    // a failed sync comes after the whole content was written
    ensures r.Stop? && e.fault.stage.Sync? ==> r.state.files == s.files[DestOf(cfg, e) := e.content]
    // otherwise the destination changes only at this file's path, to a prefix of the content
    ensures r.state.files == s.files
            || (DestOf(cfg, e) in r.state.files
                && r.state.files[DestOf(cfg, e)] <= e.content
                && r.state.files == s.files[DestOf(cfg, e) := r.state.files[DestOf(cfg, e)]])
  {
    var fault := e.fault;
    // the rewind, the directory hierarchy and the file creation come before
    // any byte is written
    if fault.FailAt? && (fault.stage.Seek? || fault.stage.Mkdir? || fault.stage.Create?) then
      Stop(s, StageFailed(fault.stage, fault.reason))
    else
      var target := DestPath(cfg.outDir, RelPath(e.path, cfg.inDir));
      if fault.FailAt? && fault.stage.Copy? then
        var partial := e.content[..Min(fault.stage.written, |e.content|)];
        Stop(s.(files := s.files[target := partial]), StageFailed(fault.stage, fault.reason))
      else
        var written := s.(files := s.files[target := e.content]);
        if fault.FailAt? && fault.stage.Sync? then
          Stop(written, StageFailed(Sync, fault.reason))
        else
          Continue(written.(copied := s.copied + |e.content|))
  }

  /** The callback on one entry. */
  function Step(cfg: Config, s: State, e: Entry): (r: StepResult)
    // a listing error stops the walk; everything else not eligible is passed over untouched
    ensures e.Unreadable? ==> r == Stop(s, WalkFailed(e.reason))
    ensures !e.Unreadable? && !Eligible(e) ==> r == Continue(s)
    // a file without an injected failure never stops the walk
    ensures e.File? && e.fault == NoFault ==> r.Continue?
    // a failing step leaves both counters as they were
    ensures r.Stop? ==> r.state.copied == s.copied && r.state.skipped == s.skipped
    // the index changes only by recording a new digest, and then for this file's relative path
    ensures r.state.hashes == s.hashes
            || (Eligible(e) && DigestOf(cfg, e) !in s.hashes
                && r.state.hashes == s.hashes[DigestOf(cfg, e) := RelOf(cfg, e)])
    ensures Extends(s.hashes, r.state.hashes)
    // the walk stops exactly at a listing error, at a failure before hashing,
    // and at any failure after a new digest was found
    ensures r.Stop? <==>
              e.Unreadable?
              || (Eligible(e) && e.fault.FailAt? && (FailsBeforeHash(e) || DigestOf(cfg, e) !in s.hashes))
    ensures r.Stop? && e.File? ==> r.failure == StageFailed(e.fault.stage, e.fault.reason)
    // a new digest stays recorded for this file's relative path, whether or
    // not the copy that follows goes through
    ensures Eligible(e) && !FailsBeforeHash(e) && DigestOf(cfg, e) !in s.hashes ==>
              r.state.hashes == s.hashes[DigestOf(cfg, e) := RelOf(cfg, e)]
    // an eligible file that cannot be opened or read stops the walk untouched
    ensures Eligible(e) && FailsBeforeHash(e) ==> r == Stop(s, StageFailed(e.fault.stage, e.fault.reason))
    // a known digest is a skip of the whole file: nothing else changes
    ensures Eligible(e) && !FailsBeforeHash(e) && DigestOf(cfg, e) in s.hashes ==>
              r == Continue(s.(skipped := s.skipped + |e.content|))
    // a new digest that goes through is a copy of the whole file to outDir/relPath
    ensures Eligible(e) && DigestOf(cfg, e) !in s.hashes && r.Continue? ==>
              && r.state.copied == s.copied + |e.content|
              && r.state.skipped == s.skipped
              && r.state.hashes == s.hashes[DigestOf(cfg, e) := RelOf(cfg, e)]
              && r.state.files == s.files[DestOf(cfg, e) := e.content]
    // the destination changes, if at all, only at this file's destination,
    // which then holds a prefix of the source content
    ensures r.state.files == s.files
            || (Eligible(e) && DigestOf(cfg, e) !in s.hashes
                && DestOf(cfg, e) in r.state.files
                && r.state.files[DestOf(cfg, e)] <= e.content
                && r.state.files == s.files[DestOf(cfg, e) := r.state.files[DestOf(cfg, e)]])
  {
    match e
    case Unreadable(_, reason) => Stop(s, WalkFailed(reason))
    case Directory(_) => Continue(s)
    case File(path, content, fault) =>
      var relPath := RelPath(path, cfg.inDir);
      if |content| == 0 || HasSuffix(path, DsStore) then Continue(s)
      else if fault.FailAt? && fault.stage.Open? then Stop(s, StageFailed(Open, fault.reason))
      else if fault.FailAt? && fault.stage.Hash? then Stop(s, StageFailed(Hash, fault.reason))
      else
        var digest := cfg.hash(content);
        if digest in s.hashes then Continue(s.(skipped := s.skipped + |content|))
        else CopyOut(cfg, s.(hashes := s.hashes[digest := relPath]), e)
  }

  /** The walk from s0 over the entries of w, in order, up to the first
      failure. */
  function Run(cfg: Config, s0: State, w: seq<Entry>): (o: Outcome)
    ensures Extends(s0.hashes, o.state.hashes)
    ensures s0.copied <= o.state.copied && s0.skipped <= o.state.skipped
    decreases |w|
  {
    if w == [] then Outcome(s0, None)
    else
      var prev := Run(cfg, s0, w[..|w| - 1]);
      if prev.failure.Some? then prev
      else
        match Step(cfg, prev.state, w[|w| - 1])
        case Continue(s) => Outcome(s, None)
        case Stop(s, f) => Outcome(s, Some(f))
  }

  /** What the callback says when one of its file operations fails. */
  function StageWords(stage: Stage): (w: string)
    ensures ':' !in w
  {
    match stage
    case Open => "failed to open source file"
    case Hash => "failed to read/hash file"
    case Seek => "failed to seek source file"
    case Mkdir => "failed to create directory heirarchy"
    case Create => "failed to create output file"
    case Copy(_) => "failed to copy file contents"
    case Sync => "failed to sync file contents"
  }

  /** What the callback says went wrong, before the ": " that separates it
      from the reason. No colon occurs in it, so the reason that follows can
      always be split off again. */
  function Words(f: Failure): (w: string)
    ensures ':' !in w
  {
    match f
    case WalkFailed(_) => "error during filesystem walk"
    case StageFailed(stage, _) => StageWords(stage)
  }

  /** The text of the error the callback returns: what went wrong, then the
      underlying error's text unchanged. */
  function Message(f: Failure): (m: string)
    ensures Words(f) + ": " <= m && m[|Words(f)| + 2..] == f.reason
  {
    Words(f) + ": " + f.reason
  }

  /** The error dedupFS returns for a run that failed. */
  function RunError(o: Outcome): (r: Option<string>)
    ensures r.Some? <==> o.failure.Some?
    ensures r.Some? ==> WrapPrefix <= r.value && r.value[|WrapPrefix|..] == Message(o.failure.value)
  {
    if o.failure.Some? then Some(WrapPrefix + Message(o.failure.value)) else None
  }

  // Reference definitions: what a run should achieve, stated without the
  // index, the faults or the destination.

  /** Total size of the eligible files of w. */
  function EligibleBytes(w: seq<Entry>): nat
    decreases |w|
  {
    if w == [] then 0
    else EligibleBytes(w[..|w| - 1]) + (if Eligible(w[|w| - 1]) then Size(w[|w| - 1]) else 0)
  }

  /** The digests of the eligible files of w. */
  function Seen(cfg: Config, w: seq<Entry>): (r: set<Digest>)
    ensures forall k {:trigger DigestOf(cfg, w[k])} :: 0 <= k < |w| && Eligible(w[k]) ==> DigestOf(cfg, w[k]) in r
    decreases |w|
  {
    if w == [] then {}
    else
      var last := w[|w| - 1];
      Seen(cfg, w[..|w| - 1]) + (if Eligible(last) then {DigestOf(cfg, last)} else {})
  }

  /** The position of the first eligible file of w whose digest is d. */
  function FirstPos(cfg: Config, w: seq<Entry>, d: Digest): (k: nat)
    requires d in Seen(cfg, w)
    ensures k < |w| && Eligible(w[k]) && DigestOf(cfg, w[k]) == d
    ensures forall j {:trigger DigestOf(cfg, w[j])} :: 0 <= j < k && Eligible(w[j]) ==> DigestOf(cfg, w[j]) != d
    decreases |w|
  {
    var prefix := w[..|w| - 1];
    if d in Seen(cfg, prefix) then FirstPos(cfg, prefix, d) else |w| - 1
  }

  /** For every digest of w, the relative path of its first file. */
  function FirstIndex(cfg: Config, w: seq<Entry>): map<Digest, string>
  {
    map d | d in Seen(cfg, w) :: RelOf(cfg, w[FirstPos(cfg, w, d)])
  }

  /** The destinations of the first file of every digest of w. */
  function FirstDests(cfg: Config, w: seq<Entry>): set<string>
  {
    set d | d in Seen(cfg, w) :: DestOf(cfg, w[FirstPos(cfg, w, d)])
  }

  /** Total size of the eligible files whose digest no earlier file has. */
  function FirstBytes(cfg: Config, w: seq<Entry>): nat
    decreases |w|
  {
    if w == [] then 0
    else
      var prefix, last := w[..|w| - 1], w[|w| - 1];
      FirstBytes(cfg, prefix)
        + (if Eligible(last) && DigestOf(cfg, last) !in Seen(cfg, prefix) then Size(last) else 0)
  }

  /** Total size of the eligible files whose digest an earlier file has. */
  function RepeatBytes(cfg: Config, w: seq<Entry>): nat
    decreases |w|
  {
    if w == [] then 0
    else
      var prefix, last := w[..|w| - 1], w[|w| - 1];
      RepeatBytes(cfg, prefix)
        + (if Eligible(last) && DigestOf(cfg, last) in Seen(cfg, prefix) then Size(last) else 0)
  }

  /** The destination after w, starting from files0, holds the first file of
      every digest of w, whole, at its destination, and is otherwise as it
      was found. */
  ghost predicate HoldsFirstCopies(cfg: Config, files0: map<string, Bytes>, w: seq<Entry>, files: map<string, Bytes>)
  {
    && files.Keys == files0.Keys + FirstDests(cfg, w)
    && (forall d {:trigger FirstPos(cfg, w, d)} :: d in Seen(cfg, w) ==>
          var first := w[FirstPos(cfg, w, d)];
          DestOf(cfg, first) in files && files[DestOf(cfg, first)] == first.content)
    && (forall p :: p in files0 && p !in FirstDests(cfg, w) ==> files[p] == files0[p])
  }

  /** No two eligible files of the walk share a destination. */
  ghost predicate DistinctDests(cfg: Config, w: seq<Entry>)
  {
    forall i, j {:trigger DestOf(cfg, w[i]), DestOf(cfg, w[j])} :: 0 <= i < j < |w| && Eligible(w[i]) && Eligible(w[j]) ==>
      DestOf(cfg, w[i]) != DestOf(cfg, w[j])
  }

  /** What the walker guarantees: distinct file paths, and every file lies below
      inDir at a clean relative path. */
  ghost predicate WellFormedWalk(cfg: Config, w: seq<Entry>)
  {
    && (forall i, j :: 0 <= i < j < |w| && w[i].File? && w[j].File? ==> w[i].path != w[j].path)
    && (forall k :: 0 <= k < |w| && w[k].File? ==>
          cfg.inDir + "/" <= w[k].path && IsCleanRel(RelOf(cfg, w[k])))
  }

  /** The digest tells different contents apart. */
  ghost predicate Injective(hash: Bytes -> Digest)
  {
    forall a, b :: hash(a) == hash(b) ==> a == b
  }
}
