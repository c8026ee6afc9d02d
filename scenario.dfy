/** The end-to-end run of the repository's test: seven files under /src,
    among them a duplicate, an empty file and two .DS_Store files, copied to
    /dest. */
module Scenario {
  import opened Paths
  import opened Dedup
  import Report
  import DedupProperties

  /** The bytes of a string of 8-bit characters. */
  function Text(s: string): (b: Bytes)
    ensures |b| == |s| && forall i :: 0 <= i < |s| ==> b[i] as int == s[i] as int % 256
  {
    seq(|s|, i requires 0 <= i < |s| => (s[i] as int % 256) as byte)
  }

  /** root/rel */
  function Under(root: string, rel: string): string
  {
    root + "/" + rel
  }

  /** The walk of src in the walker's lexical order. */
  function SourceWalk(src: string): seq<Entry>
  {
    [ Directory(src),
      Directory(Under(src, "dir1")),
      File(Under(src, Under("dir1", "apple.txt")), Text("apple"), NoFault),
      File(Under(src, Under("dir1", "banana.txt")), Text("banana"), NoFault),
      Directory(Under(src, "dir2")),
      File(Under(src, Under("dir2", ".DS_Store")), Text("ds store"), NoFault),
      File(Under(src, Under("dir2", "._.DS_Store")), Text("more ds store"), NoFault),
      File(Under(src, Under("dir2", "apple.txt")), Text("apple"), NoFault),
      File(Under(src, Under("dir2", "carrot.txt")), Text("carrot"), NoFault),
      File(Under(src, Under("dir2", "empty.txt")), Text(""), NoFault) ]
  }

  function Cfg(hash: Bytes -> Digest, src: string, dest: string): Config
  {
    Config(src, dest, hash)
  }

  /** The state after copying content found at d/b: indexed under d/b,
      counted, and written to dest/d/b. */
  function Copied(s: State, hash: Bytes -> Digest, dest: string, d: string, b: string, content: Bytes): State
  {
    State(s.hashes[hash(content) := Under(d, b)], s.copied + |content|, s.skipped,
          s.files[Under(dest, Under(d, b)) := content])
  }

  /** The state after each file that changes it. */
  function AfterApple(hash: Bytes -> Digest, dest: string): State
  {
    Copied(Init(map[]), hash, dest, "dir1", "apple.txt", Text("apple"))
  }

  function AfterBanana(hash: Bytes -> Digest, dest: string): State
  {
    Copied(AfterApple(hash, dest), hash, dest, "dir1", "banana.txt", Text("banana"))
  }

  function AfterSecondApple(hash: Bytes -> Digest, dest: string): State
  {
    var s := AfterBanana(hash, dest);
    s.(skipped := s.skipped + |Text("apple")|)
  }

  function AfterCarrot(hash: Bytes -> Digest, dest: string): State
  {
    Copied(AfterSecondApple(hash, dest), hash, dest, "dir2", "carrot.txt", Text("carrot"))
  }

  /** The state after the first k entries of the walk. */
  function After(hash: Bytes -> Digest, dest: string, k: nat): State
  {
    if k < 3 then Init(map[])
    else if k == 3 then AfterApple(hash, dest)
    else if k < 8 then AfterBanana(hash, dest)
    else if k == 8 then AfterSecondApple(hash, dest)
    else AfterCarrot(hash, dest)
  }

  /** The three distinct contents of the walk have distinct digests. */
  predicate DistinctDigests(hash: Bytes -> Digest)
  {
    && hash(Text("apple")) != hash(Text("banana"))
    && hash(Text("apple")) != hash(Text("carrot"))
    && hash(Text("banana")) != hash(Text("carrot"))
  }

  /** An injective digest tells the three contents apart. */
  lemma InjectiveDistinct(hash: Bytes -> Digest)
    requires Injective(hash)
    ensures DistinctDigests(hash)
  {
    var apple, banana, carrot := Text("apple"), Text("banana"), Text("carrot");
    assert |apple| == 5 && |banana| == 6 && banana[0] != carrot[0];
  }

  /** A run over one more entry whose step goes through. */
  lemma RunOn(cfg: Config, s0: State, w: seq<Entry>, k: nat, s: State, t: State)
    requires k < |w| && Run(cfg, s0, w[..k]) == Outcome(s, None)
    requires Step(cfg, s, w[k]) == Continue(t)
    ensures Run(cfg, s0, w[..k + 1]) == Outcome(t, None)
  {
    DedupProperties.RunExtend(cfg, s0, w, k);
  }

  /** A file at src/d/b is eligible, indexed as d/b and copied to dest/d/b. */
  lemma CopiedPath(cfg: Config, e: Entry, d: string, b: string, content: Bytes)
    requires e == File(Under(cfg.inDir, Under(d, b)), content, NoFault)
    requires cfg.outDir != "" && cfg.outDir != "/" && IsName(d) && IsName(b)
    requires |content| > 0 && !HasSuffix(b, DsStore)
    ensures Eligible(e)
    ensures RelOf(cfg, e) == Under(d, b)
    ensures DestOf(cfg, e) == Under(cfg.outDir, Under(d, b))
  {
    SuffixUnder(cfg.inDir, d, b);
    NamePairClean(d, b);
    RelPathUnderRoot(cfg.inDir, Under(d, b));
    DestPathUnder(cfg.outDir, Under(d, b));
  }

  /** A file at src/d/b with no injected failure and a new digest is
      indexed as d/b and copied whole to dest/d/b. */
  lemma CopyStep(cfg: Config, s: State, e: Entry, d: string, b: string, content: Bytes)
    requires e == File(Under(cfg.inDir, Under(d, b)), content, NoFault)
    requires cfg.outDir != "" && cfg.outDir != "/" && IsName(d) && IsName(b)
    requires |content| > 0 && !HasSuffix(b, DsStore)
    requires cfg.hash(content) !in s.hashes
    ensures Step(cfg, s, e) == Continue(Copied(s, cfg.hash, cfg.outDir, d, b, content))
  {
    CopiedPath(cfg, e, d, b, content);
  }

  /** Whether root/d/b ends in .DS_Store depends on b alone. */
  lemma SuffixUnder(root: string, d: string, b: string)
    ensures HasSuffix(Under(root, Under(d, b)), DsStore) <==> HasSuffix(b, DsStore)
  {
    var p := Under(root, Under(d, b));
    if |DsStore| <= |b| {
      assert p[|p| - |DsStore|..] == b[|b| - |DsStore|..];
    } else if |DsStore| <= |p| {
      // the separator before a short name falls inside the last nine
      // characters, and .DS_Store has none
      var k := |DsStore| - |b| - 1;
      assert p[|p| - |b| - 1] == '/';
      assert p[|p| - |DsStore|..][k] == '/' != DsStore[k];
    }
  }

  /** The names along the copied paths are plain names, and only the
      .DS_Store files carry that suffix. */
  lemma Names()
    ensures IsName("dir1") && IsName("dir2")
    ensures IsName("apple.txt") && IsName("banana.txt") && IsName("carrot.txt")
    ensures !HasSuffix("apple.txt", DsStore) && !HasSuffix("banana.txt", DsStore)
    ensures !HasSuffix("carrot.txt", DsStore)
    ensures HasSuffix(".DS_Store", DsStore) && HasSuffix("._.DS_Store", DsStore)
  {
  }

  /** Directories and the empty file pass through. */
  lemma StepPassesThrough(hash: Bytes -> Digest, src: string, dest: string, k: nat)
    requires k in {0, 1, 4, 9}
    ensures Step(Cfg(hash, src, dest), After(hash, dest, k), SourceWalk(src)[k])
            == Continue(After(hash, dest, k + 1))
  {
  }

  /** A file at src/d/b whose name ends in .DS_Store is passed over. */
  lemma DsStoreStep(cfg: Config, s: State, e: Entry, d: string, b: string, content: Bytes)
    requires e == File(Under(cfg.inDir, Under(d, b)), content, NoFault)
    requires HasSuffix(b, DsStore)
    ensures Step(cfg, s, e) == Continue(s)
  {
    SuffixUnder(cfg.inDir, d, b);
  }

  /** Both .DS_Store files pass through. */
  lemma StepDsStore(hash: Bytes -> Digest, src: string, dest: string, k: nat)
    requires k in {5, 6}
    ensures Step(Cfg(hash, src, dest), After(hash, dest, k), SourceWalk(src)[k])
            == Continue(After(hash, dest, k + 1))
  {
    var cfg, s := Cfg(hash, src, dest), After(hash, dest, k);
    Names();
    if k == 5 {
      DsStoreStep(cfg, s, SourceWalk(src)[5], "dir2", ".DS_Store", Text("ds store"));
    } else {
      DsStoreStep(cfg, s, SourceWalk(src)[6], "dir2", "._.DS_Store", Text("more ds store"));
    }
  }

  /** The first apple is copied to dest/dir1/apple.txt. */
  lemma StepFirstApple(hash: Bytes -> Digest, src: string, dest: string)
    requires dest != "" && dest != "/"
    ensures Step(Cfg(hash, src, dest), After(hash, dest, 2), SourceWalk(src)[2])
            == Continue(After(hash, dest, 3))
  {
    Names();
    CopyStep(Cfg(hash, src, dest), After(hash, dest, 2), SourceWalk(src)[2], "dir1", "apple.txt", Text("apple"));
  }


  /** The banana is copied to dest/dir1/banana.txt. */
  lemma StepBanana(hash: Bytes -> Digest, src: string, dest: string)
    requires dest != "" && dest != "/" && DistinctDigests(hash)
    ensures Step(Cfg(hash, src, dest), After(hash, dest, 3), SourceWalk(src)[3])
            == Continue(After(hash, dest, 4))
  {
    Names();
    CopyStep(Cfg(hash, src, dest), After(hash, dest, 3), SourceWalk(src)[3], "dir1", "banana.txt", Text("banana"));
  }


  /** The second apple is a duplicate: its 5 bytes are skipped. */
  lemma StepSecondApple(hash: Bytes -> Digest, src: string, dest: string)
    ensures Step(Cfg(hash, src, dest), After(hash, dest, 7), SourceWalk(src)[7])
            == Continue(After(hash, dest, 8))
  {
    Names();
    SuffixUnder(src, "dir2", "apple.txt");
  }

  /** The carrot is copied to dest/dir2/carrot.txt. */
  lemma StepCarrot(hash: Bytes -> Digest, src: string, dest: string)
    requires dest != "" && dest != "/" && DistinctDigests(hash)
    ensures Step(Cfg(hash, src, dest), After(hash, dest, 8), SourceWalk(src)[8])
            == Continue(After(hash, dest, 9))
  {
    Names();
    CopyStep(Cfg(hash, src, dest), After(hash, dest, 8), SourceWalk(src)[8], "dir2", "carrot.txt", Text("carrot"));
  }


  /** The walk, entry by entry. */
  lemma {:induction false} WalkPrefix(hash: Bytes -> Digest, src: string, dest: string, k: nat)
    requires DistinctDigests(hash) && dest != "" && dest != "/" && k <= 10
    ensures Run(Cfg(hash, src, dest), Init(map[]), SourceWalk(src)[..k])
            == Outcome(After(hash, dest, k), None)
  {
    var cfg, w, s0 := Cfg(hash, src, dest), SourceWalk(src), Init(map[]);
    if k == 0 {
      assert w[..0] == [];
    } else {
      var j := k - 1;
      WalkPrefix(hash, src, dest, j);
      if j in {0, 1, 4, 9} {
        StepPassesThrough(hash, src, dest, j);
      } else if j in {5, 6} {
        StepDsStore(hash, src, dest, j);
      } else if j == 2 {
        StepFirstApple(hash, src, dest);
      } else if j == 3 {
        StepBanana(hash, src, dest);
      } else if j == 7 {
        StepSecondApple(hash, src, dest);
      } else {
        StepCarrot(hash, src, dest);
      }
      RunOn(cfg, s0, w, j, After(hash, dest, j), After(hash, dest, k));
    }
  }

  /** For any source and destination directory: 17 bytes copied, 5 skipped,
      and the destination holds exactly the first apple, the banana and the
      carrot, at their relative paths under dest. */
  lemma DedupTree(hash: Bytes -> Digest, src: string, dest: string)
    requires Injective(hash) && dest != "" && dest != "/"
    ensures var o := Run(Cfg(hash, src, dest), Init(map[]), SourceWalk(src));
            && o.failure == None
            && o.state.copied == 17
            && o.state.skipped == 5
            && o.state.files == map[ Under(dest, Under("dir1", "apple.txt")) := Text("apple"),
                                     Under(dest, Under("dir1", "banana.txt")) := Text("banana"),
                                     Under(dest, Under("dir2", "carrot.txt")) := Text("carrot") ]
            && Report.Finish(o.state.copied, o.state.skipped, RunError(o)) == Report.Summary(0, 0)
  {
    InjectiveDistinct(hash);
    WalkPrefix(hash, src, dest, 10);
    assert SourceWalk(src)[..10] == SourceWalk(src);
  }
}
