/** Splitting a video that is too large to upload: the number of parts, the
    time each part starts at, the numbered output paths, the parts kept, and
    the best-effort removal of the parts afterwards. The probes and the cut
    itself are external programs whose results are inputs here. */
module VideoSplit {
  import opened Wrappers
  import opened Text
  import opened Files

  /** `get_video_duration`: the probed duration, or 0 when the probe or the
      parsing of its output fails. */
  function ProbeDuration(probe: Option<real>): (d: real)
    ensures probe.None? ==> d == 0.0
    ensures probe.Some? ==> d == probe.value
  {
    match probe
    case Some(seconds) => seconds
    case None => 0.0
  }

  /** The part size target, 1.95 GiB, in hundredths of a byte. */
  const TargetHundredths: nat := 195 * 1024 * 1024 * 1024

  /** `ceil(a / b)` on naturals. */
  function CeilDiv(a: nat, b: nat): (n: nat)
    requires b > 0
    ensures n * b >= a
    ensures n > 0 ==> (n - 1) * b < a
    ensures n == 0 <==> a == 0
  {
    var n := (a + b - 1) / b;
    DivModParts(a + b - 1, b);
    n
  }

  lemma DivModParts(x: nat, b: nat)
    requires b > 0
    ensures x == (x / b) * b + x % b && 0 <= x % b < b
  {
  }

  /** `math.ceil(file_size / target_size)`. */
  function NumParts(fileSize: nat): (n: nat)
    ensures n * TargetHundredths >= 100 * fileSize
    ensures n > 0 ==> (n - 1) * TargetHundredths < 100 * fileSize
    ensures n == 0 <==> fileSize == 0
  {
    CeilDiv(100 * fileSize, TargetHundredths)
  }

  /** A file of at most 1.95 GiB is one part; one byte more makes two. */
  lemma NumPartsAtTarget()
    ensures NumParts(TargetHundredths / 100) == 1
    ensures NumParts(TargetHundredths / 100 + 1) == 2
  {
    var t := TargetHundredths;
    var fs := t / 100;
    assert 100 * fs <= t;
    assert 100 * (fs + 1) <= 2 * t;
    assert 100 * (fs + 1) > t;
  }

  /** Where part `i` starts: `i * (duration / num_parts)`. */
  function SegmentStart(duration: real, numParts: nat, i: nat): real
    requires numParts > 0
  {
    (i as real) * (duration / numParts as real)
  }

  /** The parts cover `[0, duration)` back to back: the first starts at 0,
      each starts where the previous one ends, and the last ends at the
      duration. */
  lemma SegmentsTile(duration: real, numParts: nat)
    requires numParts > 0
    ensures SegmentStart(duration, numParts, 0) == 0.0
    ensures forall i :: 0 <= i < numParts ==>
      SegmentStart(duration, numParts, i) + duration / numParts as real == SegmentStart(duration, numParts, i + 1)
    ensures SegmentStart(duration, numParts, numParts) == duration
  {
  }

  /** `f"{input_path}_{i+1}.mp4"`. */
  function PartPath(inputPath: string, i: nat): (r: string)
    ensures |r| > |inputPath| && r[..|inputPath|] == inputPath
  {
    inputPath + "_" + IntToString(i + 1) + ".mp4"
  }

  /** Distinct parts never write to the same path. */
  lemma PartPathsDistinct(inputPath: string, i: nat, j: nat)
    requires i != j
    ensures PartPath(inputPath, i) != PartPath(inputPath, j)
  {
    NumberedTextsDiffer(inputPath + "_", i + 1, j + 1, ".mp4", ".mp4");
  }

  /** The paths kept from the first `i` parts: those that exist once the
      cut has run, in part order. */
  function Kept(inputPath: string, i: nat, existing: set<string>): (r: seq<string>)
    ensures |r| <= i
    ensures forall k :: 0 <= k < |r| ==> r[k] in existing
  {
    if i == 0 then []
    else
      var p := PartPath(inputPath, i - 1);
      Kept(inputPath, i - 1, existing) + (if p in existing then [p] else [])
  }

  /** A path is kept exactly when it is one of the planned part paths and
      exists after the cut. */
  lemma {:induction false} KeptMembership(inputPath: string, i: nat, existing: set<string>, p: string)
    ensures p in Kept(inputPath, i, existing) <==>
      p in existing && exists k :: 0 <= k < i && p == PartPath(inputPath, k)
  {
    if i > 0 {
      KeptMembership(inputPath, i - 1, existing, p);
    }
  }

  /** The kept paths are pairwise distinct. */
  lemma {:induction false} KeptDistinct(inputPath: string, i: nat, existing: set<string>)
    ensures var r := Kept(inputPath, i, existing);
      forall a, b :: 0 <= a < b < |r| ==> r[a] != r[b]
  {
    if i > 0 {
      KeptDistinct(inputPath, i - 1, existing);
      var p := PartPath(inputPath, i - 1);
      var rest := Kept(inputPath, i - 1, existing);
      forall k | 0 <= k < |rest| ensures rest[k] != p {
        KeptMembership(inputPath, i - 1, existing, rest[k]);
        var j :| 0 <= j < i - 1 && rest[k] == PartPath(inputPath, j);
        PartPathsDistinct(inputPath, j, i - 1);
      }
    }
  }

  /** Only whether the part paths exist matters to what is kept. */
  lemma {:induction false} KeptFrame(inputPath: string, i: nat, e1: set<string>, e2: set<string>)
    requires forall k :: 0 <= k < i ==> (PartPath(inputPath, k) in e1 <==> PartPath(inputPath, k) in e2)
    ensures Kept(inputPath, i, e1) == Kept(inputPath, i, e2)
  {
    if i > 0 {
      KeptFrame(inputPath, i - 1, e1, e2);
    }
  }

  /** The part paths the cut writes among the first `i` parts. */
  function Written(inputPath: string, i: nat, cutWrites: nat -> bool): set<string> {
    if i == 0 then {}
    else Written(inputPath, i - 1, cutWrites) + (if cutWrites(i - 1) then {PartPath(inputPath, i - 1)} else {})
  }

  /** The cut adds exactly the paths of the parts it writes. */
  lemma {:induction false} WrittenMembership(inputPath: string, i: nat, cutWrites: nat -> bool, p: string)
    ensures p in Written(inputPath, i, cutWrites) <==>
      exists k :: 0 <= k < i && cutWrites(k) && p == PartPath(inputPath, k)
  {
    if i > 0 {
      WrittenMembership(inputPath, i - 1, cutWrites, p);
    }
  }

  datatype SplitError = NoDuration | BadBitRate | EmptyFile

  /** One turn of the cut loop: the part's output is written or not, the
      written set grows by it, and the kept list by it when it exists. */
  lemma CutStep(inputPath: string, i: nat, cutWrites: nat -> bool,
                base: set<string>, before: set<string>, after: set<string>)
    requires before == base + Written(inputPath, i, cutWrites)
    requires after == before + (if cutWrites(i) then {PartPath(inputPath, i)} else {})
    ensures after == base + Written(inputPath, i + 1, cutWrites)
    ensures Kept(inputPath, i + 1, after)
      == Kept(inputPath, i, before) + (if PartPath(inputPath, i) in after then [PartPath(inputPath, i)] else [])
  {
    forall k | 0 <= k < i
      ensures PartPath(inputPath, k) in before <==> PartPath(inputPath, k) in after
    {
      PartPathsDistinct(inputPath, k, i);
    }
    KeptFrame(inputPath, i, before, after);
  }

  /** `split_video`. The duration probe, the bit-rate probe's output, the
      file size and whether the cut of part `i` writes its output are
      inputs. A zero duration and a bit rate that is not an integer raise;
      an empty file makes `duration / num_parts` divide by zero. Otherwise
      every part is cut in turn and the parts whose path then exists are
      returned in order: a stale file at a part path counts as well. */
  method SplitVideo(fs: FileSystem, inputPath: string, probe: Option<real>, bitRateText: string,
                    fileSize: nat, cutWrites: nat -> bool)
    returns (r: Result<seq<string>, SplitError>)
    modifies fs
    ensures ProbeDuration(probe) == 0.0 ==> r == Err(NoDuration) && fs.files == old(fs.files)
    ensures ProbeDuration(probe) != 0.0 && ParseInt(bitRateText).None? ==>
      r == Err(BadBitRate) && fs.files == old(fs.files)
    ensures ProbeDuration(probe) != 0.0 && ParseInt(bitRateText).Some? && fileSize == 0 ==>
      r == Err(EmptyFile) && fs.files == old(fs.files)
    ensures r.Ok? <==> ProbeDuration(probe) != 0.0 && ParseInt(bitRateText).Some? && fileSize > 0
    ensures r.Ok? ==>
      && fs.files == old(fs.files) + Written(inputPath, NumParts(fileSize), cutWrites)
      && r.value == Kept(inputPath, NumParts(fileSize), fs.files)
  {
    var duration := ProbeDuration(probe);
    if duration == 0.0 {
      return Err(NoDuration);
    }
    var bitRate := ParseInt(bitRateText);
    if bitRate.None? {
      return Err(BadBitRate);
    }
    var numParts := NumParts(fileSize);
    if numParts == 0 {
      return Err(EmptyFile);
    }
    var segment := duration / numParts as real;
    var outputs := CutParts(fs, inputPath, numParts, segment, cutWrites);
    r := Ok(outputs);
  }

  /** The loop of `split_video`: part `i` is cut from `i * segment` into its
      part path, and its path is kept when it exists afterwards. */
  method CutParts(fs: FileSystem, inputPath: string, numParts: nat, segment: real, cutWrites: nat -> bool)
    returns (outputs: seq<string>)
    modifies fs
    ensures fs.files == old(fs.files) + Written(inputPath, numParts, cutWrites)
    ensures outputs == Kept(inputPath, numParts, fs.files)
  {
    outputs := [];
    var i := 0;
    while i < numParts
      invariant 0 <= i <= numParts
      invariant fs.files == old(fs.files) + Written(inputPath, i, cutWrites)
      invariant outputs == Kept(inputPath, i, fs.files)
    {
      var start := (i as real) * segment;
      var outputPath := PartPath(inputPath, i);
      ghost var before := fs.files;
      if cutWrites(i) {
        fs.Write(outputPath);
      }
      CutStep(inputPath, i, cutWrites, old(fs.files), before, fs.files);
      if fs.Exists(outputPath) {
        outputs := outputs + [outputPath];
      }
      i := i + 1;
    }
  }

  /** The paths among `paths[..i]` whose removal is attempted and fails. */
  function FailedRemovals(paths: seq<string>, i: nat, existing: set<string>, failing: set<string>): (r: seq<string>)
    requires i <= |paths|
    ensures forall p :: p in r <==> p in paths[..i] && p in existing && p in failing
  {
    if i == 0 then []
    else
      var p := paths[i - 1];
      assert paths[..i] == paths[..i - 1] + [p];
      FailedRemovals(paths, i - 1, existing, failing) + (if p in existing && p in failing then [p] else [])
  }

  /** `cleanup_split_files`: every listed path that exists is removed, except
      those whose removal raises (`failing`); each such failure is logged and
      the loop goes on with the next path. */
  method CleanupSplitFiles(fs: FileSystem, paths: seq<string>, failing: set<string>)
    returns (errors: seq<string>)
    modifies fs
    ensures fs.files == old(fs.files) - (set p | p in paths && p !in failing)
    ensures errors == FailedRemovals(paths, |paths|, old(fs.files), failing)
  {
    errors := [];
    var i := 0;
    while i < |paths|
      invariant 0 <= i <= |paths|
      invariant fs.files == old(fs.files) - (set p | p in paths[..i] && p !in failing)
      invariant errors == FailedRemovals(paths, i, old(fs.files), failing)
    {
      var p := paths[i];
      assert paths[..i + 1] == paths[..i] + [p];
      if fs.Exists(p) {
        if p in failing {
          errors := errors + [p];
        } else {
          fs.RemoveIfExists(p);
        }
      }
      i := i + 1;
    }
    assert paths[..|paths|] == paths;
  }
}
