/** `Helper.CreateLocFile`: for each selected entry, in order, write a
    `<name>.loc` file beside the source holding the entry's link, and stop
    with `false` at the first file that is not there after its write. */
module LocWriter {
  import opened Wrappers
  import opened Text
  import opened FileEntries

  /** How the environment answers when one artifact is written. The answer
      is fixed per path for the whole run and does not look at what the file
      held before; an existing artifact that cannot be overwritten (a
      read-only file, say) is `Denied` for its path. */
  datatype WriteOutcome =
    /** The writer opens, the link is written, and the file is found. */
    | Stored
    /** The writer opens, but the file has vanished by the existence check,
        so the flush on disposal reaches no file. */
    | Lost
    /** The writer opens and the file is still there, but the existence
        check answers no (the caller may not query it, say); the flush on
        disposal then writes the link into it. */
    | Unconfirmed
    /** Opening the writer throws; the file is left as it was. */
    | Denied
    /** The writer opens, truncating the file, and the file is found, but
        flushing the buffered link when the writer is disposed throws after
        `written` characters reached the file. */
    | Interrupted(written: nat)

  /** The platform the writer runs on: `Path.Combine`, and what happens
      when a given path is written. Both are outside the program. */
  datatype Platform = Platform(
    combine: (string, string) -> string,
    outcome: string -> WriteOutcome)

  /** The file contents the writer can see, by full path. */
  type Artifacts = map<string, string>

  /** The outcome of a whole run: the returned flag or the exception, and
      the files afterwards. */
  datatype Run = Run(result: Result<bool>, artifacts: Artifacts)

  /** `$"{name}.loc"`. */
  function ArtifactName(name: string): (r: string)
    ensures |r| == |name| + 4
    ensures StartsWith(r, name) && EndsWith(r, ".loc")
  {
    name + ".loc"
  }

  /** The link written into an artifact: the base path and the name with
      exactly one '/' inserted, none if the base path already ends in
      one. */
  function Link(locPath: string, name: string): (r: string)
    ensures StartsWith(r, locPath)
    ensures EndsWith(r, "/" + name)
    ensures |r| == |locPath| + |name| + (if EndsWith(locPath, "/") then 0 else 1)
  {
    if EndsWith(locPath, "/") then locPath + name else locPath + "/" + name
  }

  /** A trailing '/' on the base path does not change any link. */
  lemma TrailingSlashIrrelevant(locPath: string, name: string)
    requires !EndsWith(locPath, "/")
    ensures Link(locPath + "/", name) == Link(locPath, name)
  {
  }

  /** `Path.Combine(sourceDir, $"{name}.loc")`. */
  function Destination(p: Platform, sourceDir: string, name: string): (r: string)
    ensures r == p.combine(sourceDir, name + ".loc")
  {
    p.combine(sourceDir, ArtifactName(name))
  }

  /** What a flush that throws leaves in a file opened empty: the first
      `written` characters of the link, or all of it. */
  function Flushed(link: string, written: nat): (r: string)
    ensures StartsWith(link, r)
    ensures |r| == if written < |link| then written else |link|
  {
    if written < |link| then link[..written] else link
  }

  /** The run as a recursion over the entries: the reference semantics the
      loop in `CreateLocFile` follows. */
  function RunFrom(files: seq<FileEntry>, sourceDir: string, locPath: string, p: Platform, fs: Artifacts): Run
    decreases |files|
  {
    if files == [] then Run(Success(true), fs)
    else
      var dest := Destination(p, sourceDir, files[0].name);
      match p.outcome(dest)
      case Denied => Run(Failure(WriteDenied(dest)), fs)
      case Lost => Run(Success(false), fs - {dest})
      case Unconfirmed => Run(Success(false), fs[dest := Link(locPath, files[0].name)])
      case Interrupted(w) => Run(Failure(WriteFailed(dest)), fs[dest := Flushed(Link(locPath, files[0].name), w)])
      case Stored => RunFrom(files[1..], sourceDir, locPath, p, fs[dest := Link(locPath, files[0].name)])
  }

  /** One step of the run, by the outcome of the first entry's write. */
  lemma RunStep(files: seq<FileEntry>, sourceDir: string, locPath: string, p: Platform, fs: Artifacts)
    requires files != []
    ensures var dest := Destination(p, sourceDir, files[0].name);
      var link := Link(locPath, files[0].name);
      var run := RunFrom(files, sourceDir, locPath, p, fs);
      && (p.outcome(dest) == Denied ==> run == Run(Failure(WriteDenied(dest)), fs))
      && (p.outcome(dest) == Lost ==> run == Run(Success(false), fs - {dest}))
      && (p.outcome(dest) == Unconfirmed ==> run == Run(Success(false), fs[dest := link]))
      && (p.outcome(dest).Interrupted? ==>
          run == Run(Failure(WriteFailed(dest)), fs[dest := Flushed(link, p.outcome(dest).written)]))
      && (p.outcome(dest) == Stored ==> run == RunFrom(files[1..], sourceDir, locPath, p, fs[dest := link]))
  {
  }

  /** The writer over the selected entries. Each artifact is opened anew
      (earlier content discarded) and looked for; one the existence check
      does not find ends the run with `false`. The link reaches the file when the writer is
      disposed at the end of the iteration. A writer that cannot be opened,
      or whose final flush throws, ends the run with the exception. */
  method CreateLocFile(files: seq<FileEntry>, sourceDir: string, locPath: string, p: Platform, fs: Artifacts)
    returns (r: Result<bool>, out: Artifacts)
    ensures Run(r, out) == RunFrom(files, sourceDir, locPath, p, fs)
    ensures r == Success(true) ==>
      forall i :: 0 <= i < |files| ==> p.outcome(Destination(p, sourceDir, files[i].name)) == Stored
  {
    out := fs;
    var i := 0;
    while i < |files|
      invariant i <= |files|
      invariant RunFrom(files, sourceDir, locPath, p, fs) == RunFrom(files[i..], sourceDir, locPath, p, out)
    {
      var file := files[i];
      var link := Link(locPath, file.name);
      var destFile := Destination(p, sourceDir, file.name);
      var outcome := p.outcome(destFile);
      assert files[i..][0] == file && files[i..][1..] == files[i + 1..];
      RunStep(files[i..], sourceDir, locPath, p, out);
      if outcome == Denied {
        return Failure(WriteDenied(destFile)), out;
      }
      var truncated := out[destFile := ""];
      if outcome == Lost {
        assert truncated - {destFile} == out - {destFile};
        return Success(false), truncated - {destFile};
      }
      if outcome == Unconfirmed {
        assert truncated[destFile := link] == out[destFile := link];
        return Success(false), truncated[destFile := link];
      }
      if outcome.Interrupted? {
        var partial := Flushed(link, outcome.written);
        assert truncated[destFile := partial] == out[destFile := partial];
        return Failure(WriteFailed(destFile)), truncated[destFile := partial];
      }
      assert truncated[destFile := link] == out[destFile := link];
      out := truncated[destFile := link];
      i := i + 1;
    }
    RunResult(files, sourceDir, locPath, p, fs);
    return Success(true), out;
  }

  /** Position of the first entry whose artifact is not stored, or the
      number of entries when every one is. */
  function FirstFailure(files: seq<FileEntry>, sourceDir: string, p: Platform): (k: nat)
    ensures k <= |files|
    ensures forall i :: 0 <= i < k ==> p.outcome(Destination(p, sourceDir, files[i].name)) == Stored
    ensures k < |files| ==> p.outcome(Destination(p, sourceDir, files[k].name)) != Stored
  {
    if files == [] then 0
    else if p.outcome(Destination(p, sourceDir, files[0].name)) != Stored then 0
    else 1 + FirstFailure(files[1..], sourceDir, p)
  }

  /** The destinations a run writes or removes: those of the stored prefix
      and of the first failing entry unless its writer never opened. */
  function Touched(files: seq<FileEntry>, sourceDir: string, p: Platform): set<string>
  {
    if files == [] then {}
    else
      var dest := Destination(p, sourceDir, files[0].name);
      match p.outcome(dest)
      case Denied => {}
      case Lost => {dest}
      case Unconfirmed => {dest}
      case Interrupted(_) => {dest}
      case Stored => {dest} + Touched(files[1..], sourceDir, p)
  }

  predicate SameAt(m: Artifacts, n: Artifacts, path: string) {
    (path in m <==> path in n) && (path in m ==> m[path] == n[path])
  }

  /** The result: `true` iff every artifact is stored, `false` iff the
      first failure is a file the existence check did not find, the exception of the first failing
      entry otherwise (a writer that cannot be opened, or a flush that
      throws). An empty selection succeeds. */
  lemma RunResult(files: seq<FileEntry>, sourceDir: string, locPath: string, p: Platform, fs: Artifacts)
    ensures var k := FirstFailure(files, sourceDir, p);
      var r := RunFrom(files, sourceDir, locPath, p, fs).result;
      && (r == Success(true) <==> k == |files|)
      && (k < |files| ==>
          var dest := Destination(p, sourceDir, files[k].name);
          (p.outcome(dest) in {Lost, Unconfirmed} <==> r == Success(false))
          && (p.outcome(dest) == Denied ==> r == Failure(WriteDenied(dest)))
          && (p.outcome(dest).Interrupted? ==> r == Failure(WriteFailed(dest))))
  {
    RunSucceedsIffStored(files, sourceDir, locPath, p, fs);
    if FirstFailure(files, sourceDir, p) < |files| {
      RunFailsAtFirstFailure(files, sourceDir, locPath, p, fs);
    }
  }

  /** The success half of `RunResult`. */
  lemma {:induction false} RunSucceedsIffStored(files: seq<FileEntry>, sourceDir: string, locPath: string, p: Platform, fs: Artifacts)
    ensures RunFrom(files, sourceDir, locPath, p, fs).result == Success(true) <==> FirstFailure(files, sourceDir, p) == |files|
    decreases |files|
  {
    if files != [] {
      var dest := Destination(p, sourceDir, files[0].name);
      RunStep(files, sourceDir, locPath, p, fs);
      if p.outcome(dest) == Stored {
        RunSucceedsIffStored(files[1..], sourceDir, locPath, p, fs[dest := Link(locPath, files[0].name)]);
      }
    }
  }

  /** The answer a run gives when it ends at `dest` with outcome `o`. */
  function EndResult(dest: string, o: WriteOutcome): Result<bool> {
    match o
    case Stored => Success(true)
    case Lost => Success(false)
    case Unconfirmed => Success(false)
    case Denied => Failure(WriteDenied(dest))
    case Interrupted(_) => Failure(WriteFailed(dest))
  }

  /** The failure half of `RunResult`: the first failing entry decides the
      answer. */
  lemma {:induction false} RunFailsAtFirstFailure(files: seq<FileEntry>, sourceDir: string, locPath: string, p: Platform, fs: Artifacts)
    requires FirstFailure(files, sourceDir, p) < |files|
    ensures var dest := Destination(p, sourceDir, files[FirstFailure(files, sourceDir, p)].name);
      RunFrom(files, sourceDir, locPath, p, fs).result == EndResult(dest, p.outcome(dest))
    decreases |files|
  {
    var dest := Destination(p, sourceDir, files[0].name);
    RunStep(files, sourceDir, locPath, p, fs);
    if p.outcome(dest) == Stored {
      var tail := files[1..];
      var k := FirstFailure(tail, sourceDir, p);
      assert FirstFailure(files, sourceDir, p) == k + 1;
      RunFailsAtFirstFailure(tail, sourceDir, locPath, p, fs[dest := Link(locPath, files[0].name)]);
      assert tail[k] == files[k + 1];
    } else {
      assert FirstFailure(files, sourceDir, p) == 0;
    }
  }

  /** Entries after the first failing one are never looked at: the run on
      the whole list equals the run on the list cut just after it. */
  lemma {:induction false} RunStopsAtFirstFailure(files: seq<FileEntry>, sourceDir: string, locPath: string, p: Platform, fs: Artifacts)
    requires FirstFailure(files, sourceDir, p) < |files|
    ensures var k := FirstFailure(files, sourceDir, p);
      RunFrom(files, sourceDir, locPath, p, fs) == RunFrom(files[..k + 1], sourceDir, locPath, p, fs)
    decreases |files|
  {
    var k := FirstFailure(files, sourceDir, p);
    var dest := Destination(p, sourceDir, files[0].name);
    var cut := files[..k + 1];
    assert cut[0] == files[0];
    RunStep(files, sourceDir, locPath, p, fs);
    RunStep(cut, sourceDir, locPath, p, fs);
    if k > 0 {
      var tail := files[1..];
      RunStopsAtFirstFailure(tail, sourceDir, locPath, p, fs[dest := Link(locPath, files[0].name)]);
      assert cut[1..] == tail[..k];
    }
  }

  /** No path outside the touched destinations changes. */
  lemma {:induction false} RunFrame(files: seq<FileEntry>, sourceDir: string, locPath: string, p: Platform, fs: Artifacts, path: string)
    requires path !in Touched(files, sourceDir, p)
    ensures SameAt(RunFrom(files, sourceDir, locPath, p, fs).artifacts, fs, path)
    decreases |files|
  {
    if files != [] {
      var dest := Destination(p, sourceDir, files[0].name);
      if p.outcome(dest) == Stored {
        RunFrame(files[1..], sourceDir, locPath, p, fs[dest := Link(locPath, files[0].name)], path);
      }
    }
  }

  /** On the touched destinations the outcome does not depend on what was
      there before, and neither does the result. */
  lemma {:induction false} RunForgetsTouched(files: seq<FileEntry>, sourceDir: string, locPath: string, p: Platform, fs: Artifacts, gs: Artifacts, path: string)
    requires path in Touched(files, sourceDir, p)
    ensures RunFrom(files, sourceDir, locPath, p, fs).result == RunFrom(files, sourceDir, locPath, p, gs).result
    ensures SameAt(RunFrom(files, sourceDir, locPath, p, fs).artifacts, RunFrom(files, sourceDir, locPath, p, gs).artifacts, path)
    decreases |files|
  {
    var dest := Destination(p, sourceDir, files[0].name);
    if p.outcome(dest) == Stored {
      var link := Link(locPath, files[0].name);
      var tail := files[1..];
      if path in Touched(tail, sourceDir, p) {
        RunForgetsTouched(tail, sourceDir, locPath, p, fs[dest := link], gs[dest := link], path);
      } else {
        RunFrame(tail, sourceDir, locPath, p, fs[dest := link], path);
        RunFrame(tail, sourceDir, locPath, p, gs[dest := link], path);
        RunResultIndependent(tail, sourceDir, locPath, p, fs[dest := link], gs[dest := link]);
      }
    }
  }

  /** For the same answers from the platform, the returned flag or
      exception does not depend on the files' earlier contents. */
  lemma {:induction false} RunResultIndependent(files: seq<FileEntry>, sourceDir: string, locPath: string, p: Platform, fs: Artifacts, gs: Artifacts)
    ensures RunFrom(files, sourceDir, locPath, p, fs).result == RunFrom(files, sourceDir, locPath, p, gs).result
    decreases |files|
  {
    if files != [] {
      var dest := Destination(p, sourceDir, files[0].name);
      RunStep(files, sourceDir, locPath, p, fs);
      RunStep(files, sourceDir, locPath, p, gs);
      if p.outcome(dest) == Stored {
        var link := Link(locPath, files[0].name);
        RunResultIndependent(files[1..], sourceDir, locPath, p, fs[dest := link], gs[dest := link]);
      }
    }
  }

  /** Running the writer a second time with the same inputs and the same
      answers from the platform leaves the same files and gives the same
      answer. */
  lemma RunIdempotent(files: seq<FileEntry>, sourceDir: string, locPath: string, p: Platform, fs: Artifacts)
    ensures var once := RunFrom(files, sourceDir, locPath, p, fs);
      RunFrom(files, sourceDir, locPath, p, once.artifacts) == once
  {
    var once := RunFrom(files, sourceDir, locPath, p, fs);
    var twice := RunFrom(files, sourceDir, locPath, p, once.artifacts);
    RunResultIndependent(files, sourceDir, locPath, p, once.artifacts, fs);
    forall path | true
      ensures path in twice.artifacts <==> path in once.artifacts
      ensures path in twice.artifacts ==> twice.artifacts[path] == once.artifacts[path]
    {
      if path in Touched(files, sourceDir, p) {
        RunForgetsTouched(files, sourceDir, locPath, p, once.artifacts, fs, path);
      } else {
        RunFrame(files, sourceDir, locPath, p, once.artifacts, path);
      }
      assert SameAt(twice.artifacts, once.artifacts, path);
    }
    assert twice.artifacts == once.artifacts;
  }

  /** Distinct entries write distinct files. */
  predicate DistinctDestinations(files: seq<FileEntry>, sourceDir: string, p: Platform) {
    forall i, j :: 0 <= i < j < |files| ==>
      Destination(p, sourceDir, files[i].name) != Destination(p, sourceDir, files[j].name)
  }

  /** Every destination the run touches belongs to one of the entries. */
  lemma {:induction false} TouchedAreDestinations(files: seq<FileEntry>, sourceDir: string, p: Platform, path: string)
    requires path in Touched(files, sourceDir, p)
    ensures exists i :: 0 <= i < |files| && path == Destination(p, sourceDir, files[i].name)
    decreases |files|
  {
    var dest := Destination(p, sourceDir, files[0].name);
    if path != dest {
      TouchedAreDestinations(files[1..], sourceDir, p, path);
      var i :| 0 <= i < |files[1..]| && path == Destination(p, sourceDir, files[1..][i].name);
      assert files[1..][i] == files[i + 1];
    }
  }

  /** Distinct destinations stay distinct in the tail, and the head's
      destination is not among those the tail's run touches. */
  lemma DistinctTail(files: seq<FileEntry>, sourceDir: string, p: Platform)
    requires files != [] && DistinctDestinations(files, sourceDir, p)
    ensures DistinctDestinations(files[1..], sourceDir, p)
    ensures Destination(p, sourceDir, files[0].name) !in Touched(files[1..], sourceDir, p)
  {
    var tail := files[1..];
    forall i, j | 0 <= i < j < |tail|
      ensures Destination(p, sourceDir, tail[i].name) != Destination(p, sourceDir, tail[j].name)
    {
      assert tail[i] == files[i + 1] && tail[j] == files[j + 1];
    }
    var dest := Destination(p, sourceDir, files[0].name);
    if dest in Touched(tail, sourceDir, p) {
      TouchedAreDestinations(tail, sourceDir, p, dest);
      assert false;
    }
  }

  /** Every artifact before the first failure holds exactly its entry's
      link afterwards, whatever was in it before. */
  lemma {:induction false} RunWritesPrefix(files: seq<FileEntry>, sourceDir: string, locPath: string, p: Platform, fs: Artifacts, i: nat)
    requires DistinctDestinations(files, sourceDir, p)
    requires i < FirstFailure(files, sourceDir, p)
    ensures var out := RunFrom(files, sourceDir, locPath, p, fs).artifacts;
      var dest := Destination(p, sourceDir, files[i].name);
      dest in out && out[dest] == Link(locPath, files[i].name)
    decreases |files|
  {
    var dest := Destination(p, sourceDir, files[0].name);
    var tail := files[1..];
    var link := Link(locPath, files[0].name);
    DistinctTail(files, sourceDir, p);
    if i == 0 {
      RunFrame(tail, sourceDir, locPath, p, fs[dest := link], dest);
    } else {
      RunWritesPrefix(tail, sourceDir, locPath, p, fs[dest := link], i - 1);
      assert tail[i - 1] == files[i];
    }
  }

  /** When the first failure is a file that vanished before the existence
      check, that file is absent afterwards. */
  lemma {:induction false} RunLostIsAbsent(files: seq<FileEntry>, sourceDir: string, locPath: string, p: Platform, fs: Artifacts)
    requires FirstFailure(files, sourceDir, p) < |files|
    requires p.outcome(Destination(p, sourceDir, files[FirstFailure(files, sourceDir, p)].name)) == Lost
    ensures Destination(p, sourceDir, files[FirstFailure(files, sourceDir, p)].name)
      !in RunFrom(files, sourceDir, locPath, p, fs).artifacts
    decreases |files|
  {
    var dest := Destination(p, sourceDir, files[0].name);
    RunStep(files, sourceDir, locPath, p, fs);
    if p.outcome(dest) == Stored {
      var tail := files[1..];
      var k := FirstFailure(tail, sourceDir, p);
      assert FirstFailure(files, sourceDir, p) == k + 1;
      RunLostIsAbsent(tail, sourceDir, locPath, p, fs[dest := Link(locPath, files[0].name)]);
      assert tail[k] == files[k + 1];
    } else {
      assert FirstFailure(files, sourceDir, p) == 0;
    }
  }

  /** When the existence check fails to see a file that is still there,
      the run answers `false` and the file keeps its full link. */
  lemma {:induction false} RunUnconfirmedKeepsLink(files: seq<FileEntry>, sourceDir: string, locPath: string, p: Platform, fs: Artifacts)
    requires FirstFailure(files, sourceDir, p) < |files|
    requires p.outcome(Destination(p, sourceDir, files[FirstFailure(files, sourceDir, p)].name)) == Unconfirmed
    ensures var e := files[FirstFailure(files, sourceDir, p)];
      var dest := Destination(p, sourceDir, e.name);
      var run := RunFrom(files, sourceDir, locPath, p, fs);
      && run.result == Success(false)
      && dest in run.artifacts
      && run.artifacts[dest] == Link(locPath, e.name)
    decreases |files|
  {
    var dest := Destination(p, sourceDir, files[0].name);
    RunStep(files, sourceDir, locPath, p, fs);
    if p.outcome(dest) == Stored {
      var tail := files[1..];
      var k := FirstFailure(tail, sourceDir, p);
      assert FirstFailure(files, sourceDir, p) == k + 1;
      RunUnconfirmedKeepsLink(tail, sourceDir, locPath, p, fs[dest := Link(locPath, files[0].name)]);
      assert tail[k] == files[k + 1];
    } else {
      assert FirstFailure(files, sourceDir, p) == 0;
    }
  }

  /** When the first failure is a flush that threw, that file is left
      holding only the part of its link that reached it, and the exception
      names it. */
  lemma {:induction false} RunInterruptedLeavesPartial(files: seq<FileEntry>, sourceDir: string, locPath: string, p: Platform, fs: Artifacts)
    requires FirstFailure(files, sourceDir, p) < |files|
    requires p.outcome(Destination(p, sourceDir, files[FirstFailure(files, sourceDir, p)].name)).Interrupted?
    ensures var e := files[FirstFailure(files, sourceDir, p)];
      var dest := Destination(p, sourceDir, e.name);
      var run := RunFrom(files, sourceDir, locPath, p, fs);
      && run.result == Failure(WriteFailed(dest))
      && dest in run.artifacts
      && run.artifacts[dest] == Flushed(Link(locPath, e.name), p.outcome(dest).written)
    decreases |files|
  {
    var dest := Destination(p, sourceDir, files[0].name);
    RunStep(files, sourceDir, locPath, p, fs);
    if p.outcome(dest) == Stored {
      var tail := files[1..];
      var k := FirstFailure(tail, sourceDir, p);
      assert FirstFailure(files, sourceDir, p) == k + 1;
      RunInterruptedLeavesPartial(tail, sourceDir, locPath, p, fs[dest := Link(locPath, files[0].name)]);
      assert tail[k] == files[k + 1];
    } else {
      assert FirstFailure(files, sourceDir, p) == 0;
    }
  }

  /** A base path with or without its trailing '/' gives the same run. */
  lemma {:induction false} RunIgnoresTrailingSlash(files: seq<FileEntry>, sourceDir: string, locPath: string, p: Platform, fs: Artifacts)
    requires !EndsWith(locPath, "/")
    ensures RunFrom(files, sourceDir, locPath + "/", p, fs) == RunFrom(files, sourceDir, locPath, p, fs)
    decreases |files|
  {
    if files != [] {
      var dest := Destination(p, sourceDir, files[0].name);
      TrailingSlashIrrelevant(locPath, files[0].name);
      RunIgnoresTrailingSlash(files[1..], sourceDir, locPath, p, fs[dest := Link(locPath, files[0].name)]);
    }
  }

  /** Writing `a.jpg` with base path `http://host/assets` on a platform
      that stores everything creates `a.jpg.loc` in the source directory
      holding `http://host/assets/a.jpg`, and succeeds. */
  lemma SingleFileExample(e: FileEntry, sourceDir: string, p: Platform, fs: Artifacts)
    requires e.name == "a.jpg"
    requires forall path :: p.outcome(path) == Stored
    ensures var run := RunFrom([e], sourceDir, "http://host/assets", p, fs);
      var dest := p.combine(sourceDir, "a.jpg.loc");
      && run.result == Success(true)
      && dest in run.artifacts
      && run.artifacts[dest] == "http://host/assets/a.jpg"
  {
    assert ArtifactName("a.jpg") == "a.jpg.loc";
    var base := "http://host/assets";
    assert base[|base| - 1..] == "s";
    assert !EndsWith(base, "/");
    assert [e][1..] == [];
  }
}
