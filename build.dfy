/**
 * The production build script (build.js) over the file-system model: it creates dist/ and
 * dist/js/, rewrites and minifies every top-level .html page into dist/, minifies the three
 * scripts of src/js/ into dist/js/, and mirrors public/ and src/assets/ into dist/. Paths
 * are relative to the project root. The two minifiers are parameters: a result of None
 * stands for a minifier that throws or rejects.
 */
module Build {
  import opened Wrappers
  import opened Text
  import opened HtmlRewrite
  import opened FileSystem
  import opened CopyTrees

  const Dist: Path := ["dist"]
  const DistJs: Path := ["dist", "js"]

  /** No name occurs twice. */
  predicate Distinct(s: seq<string>) {
    forall i, j :: 0 <= i < j < |s| ==> s[i] != s[j]
  }

  /** Where the model's paths differ: dist/js is dist's child, and neither is the root. */
  lemma OutputPaths(q: Path)
    ensures Under(q, DistJs) <==> q == [] || q == Dist || q == DistJs
    ensures Under(q, Dist) <==> q == [] || q == Dist
  {
    if Under(q, DistJs) && |q| == 2 {
      assert q == DistJs[..2];
    }
    if Under(q, DistJs) && |q| == 1 {
      assert q == DistJs[..1];
    }
  }

  /**
   * The output directories (build.js:26-31): each of dist and dist/js is created, with its
   * missing ancestors, unless something already exists under that name. A file named dist
   * would make mkdirSync throw for dist/js, so it is excluded.
   */
  method PrepareOutput(disk: Disk)
    requires WellFormed(disk.fs) && (Dist in disk.fs ==> disk.fs[Dist] == Dir)
    modifies disk
    ensures WellFormed(disk.fs) && Dist in disk.fs && disk.fs[Dist] == Dir && DistJs in disk.fs
    ensures forall q :: q in disk.fs <==> q in old(disk.fs) || q == Dist || q == DistJs
    ensures forall q :: q in old(disk.fs) ==> disk.fs[q] == old(disk.fs)[q]
    ensures DistJs !in old(disk.fs) ==> disk.fs[DistJs] == Dir
  {
    forall q | Under(q, Dist)
      ensures q in disk.fs ==> disk.fs[q] == Dir
    {
      OutputPaths(q);
    }
    if !disk.Exists(Dist) {
      disk.MakeDirs(Dist);
    }
    forall q | true
      ensures Under(q, Dist) <==> q == [] || q == Dist
      ensures Under(q, DistJs) <==> q == [] || q == Dist || q == DistJs
    {
      OutputPaths(q);
    }
    if !disk.Exists(DistJs) {
      disk.MakeDirs(DistJs);
    }
  }

  /** The top-level names that end with .html (build.js:35), in the order they were listed. */
  function HtmlFiles(names: seq<string>): (r: seq<string>)
    ensures forall n :: n in r <==> n in names && EndsWith(n, ".html")
    ensures |r| <= |names|
  {
    if names == [] then []
    else (if EndsWith(names[0], ".html") then [names[0]] else []) + HtmlFiles(names[1..])
  }

  /** Filtering a list without repetitions gives a list without repetitions. */
  lemma {:induction false} HtmlFilesDistinct(names: seq<string>)
    requires Distinct(names)
    ensures Distinct(HtmlFiles(names))
  {
    if names != [] {
      var rest := HtmlFiles(names[1..]);
      HtmlFilesDistinct(names[1..]);
      assert names[0] !in names[1..] by {
        forall k | 0 <= k < |names| - 1
          ensures names[1..][k] != names[0]
        {
          assert names[1..][k] == names[k + 1];
        }
      }
      var head := if EndsWith(names[0], ".html") then [names[0]] else [];
      assert HtmlFiles(names) == head + rest;
      forall i, j | 0 <= i < j < |head + rest|
        ensures (head + rest)[i] != (head + rest)[j]
      {
        if i < |head| {
          assert (head + rest)[j] == rest[j - |head|];
          assert rest[j - |head|] in rest;
        } else {
          assert (head + rest)[i] == rest[i - |head|] && (head + rest)[j] == rest[j - |head|];
        }
      }
    }
  }

  /**
   * What build.js:42-53 makes of the page f: its text, rewritten and minified, or None when
   * f is not a readable file or the minifier throws.
   */
  function PageOutput(fs: Tree, f: string, minifyHtml: string -> Option<string>): (r: Option<string>)
    ensures r.Some? ==> [f] in fs && fs[[f]].File?
    ensures [f] in fs && fs[[f]].File? ==> r == minifyHtml(RewriteHtml(fs[[f]].data))
    ensures [f] in fs && fs[[f]].File? && !Contains(fs[[f]].data, CdnScriptTag) && !Contains(fs[[f]].data, SourceStylesheet) ==>
      r == minifyHtml(fs[[f]].data)
  {
    if [f] in fs && fs[[f]].File? then minifyHtml(RewriteHtml(fs[[f]].data)) else None
  }

  /** The page f reaches dist/f: it has an output and dist/f can be written. */
  predicate PagePublished(fs: Tree, f: string, minifyHtml: string -> Option<string>) {
    PageOutput(fs, f, minifyHtml).Some? && CanWrite(fs, Dist + [f])
  }

  /** The two lines build.js logs per page: a tick, or an error caught by the try/catch. */
  datatype PageOutcome = PageWritten(file: string) | PageFailed(file: string)

  function PageOutcomeOf(fs: Tree, f: string, minifyHtml: string -> Option<string>): (r: PageOutcome)
    ensures r.file == f && (r.PageWritten? <==> PagePublished(fs, f, minifyHtml))
  {
    if PagePublished(fs, f, minifyHtml) then PageWritten(f) else PageFailed(f)
  }

  /**
   * A page's fate depends only on its own entry, on dist and on dist/f: a tree that keeps
   * those three gives the same outcome and the same output.
   */
  lemma PageLocal(fs0: Tree, fs: Tree, f: string, minifyHtml: string -> Option<string>)
    requires Kept(fs0, fs, [f]) && Kept(fs0, fs, Dist) && Kept(fs0, fs, Dist + [f])
    ensures PageOutput(fs, f, minifyHtml) == PageOutput(fs0, f, minifyHtml)
    ensures PagePublished(fs, f, minifyHtml) == PagePublished(fs0, f, minifyHtml)
  {
    assert Parent(Dist + [f]) == Dist;
  }

  /** q is not dist/f for any page f that was written. */
  ghost predicate NotWritten(q: Path, files: seq<string>, log: seq<PageOutcome>) {
    forall k :: 0 <= k < |files| && k < |log| && log[k].PageWritten? ==> q != Dist + [files[k]]
  }

  /** The state of the page loop after its first i pages. */
  ghost predicate PagesDone(fs0: Tree, fs: Tree, files: seq<string>, log: seq<PageOutcome>, i: nat,
                            minifyHtml: string -> Option<string>) {
    i <= |files| && |log| == i && WellFormed(fs) &&
    (forall k :: 0 <= k < i ==> log[k] == PageOutcomeOf(fs0, files[k], minifyHtml)) &&
    (forall k :: 0 <= k < i && log[k].PageWritten? ==>
      Dist + [files[k]] in fs && fs[Dist + [files[k]]] == File(PageOutput(fs0, files[k], minifyHtml).value)) &&
    (forall q :: NotWritten(q, files, log) ==> Kept(fs0, fs, q))
  }

  /** One more page: reading it and dist/f see the original tree, and only dist/f may change. */
  lemma PageStep(fs0: Tree, fs: Tree, fs': Tree, files: seq<string>, log: seq<PageOutcome>, i: nat,
                 minifyHtml: string -> Option<string>)
    requires Distinct(files) && i < |files| && PagesDone(fs0, fs, files, log, i, minifyHtml)
    requires WellFormed(fs')
    requires PagePublished(fs, files[i], minifyHtml) ==>
      fs' == fs[Dist + [files[i]] := File(PageOutput(fs, files[i], minifyHtml).value)]
    requires !PagePublished(fs, files[i], minifyHtml) ==> fs' == fs
    ensures PagePublished(fs, files[i], minifyHtml) == PagePublished(fs0, files[i], minifyHtml)
    ensures PagesDone(fs0, fs', files, log + [PageOutcomeOf(fs, files[i], minifyHtml)], i + 1, minifyHtml)
  {
    var f := files[i];
    assert NotWritten([f], files, log);
    assert NotWritten(Dist, files, log);
    assert NotWritten(Dist + [f], files, log) by {
      forall k | 0 <= k < |files| && k < |log| && log[k].PageWritten?
        ensures Dist + [f] != Dist + [files[k]]
      {
        assert (Dist + [f])[1] == f && (Dist + [files[k]])[1] == files[k];
      }
    }
    PageLocal(fs0, fs, f, minifyHtml);
    var log' := log + [PageOutcomeOf(fs, f, minifyHtml)];
    forall q | NotWritten(q, files, log')
      ensures Kept(fs0, fs', q)
    {
      assert NotWritten(q, files, log) by {
        forall k | 0 <= k < |files| && k < |log| && log[k].PageWritten?
          ensures q != Dist + [files[k]]
        {
          assert log'[k] == log[k];
        }
      }
      if PagePublished(fs, f, minifyHtml) {
        assert log'[i].PageWritten?;
      }
    }
    forall k | 0 <= k < i + 1 && log'[k].PageWritten?
      ensures Dist + [files[k]] in fs' && fs'[Dist + [files[k]]] == File(PageOutput(fs0, files[k], minifyHtml).value)
    {
      if k < i {
        assert log'[k] == log[k];
        assert Dist + [files[k]] != Dist + [f] by {
          assert (Dist + [f])[1] == f && (Dist + [files[k]])[1] == files[k];
        }
      }
    }
  }

  /**
   * The page loop (build.js:35-59): every top-level .html file is read, its CDN tag and
   * stylesheet link rewritten, minified and written to dist under the same name. A page
   * that cannot be read, minified or written is logged as failed and the loop goes on.
   */
  method BuildHtml(disk: Disk, minifyHtml: string -> Option<string>) returns (files: seq<string>, log: seq<PageOutcome>)
    requires WellFormed(disk.fs) && Dist in disk.fs && disk.fs[Dist] == Dir
    modifies disk
    ensures forall n :: n in files <==> [n] in old(disk.fs) && EndsWith(n, ".html")
    ensures Distinct(files)
    ensures PagesDone(old(disk.fs), disk.fs, files, log, |files|, minifyHtml)
  {
    var names := disk.ReadDir([]);
    files := HtmlFiles(names);
    forall n
      ensures n in files <==> [n] in old(disk.fs) && EndsWith(n, ".html")
    {
      assert [] + [n] == [n];
    }
    HtmlFilesDistinct(names);
    log := [];
    var i := 0;
    while i < |files|
      invariant PagesDone(old(disk.fs), disk.fs, files, log, i, minifyHtml)
    {
      ghost var before := disk.fs;
      var f := files[i];
      var page := disk.ReadFile([f]);
      var outcome := PageFailed(f);
      if page.Some? {
        var minified := minifyHtml(RewriteHtml(page.value));
        if minified.Some? {
          var ok := disk.WriteFile(Dist + [f], minified.value);
          if ok {
            outcome := PageWritten(f);
          }
        }
      }
      PageStep(old(disk.fs), before, disk.fs, files, log, i, minifyHtml);
      log := log + [outcome];
      i := i + 1;
    }
  }

  /** The scripts build.js minifies (build.js:63), each read from src/js and written to dist/js. */
  const JsFiles: seq<string> := ["main.js", "gallery.js", "contact-form.js"]

  function JsSource(f: string): Path {
    ["src", "js", f]
  }

  function JsTarget(f: string): Path {
    DistJs + [f]
  }

  lemma JsFilesDistinct()
    ensures Distinct(JsFiles)
  {
    assert JsFiles[0][0] == 'm' && JsFiles[1][0] == 'g' && JsFiles[2][0] == 'c';
  }

  /**
   * What the synchronous part of the script loop leaves behind for one script: nothing (no
   * such entry), a read error, or the code handed to the asynchronous minifier.
   */
  datatype JsJob = Missing(file: string) | Unreadable(file: string) | Pending(file: string, code: string)

  /** job is what build.js:66-80 makes of the script f in the tree fs. */
  predicate JobFor(fs: Tree, f: string, job: JsJob)
    ensures JobFor(fs, f, job) ==> (job.Unreadable? <==> JsSource(f) in fs && fs[JsSource(f)].Dir?)
  {
    job.file == f &&
    (job.Missing? <==> JsSource(f) !in fs) &&
    (job.Pending? <==> JsSource(f) in fs && fs[JsSource(f)].File?) &&
    (job.Pending? ==> fs[JsSource(f)] == File(job.code))
  }

  /**
   * The synchronous part of the script loop (build.js:65-82): scripts that do not exist are
   * skipped silently, a script that cannot be read is logged, and the code of every other
   * script is passed to the minifier, whose result arrives later.
   */
  method StartJs(disk: Disk) returns (jobs: seq<JsJob>)
    ensures |jobs| == |JsFiles|
    ensures forall k :: 0 <= k < |jobs| ==> JobFor(disk.fs, JsFiles[k], jobs[k])
  {
    jobs := [];
    for k := 0 to |JsFiles|
      invariant |jobs| == k
      invariant forall j :: 0 <= j < k ==> JobFor(disk.fs, JsFiles[j], jobs[j])
    {
      var f := JsFiles[k];
      var job;
      if !disk.Exists(JsSource(f)) {
        job := Missing(f);
      } else {
        var code := disk.ReadFile(JsSource(f));
        job := if code.Some? then Pending(f, code.value) else Unreadable(f);
      }
      jobs := jobs + [job];
    }
  }

  /**
   * What build.js logs per script: nothing for a missing one, a read error, a tick, or a
   * minify error. A write that throws inside the promise's then lands in its catch, so it
   * is logged as a minify error too.
   */
  datatype JsOutcome = Skipped(file: string) | ReadError(file: string) | Written(file: string) | MinifyError(file: string)

  function JsResult(fs: Tree, job: JsJob, minifyJs: string -> Option<string>): (r: JsOutcome)
    ensures r.file == job.file
    ensures r.Written? <==> job.Pending? && minifyJs(job.code).Some? && CanWrite(fs, JsTarget(job.file))
    ensures r.Skipped? <==> job.Missing?
    ensures r.ReadError? <==> job.Unreadable?
  {
    match job
    case Missing(f) => Skipped(f)
    case Unreadable(f) => ReadError(f)
    case Pending(f, code) =>
      if minifyJs(code).Some? && CanWrite(fs, JsTarget(f)) then Written(f) else MinifyError(f)
  }

  /** A script's outcome depends only on dist/js and its own target. */
  lemma JsLocal(fs0: Tree, fs: Tree, job: JsJob, minifyJs: string -> Option<string>)
    requires Kept(fs0, fs, DistJs) && Kept(fs0, fs, JsTarget(job.file))
    ensures JsResult(fs, job, minifyJs) == JsResult(fs0, job, minifyJs)
  {
    assert Parent(JsTarget(job.file)) == DistJs;
  }

  /** No two jobs are for the same script. */
  predicate DistinctJobs(jobs: seq<JsJob>) {
    forall i, j :: 0 <= i < j < |jobs| ==> jobs[i].file != jobs[j].file
  }

  /** q is not the target of any script that was written. */
  ghost predicate NoScriptAt(q: Path, jobs: seq<JsJob>, log: seq<JsOutcome>) {
    forall k :: 0 <= k < |jobs| && k < |log| && log[k].Written? ==> q != JsTarget(jobs[k].file)
  }

  /** The state of the asynchronous writes after the first i scripts. */
  ghost predicate ScriptsDone(fs0: Tree, fs: Tree, jobs: seq<JsJob>, log: seq<JsOutcome>, i: nat,
                              minifyJs: string -> Option<string>) {
    i <= |jobs| && |log| == i && WellFormed(fs) &&
    (forall k :: 0 <= k < i ==> log[k] == JsResult(fs0, jobs[k], minifyJs)) &&
    (forall k :: 0 <= k < i && log[k].Written? ==>
      JsTarget(jobs[k].file) in fs && fs[JsTarget(jobs[k].file)] == File(minifyJs(jobs[k].code).value)) &&
    (forall q :: NoScriptAt(q, jobs, log) ==> Kept(fs0, fs, q))
  }

  /** One more script: its outcome is the one the original tree gives, and only its target may change. */
  lemma ScriptStep(fs0: Tree, fs: Tree, fs': Tree, jobs: seq<JsJob>, log: seq<JsOutcome>, i: nat,
                   minifyJs: string -> Option<string>)
    requires DistinctJobs(jobs) && i < |jobs| && ScriptsDone(fs0, fs, jobs, log, i, minifyJs)
    requires WellFormed(fs')
    requires JsResult(fs, jobs[i], minifyJs).Written? ==>
      fs' == fs[JsTarget(jobs[i].file) := File(minifyJs(jobs[i].code).value)]
    requires !JsResult(fs, jobs[i], minifyJs).Written? ==> fs' == fs
    ensures ScriptsDone(fs0, fs', jobs, log + [JsResult(fs, jobs[i], minifyJs)], i + 1, minifyJs)
  {
    var t := JsTarget(jobs[i].file);
    assert NoScriptAt(DistJs, jobs, log);
    assert NoScriptAt(t, jobs, log) by {
      forall k | 0 <= k < |jobs| && k < |log| && log[k].Written?
        ensures t != JsTarget(jobs[k].file)
      {
        assert t[2] == jobs[i].file && JsTarget(jobs[k].file)[2] == jobs[k].file;
      }
    }
    JsLocal(fs0, fs, jobs[i], minifyJs);
    var log' := log + [JsResult(fs, jobs[i], minifyJs)];
    forall q | NoScriptAt(q, jobs, log')
      ensures Kept(fs0, fs', q)
    {
      assert NoScriptAt(q, jobs, log) by {
        forall k | 0 <= k < |jobs| && k < |log| && log[k].Written?
          ensures q != JsTarget(jobs[k].file)
        {
          assert log'[k] == log[k];
        }
      }
      if JsResult(fs, jobs[i], minifyJs).Written? {
        assert log'[i].Written?;
      }
    }
    forall k | 0 <= k < i + 1 && log'[k].Written?
      ensures JsTarget(jobs[k].file) in fs' && fs'[JsTarget(jobs[k].file)] == File(minifyJs(jobs[k].code).value)
    {
      if k < i {
        assert log'[k] == log[k];
        assert JsTarget(jobs[k].file) != t by {
          assert t[2] == jobs[i].file && JsTarget(jobs[k].file)[2] == jobs[k].file;
        }
      }
    }
  }

  /**
   * The asynchronous part (build.js:72-77): each minified script is written to dist/js under
   * its own name once the minifier's promise resolves. The model runs the callbacks in
   * list order.
   */
  method FinishJs(disk: Disk, jobs: seq<JsJob>, minifyJs: string -> Option<string>) returns (log: seq<JsOutcome>)
    requires WellFormed(disk.fs) && DistinctJobs(jobs)
    modifies disk
    ensures ScriptsDone(old(disk.fs), disk.fs, jobs, log, |jobs|, minifyJs)
  {
    log := [];
    var i := 0;
    while i < |jobs|
      invariant ScriptsDone(old(disk.fs), disk.fs, jobs, log, i, minifyJs)
    {
      ghost var before := disk.fs;
      var job := jobs[i];
      var outcome;
      match job {
        case Missing(f) =>
          outcome := Skipped(f);
        case Unreadable(f) =>
          outcome := ReadError(f);
        case Pending(f, code) =>
          outcome := MinifyError(f);
          var minified := minifyJs(code);
          if minified.Some? {
            var ok := disk.WriteFile(JsTarget(f), minified.value);
            if ok {
              outcome := Written(f);
            }
          }
      }
      ScriptStep(old(disk.fs), before, disk.fs, jobs, log, i, minifyJs);
      log := log + [outcome];
      i := i + 1;
    }
  }

  const Public: Path := ["public"]
  const DistPublic: Path := Dist + ["public"]
  const Assets: Path := ["src", "assets"]
  const DistAssets: Path := Dist + ["assets"]

  /** Entries below two different children of one directory are apart. */
  lemma SiblingsApart(p: Path, x: string, y: string, q: Path)
    requires x != y && Under(p + [x], q)
    ensures !Under(p + [y], q) && !Under(q, p + [y])
  {
    assert q[|p|] == (p + [x])[|p|];
  }

  /** The entries the asset copies read or write, and the parents of their destinations. */
  ghost predicate AssetPath(q: Path) {
    Under(Public, q) || Under(Assets, q) || Under(DistPublic, q) || Under(DistAssets, q)
  }

  /** Both copies of build.js:105-117 can run without throwing. */
  ghost predicate CopyReady(fs: Tree) {
    WellFormed(fs) &&
    (Public in fs ==> CanCopy(fs, Public, DistPublic)) &&
    (Assets in fs ==> CanCopy(fs, Assets, DistAssets))
  }

  /** A copy that can run still can once the source, the destination and their parents are kept. */
  lemma CopyableKept(fs: Tree, fs': Tree, src: Path, dest: Path)
    requires CanCopy(fs, src, dest) && WellFormed(fs') && NoFileOn(fs', dest)
    requires forall q :: Under(src, q) || Under(dest, q) ==> Kept(fs, fs', q)
    ensures CanCopy(fs', src, dest)
  {
    assert Under(src, src);
    forall q | q in fs' && Under(src, q) && Moved(src, dest, q) in fs'
      ensures fs'[Moved(src, dest, q)] == Dir <==> fs'[q] == Dir
    {
      assert Under(dest, Moved(src, dest, q));
    }
  }

  /** Which of the fixed output paths a path below dist can be. */
  lemma UnderDistChild(n: string, q: Path)
    requires Under(q, Dist + [n])
    ensures q == [] || q == Dist || q == Dist + [n]
  {
    UnderChild(Dist, n, q);
    OutputPaths(q);
  }

  /**
   * The asset copies stay possible in any tree that is well formed, has dist as a
   * directory and keeps every asset path.
   */
  lemma CopyReadyKept(fs: Tree, fs': Tree)
    requires CopyReady(fs) && WellFormed(fs') && Dist in fs' && fs'[Dist] == Dir
    requires forall q :: AssetPath(q) ==> Kept(fs, fs', q)
    ensures CopyReady(fs')
  {
    assert AssetPath(Public) && AssetPath(Assets);
    assert Under(DistPublic, DistPublic) && Under(DistAssets, DistAssets);
    if Public in fs {
      forall q | Under(q, DistPublic) && q in fs'
        ensures fs'[q] == Dir
      {
        UnderDistChild("public", q);
        assert q == DistPublic ==> AssetPath(q) && Under(q, DistPublic);
      }
      CopyableKept(fs, fs', Public, DistPublic);
    }
    if Assets in fs {
      forall q | Under(q, DistAssets) && q in fs'
        ensures fs'[q] == Dir
      {
        UnderDistChild("assets", q);
        assert q == DistAssets ==> AssetPath(q) && Under(q, DistAssets);
      }
      CopyableKept(fs, fs', Assets, DistAssets);
    }
  }

  /** After public/ is copied, src/assets/ can still be copied. */
  lemma AssetsAfterPublic(fs0: Tree, fs1: Tree)
    requires Assets in fs0 && CanCopy(fs0, Assets, DistAssets)
    requires Copied(fs0, fs1, Public, DistPublic)
    ensures CanCopy(fs1, Assets, DistAssets)
  {
    forall q | Under(Assets, q) || Under(DistAssets, q)
      ensures Kept(fs0, fs1, q)
    {
      if Under(DistAssets, q) {
        SiblingsApart(Dist, "assets", "public", q);
      } else {
        assert q[0] == "src";
        assert !Under(DistPublic, q) && !Under(q, DistPublic);
      }
    }
    forall q | Under(q, DistAssets) && q in fs1
      ensures fs1[q] == Dir
    {
      UnderDistChild("assets", q);
      if q == [] || q == Dist {
        OutputPaths(q);
        UnderChild(Dist, "public", q);
        assert Under(q, DistPublic);
      } else {
        SiblingsApart(Dist, "assets", "public", q);
        assert Under(DistAssets, q);
      }
    }
    CopyableKept(fs0, fs1, Assets, DistAssets);
  }

  /** Every entry of src has its copy at the same place below dest. */
  ghost predicate Mirrors(before: Tree, after: Tree, src: Path, dest: Path) {
    forall q :: q in before && Under(src, q) ==>
      Moved(src, dest, q) in after && after[Moved(src, dest, q)] == before[q]
  }

  /** Below dest, whatever is not the copy of an entry of src is kept. */
  ghost predicate NonCopiesKept(before: Tree, after: Tree, src: Path, dest: Path) {
    forall q :: Under(dest, q) && |q| > |dest| && src + q[|dest|..] !in before ==> Kept(before, after, q)
  }

  /**
   * The asset copies (build.js:104-117): public is mirrored into dist/public and then
   * src/assets into dist/assets, each only when it exists.
   */
  method CopyAssets(disk: Disk)
    requires CopyReady(disk.fs)
    modifies disk
    ensures WellFormed(disk.fs)
    ensures Public in old(disk.fs) ==> Mirrors(old(disk.fs), disk.fs, Public, DistPublic)
    ensures Assets in old(disk.fs) ==> Mirrors(old(disk.fs), disk.fs, Assets, DistAssets)
    ensures Dist in old(disk.fs) && old(disk.fs)[Dist] == Dir ==> Dist in disk.fs && disk.fs[Dist] == Dir
    ensures forall q :: !Under(DistPublic, q) && !Under(DistAssets, q) && !Under(q, Dist) ==>
      Kept(old(disk.fs), disk.fs, q)
    ensures Public !in old(disk.fs) ==> forall q :: Under(DistPublic, q) ==> Kept(old(disk.fs), disk.fs, q)
    ensures Assets !in old(disk.fs) ==> forall q :: Under(DistAssets, q) ==> Kept(old(disk.fs), disk.fs, q)
    ensures Public in old(disk.fs) ==> NonCopiesKept(old(disk.fs), disk.fs, Public, DistPublic)
    ensures Assets in old(disk.fs) ==> NonCopiesKept(old(disk.fs), disk.fs, Assets, DistAssets)
  {
    ghost var fs0 := disk.fs;
    if disk.Exists(Public) {
      CopyDir(disk, Public, DistPublic);
      assert NonCopiesKept(fs0, disk.fs, Public, DistPublic);
      assert Under(Dist, DistPublic);
      forall q | !Under(DistPublic, q) && !Under(q, Dist)
        ensures Kept(fs0, disk.fs, q)
      {
        if Under(q, DistPublic) {
          UnderDistChild("public", q);
        }
      }
    }
    ghost var fs1 := disk.fs;
    if disk.Exists(Assets) {
      if Public in fs0 {
        assert Under(Assets, Assets) && !Under(DistPublic, Assets);
        AssetsAfterPublic(fs0, fs1);
      }
      CopyDir(disk, Assets, DistAssets);
      AssetsCopyKeeps(fs0, fs1, disk.fs);
      AssetsMirrored(fs0, fs1, disk.fs);
      assert NonCopiesKept(fs1, disk.fs, Assets, DistAssets);
      AssetsNonCopiesKept(fs0, fs1, disk.fs);
      AssetsCopyLeavesPublic(fs1, disk.fs);
      if Public in fs0 {
        PublicSurvivesAssets(fs0, fs1, disk.fs);
        NonCopiesThrough(fs0, fs1, disk.fs, Public, DistPublic);
      }
    } else if Public in fs0 {
      forall q | Under(DistAssets, q)
        ensures Kept(fs0, disk.fs, q)
      {
        SiblingsApart(Dist, "assets", "public", q);
        assert |q| >= 2;
      }
    }
  }

  /** The copy of src/assets keeps what lies outside dist/public and dist/assets. */
  lemma AssetsCopyKeeps(fs0: Tree, fs1: Tree, fs2: Tree)
    requires forall q :: !Under(DistPublic, q) && !Under(q, Dist) ==> Kept(fs0, fs1, q)
    requires OutsideKept(fs1, fs2, DistAssets)
    ensures forall q :: !Under(DistPublic, q) && !Under(DistAssets, q) && !Under(q, Dist) ==> Kept(fs0, fs2, q)
  {
    assert Under(Dist, DistAssets);
    forall q | !Under(DistPublic, q) && !Under(DistAssets, q) && !Under(q, Dist)
      ensures Kept(fs0, fs2, q)
    {
      if Under(q, DistAssets) {
        UnderDistChild("assets", q);
      }
    }
  }

  /** The copy of src/assets, read against the tree before both copies, mirrors src/assets. */
  lemma AssetsMirrored(fs0: Tree, fs1: Tree, fs2: Tree)
    requires forall q :: !Under(DistPublic, q) && !Under(q, Dist) ==> Kept(fs0, fs1, q)
    requires Mirrors(fs1, fs2, Assets, DistAssets)
    ensures Mirrors(fs0, fs2, Assets, DistAssets)
  {
    forall q | q in fs0 && Under(Assets, q)
      ensures q in fs1 && fs1[q] == fs0[q]
    {
      assert q[0] == "src";
      assert !Under(DistPublic, q) && !Under(q, Dist);
    }
  }

  /** Below dist/assets, what is not the copy of an entry of src/assets is kept through both copies. */
  lemma AssetsNonCopiesKept(fs0: Tree, fs1: Tree, fs2: Tree)
    requires forall q :: !Under(DistPublic, q) && !Under(q, Dist) ==> Kept(fs0, fs1, q)
    requires NonCopiesKept(fs1, fs2, Assets, DistAssets)
    ensures NonCopiesKept(fs0, fs2, Assets, DistAssets)
  {
    forall q | Under(DistAssets, q) && |q| > |DistAssets| && Assets + q[|DistAssets|..] !in fs0
      ensures Kept(fs0, fs2, q)
    {
      var s := Assets + q[|DistAssets|..];
      assert s[0] == "src";
      assert !Under(DistPublic, s) && !Under(s, Dist);
      SiblingsApart(Dist, "assets", "public", q);
      assert !Under(q, Dist);
    }
  }

  /** A later step that leaves dest alone keeps what an earlier copy kept below it. */
  lemma NonCopiesThrough(fs0: Tree, fs1: Tree, fs2: Tree, src: Path, dest: Path)
    requires NonCopiesKept(fs0, fs1, src, dest)
    requires forall q :: Under(dest, q) ==> Kept(fs1, fs2, q)
    ensures NonCopiesKept(fs0, fs2, src, dest)
  {
  }

  /** The copy of src/assets leaves the copy of public in place. */
  lemma PublicSurvivesAssets(fs0: Tree, fs1: Tree, fs2: Tree)
    requires Mirrors(fs0, fs1, Public, DistPublic)
    requires OutsideKept(fs1, fs2, DistAssets)
    ensures Mirrors(fs0, fs2, Public, DistPublic)
  {
    forall q | q in fs0 && Under(Public, q)
      ensures Moved(Public, DistPublic, q) in fs2 && fs2[Moved(Public, DistPublic, q)] == fs0[q]
    {
      var m := Moved(Public, DistPublic, q);
      assert Under(DistPublic, m);
      SiblingsApart(Dist, "public", "assets", m);
    }
  }

  /** With no public tree, the copy of src/assets leaves dist/public alone. */
  lemma AssetsCopyLeavesPublic(fs1: Tree, fs2: Tree)
    requires OutsideKept(fs1, fs2, DistAssets)
    ensures forall q :: Under(DistPublic, q) ==> Kept(fs1, fs2, q)
  {
    forall q | Under(DistPublic, q)
      ensures Kept(fs1, fs2, q)
    {
      SiblingsApart(Dist, "public", "assets", q);
      assert |q| >= 2;
    }
  }

  /** A page name is none of the fixed names build.js writes below dist. */
  lemma PageNames(f: string)
    requires EndsWith(f, ".html")
    ensures f != "dist" && f != "js" && f != "public" && f != "assets"
  {
    assert f[|f| - 5] == '.';
  }

  /** Neither an asset path nor a written page can be a script's target. */
  lemma NoScriptTarget(q: Path, jobs: seq<JsJob>, log: seq<JsOutcome>)
    requires |q| != 3 || q[1] != "js"
    ensures NoScriptAt(q, jobs, log)
  {
  }

  /** The asset paths are none of the paths the preparation and the page loop write. */
  lemma AssetPathsApart(q: Path, f: string)
    requires AssetPath(q) && f != "public" && f != "assets"
    ensures q != Dist && q != DistJs && q != Dist + [f]
  {
    if Under(Public, q) {
      assert q[0] == "public";
    } else if Under(Assets, q) {
      assert q[0] == "src";
    } else if Under(DistPublic, q) {
      assert |q| >= 2 && q[1] == "public";
      assert (Dist + [f])[1] == f;
    } else {
      assert |q| >= 2 && q[1] == "assets";
      assert (Dist + [f])[1] == f;
    }
  }

  /** Preparing dist and running the page loop leave every asset path as it was. */
  lemma AssetsSurvivePages(fs0: Tree, fs1: Tree, fs2: Tree, pages: seq<string>, log: seq<PageOutcome>)
    requires forall q :: q in fs1 <==> q in fs0 || q == Dist || q == DistJs
    requires forall q :: q in fs0 ==> fs1[q] == fs0[q]
    requires forall n :: n in pages ==> EndsWith(n, ".html")
    requires forall q :: NotWritten(q, pages, log) ==> Kept(fs1, fs2, q)
    ensures forall q :: AssetPath(q) ==> Kept(fs0, fs2, q)
  {
    forall q | AssetPath(q)
      ensures Kept(fs0, fs2, q)
    {
      forall k | 0 <= k < |pages| && k < |log| && log[k].PageWritten?
        ensures q != Dist + [pages[k]]
      {
        assert pages[k] in pages;
        PageNames(pages[k]);
        AssetPathsApart(q, pages[k]);
      }
      assert NotWritten(q, pages, log);
      AssetPathsApart(q, "");
    }
  }

  /** The page phase leaves the scripts' sources as they were. */
  lemma SourcesSurvivePages(fs0: Tree, fs2: Tree, pages: seq<string>, log: seq<PageOutcome>, jobs: seq<JsJob>)
    requires forall q :: q != Dist && q != DistJs && NotWritten(q, pages, log) ==> Kept(fs0, fs2, q)
    requires |jobs| == |JsFiles| && forall k :: 0 <= k < |jobs| ==> JobFor(fs2, JsFiles[k], jobs[k])
    ensures forall k :: 0 <= k < |jobs| ==> JobFor(fs0, JsFiles[k], jobs[k])
  {
    forall k | 0 <= k < |jobs|
      ensures JobFor(fs0, JsFiles[k], jobs[k])
    {
      var src := JsSource(JsFiles[k]);
      assert NotWritten(src, pages, log);
      assert src != Dist && src != DistJs;
    }
  }

  /** What build.js needs of the project tree to run to its end without an uncaught exception. */
  ghost predicate Buildable(fs: Tree) {
    CopyReady(fs) && (Dist in fs ==> fs[Dist] == Dir)
  }

  /** The page f reaches dist/f: it has an output and the original tree has no directory at dist/f. */
  predicate PageGoesOut(fs: Tree, f: string, minifyHtml: string -> Option<string>) {
    PageOutput(fs, f, minifyHtml).Some? && !(Dist + [f] in fs && fs[Dist + [f]] == Dir)
  }

  /** Once dist and dist/js are in place, a page is published exactly when it goes out. */
  lemma PreparedPage(fs0: Tree, fs1: Tree, f: string, minifyHtml: string -> Option<string>)
    requires EndsWith(f, ".html") && Dist in fs1 && fs1[Dist] == Dir
    requires forall q :: q in fs1 <==> q in fs0 || q == Dist || q == DistJs
    requires forall q :: q in fs0 ==> fs1[q] == fs0[q]
    ensures PageOutput(fs1, f, minifyHtml) == PageOutput(fs0, f, minifyHtml)
    ensures PagePublished(fs1, f, minifyHtml) <==> PageGoesOut(fs0, f, minifyHtml)
  {
    PageNames(f);
    assert Parent(Dist + [f]) == Dist;
    assert [f] != Dist && Dist + [f] != DistJs && Dist + [f] != Dist;
  }

  /** q is where one of the copies puts an entry that public or src/assets holds. */
  ghost predicate CopyTarget(fs: Tree, q: Path) {
    (Public in fs && Under(DistPublic, q) && Public + q[|DistPublic|..] in fs) ||
    (Assets in fs && Under(DistAssets, q) && Assets + q[|DistAssets|..] in fs)
  }

  /** An existing source tree makes its destination directory a copy target. */
  lemma CopyTargetAtDest(fs: Tree)
    ensures Public in fs ==> CopyTarget(fs, DistPublic)
    ensures Assets in fs ==> CopyTarget(fs, DistAssets)
  {
    assert Public + DistPublic[|DistPublic|..] == Public;
    assert Assets + DistAssets[|DistAssets|..] == Assets;
  }

  /** dist/js and the scripts in it are no copy targets: the copies land in dist/public and dist/assets. */
  lemma NotCopiedScript(fs: Tree, q: Path)
    requires Under(DistJs, q)
    ensures q != Dist && !CopyTarget(fs, q)
  {
    assert q[1] == DistJs[1] == "js";
    assert DistPublic[1] == "public" && DistAssets[1] == "assets";
  }

  /** Below dist/public, the copies keep whatever is not the copy of an entry of public. */
  lemma CopiesKeepPublic(fs2: Tree, fs3: Tree, q: Path)
    requires Under(DistPublic, q) && !CopyTarget(fs2, q)
    requires Public !in fs2 ==> forall q :: Under(DistPublic, q) ==> Kept(fs2, fs3, q)
    requires Public in fs2 ==> NonCopiesKept(fs2, fs3, Public, DistPublic)
    ensures Kept(fs2, fs3, q)
  {
    CopyTargetAtDest(fs2);
    if Public in fs2 {
      assert q != DistPublic;
    }
  }

  /** Below dist/assets, the copies keep whatever is not the copy of an entry of src/assets. */
  lemma CopiesKeepAssets(fs2: Tree, fs3: Tree, q: Path)
    requires Under(DistAssets, q) && !CopyTarget(fs2, q)
    requires Assets !in fs2 ==> forall q :: Under(DistAssets, q) ==> Kept(fs2, fs3, q)
    requires Assets in fs2 ==> NonCopiesKept(fs2, fs3, Assets, DistAssets)
    ensures Kept(fs2, fs3, q)
  {
    CopyTargetAtDest(fs2);
    if Assets in fs2 {
      assert q != DistAssets;
    }
  }

  /** The copies keep every entry that is neither dist nor the copy of an existing asset. */
  lemma CopiesKeep(fs2: Tree, fs3: Tree, q: Path)
    requires WellFormed(fs2) && WellFormed(fs3)
    requires forall q :: !Under(DistPublic, q) && !Under(DistAssets, q) && !Under(q, Dist) ==> Kept(fs2, fs3, q)
    requires Public !in fs2 ==> forall q :: Under(DistPublic, q) ==> Kept(fs2, fs3, q)
    requires Assets !in fs2 ==> forall q :: Under(DistAssets, q) ==> Kept(fs2, fs3, q)
    requires Public in fs2 ==> NonCopiesKept(fs2, fs3, Public, DistPublic)
    requires Assets in fs2 ==> NonCopiesKept(fs2, fs3, Assets, DistAssets)
    requires q != Dist && !CopyTarget(fs2, q)
    ensures Kept(fs2, fs3, q)
  {
    if Under(DistPublic, q) {
      CopiesKeepPublic(fs2, fs3, q);
    } else if Under(DistAssets, q) {
      CopiesKeepAssets(fs2, fs3, q);
    } else if Under(q, Dist) {
      OutputPaths(q);
    }
  }

  /** A mirrored tree is still in place after the script writes. */
  lemma MirrorSurvives(fs2: Tree, fs3: Tree, fs4: Tree, src: Path, dest: Path, jobs: seq<JsJob>, log: seq<JsOutcome>)
    requires (src == Public && dest == DistPublic) || (src == Assets && dest == DistAssets)
    requires Mirrors(fs2, fs3, src, dest)
    requires forall q :: NoScriptAt(q, jobs, log) ==> Kept(fs3, fs4, q)
    ensures Mirrors(fs2, fs4, src, dest)
  {
    forall q | q in fs2 && Under(src, q)
      ensures Moved(src, dest, q) in fs4 && fs4[Moved(src, dest, q)] == fs2[q]
    {
      var m := Moved(src, dest, q);
      assert m[1] == dest[1];
      NoScriptTarget(m, jobs, log);
    }
  }

  /**
   * What build.js does once the scripts have been read (build.js:72-117): the asset copies
   * run at once, and the minifiers' promises settle afterwards, in list order in the model.
   * Only dist, the written scripts and the copies of existing assets can change.
   */
  method CopyAssetsThenScripts(disk: Disk, jobs: seq<JsJob>, minifyJs: string -> Option<string>) returns (log: seq<JsOutcome>)
    requires CopyReady(disk.fs) && DistinctJobs(jobs)
    modifies disk
    ensures WellFormed(disk.fs)
    ensures Dist in old(disk.fs) && old(disk.fs)[Dist] == Dir ==> Dist in disk.fs && disk.fs[Dist] == Dir
    ensures |log| == |jobs|
    ensures forall k :: 0 <= k < |jobs| ==> log[k].file == jobs[k].file
    ensures forall k :: 0 <= k < |jobs| ==> (log[k].Skipped? <==> jobs[k].Missing?) && (log[k].ReadError? <==> jobs[k].Unreadable?)
    ensures forall k :: 0 <= k < |jobs| && log[k].Written? ==>
      jobs[k].Pending? && minifyJs(jobs[k].code).Some? &&
      JsTarget(jobs[k].file) in disk.fs && disk.fs[JsTarget(jobs[k].file)] == File(minifyJs(jobs[k].code).value)
    ensures forall k :: 0 <= k < |jobs| ==> log[k] == JsResult(old(disk.fs), jobs[k], minifyJs)
    ensures Public in old(disk.fs) ==> Mirrors(old(disk.fs), disk.fs, Public, DistPublic)
    ensures Assets in old(disk.fs) ==> Mirrors(old(disk.fs), disk.fs, Assets, DistAssets)
    ensures forall q :: q != Dist && NoScriptAt(q, jobs, log) && !CopyTarget(old(disk.fs), q) ==> Kept(old(disk.fs), disk.fs, q)
  {
    ghost var fs2 := disk.fs;
    CopyAssets(disk);
    ghost var fs3 := disk.fs;
    forall q | q != Dist && !CopyTarget(fs2, q)
      ensures Kept(fs2, fs3, q)
    {
      CopiesKeep(fs2, fs3, q);
    }
    forall k | 0 <= k < |jobs|
      ensures JsResult(fs3, jobs[k], minifyJs) == JsResult(fs2, jobs[k], minifyJs)
    {
      NotCopiedScript(fs2, DistJs);
      NotCopiedScript(fs2, JsTarget(jobs[k].file));
      JsLocal(fs2, fs3, jobs[k], minifyJs);
    }
    log := FinishJs(disk, jobs, minifyJs);
    NoScriptTarget(Dist, jobs, log);
    if Public in fs2 {
      MirrorSurvives(fs2, fs3, disk.fs, Public, DistPublic, jobs, log);
    }
    if Assets in fs2 {
      MirrorSurvives(fs2, fs3, disk.fs, Assets, DistAssets, jobs, log);
    }
  }

  /**
   * q is none of the entries the build may write: dist, dist/js, a written page, a written
   * script or the copy of an entry of public or src/assets.
   */
  ghost predicate LeftAlone(fs0: Tree, q: Path, pages: seq<string>, pageLog: seq<PageOutcome>,
                            jobs: seq<JsJob>, scriptLog: seq<JsOutcome>) {
    q != Dist && q != DistJs && NotWritten(q, pages, pageLog) && NoScriptAt(q, jobs, scriptLog) && !CopyTarget(fs0, q)
  }

  /** The page phase keeps public and src/assets, so the copies' targets are the same read from either tree. */
  lemma CopyTargetsKept(fs0: Tree, fs2: Tree, q: Path)
    requires forall q :: AssetPath(q) ==> Kept(fs0, fs2, q)
    ensures CopyTarget(fs2, q) == CopyTarget(fs0, q)
  {
    assert AssetPath(Public) && AssetPath(Assets);
    if Under(DistPublic, q) {
      assert AssetPath(Public + q[|DistPublic|..]);
    }
    if Under(DistAssets, q) {
      assert AssetPath(Assets + q[|DistAssets|..]);
    }
  }

  /** Inside dist as outside it, whatever the build does not write is kept. */
  lemma LeftAloneKept(fs0: Tree, fs2: Tree, fs4: Tree, pages: seq<string>,
                      pageLog: seq<PageOutcome>, jobs: seq<JsJob>, scriptLog: seq<JsOutcome>)
    requires forall q :: q != Dist && q != DistJs && NotWritten(q, pages, pageLog) ==> Kept(fs0, fs2, q)
    requires forall q :: AssetPath(q) ==> Kept(fs0, fs2, q)
    requires forall q :: q != Dist && NoScriptAt(q, jobs, scriptLog) && !CopyTarget(fs2, q) ==> Kept(fs2, fs4, q)
    ensures forall q :: LeftAlone(fs0, q, pages, pageLog, jobs, scriptLog) ==> Kept(fs0, fs4, q)
  {
    forall q | LeftAlone(fs0, q, pages, pageLog, jobs, scriptLog)
      ensures Kept(fs0, fs4, q)
    {
      CopyTargetsKept(fs0, fs2, q);
    }
  }

  /** The build writes only below dist: every other entry of the project, sources included, is kept. */
  lemma OutsideDistKept(fs0: Tree, fs4: Tree, pages: seq<string>,
                        pageLog: seq<PageOutcome>, jobs: seq<JsJob>, scriptLog: seq<JsOutcome>)
    requires forall q :: LeftAlone(fs0, q, pages, pageLog, jobs, scriptLog) ==> Kept(fs0, fs4, q)
    ensures forall q :: !Under(Dist, q) ==> Kept(fs0, fs4, q)
  {
    forall q | !Under(Dist, q)
      ensures Kept(fs0, fs4, q)
    {
      assert Under(Dist, Dist) && Under(Dist, DistJs) && Under(Dist, DistPublic) && Under(Dist, DistAssets);
      forall k | 0 <= k < |pages|
        ensures q != Dist + [pages[k]]
      {
        assert Under(Dist, Dist + [pages[k]]);
      }
      forall k | 0 <= k < |jobs|
        ensures q != JsTarget(jobs[k].file)
      {
        assert Under(Dist, JsTarget(jobs[k].file));
      }
      assert LeftAlone(fs0, q, pages, pageLog, jobs, scriptLog);
    }
  }

  /** A script that is not written leaves its target in dist/js as it was. */
  lemma UnwrittenScriptKept(fs0: Tree, fs4: Tree, pages: seq<string>,
                            pageLog: seq<PageOutcome>, jobs: seq<JsJob>, scriptLog: seq<JsOutcome>, k: nat)
    requires forall q :: LeftAlone(fs0, q, pages, pageLog, jobs, scriptLog) ==> Kept(fs0, fs4, q)
    requires |jobs| == |JsFiles| && |scriptLog| == |jobs| && forall j :: 0 <= j < |jobs| ==> jobs[j].file == JsFiles[j]
    requires k < |jobs| && !scriptLog[k].Written?
    ensures Kept(fs0, fs4, JsTarget(JsFiles[k]))
  {
    var q := JsTarget(JsFiles[k]);
    assert |q| == 3 && q[1] == "js";
    JsFilesDistinct();
    forall j | 0 <= j < |jobs| && scriptLog[j].Written?
      ensures q != JsTarget(jobs[j].file)
    {
      assert JsTarget(jobs[j].file)[2] == JsFiles[j];
    }
    assert LeftAlone(fs0, q, pages, pageLog, jobs, scriptLog);
  }

  /** An asset tree that does not exist leaves its destination below dist as it was. */
  lemma AbsentAssetsKept(fs0: Tree, fs4: Tree, pages: seq<string>,
                         pageLog: seq<PageOutcome>, jobs: seq<JsJob>, scriptLog: seq<JsOutcome>, src: Path, dest: Path)
    requires (src == Public && dest == DistPublic) || (src == Assets && dest == DistAssets)
    requires src !in fs0
    requires forall q :: LeftAlone(fs0, q, pages, pageLog, jobs, scriptLog) ==> Kept(fs0, fs4, q)
    requires forall k :: 0 <= k < |pages| ==> pages[k] != "public" && pages[k] != "assets"
    ensures forall q :: Under(dest, q) ==> Kept(fs0, fs4, q)
  {
    forall q | Under(dest, q)
      ensures Kept(fs0, fs4, q)
    {
      assert |q| >= 2 && q[1] == dest[1];
      SiblingsApart(Dist, "public", "assets", DistPublic);
      forall k | 0 <= k < |pages|
        ensures q != Dist + [pages[k]]
      {
        assert (Dist + [pages[k]])[1] == pages[k];
      }
      forall k | 0 <= k < |jobs|
        ensures q != JsTarget(jobs[k].file)
      {
        assert JsTarget(jobs[k].file)[1] == "js";
      }
      assert LeftAlone(fs0, q, pages, pageLog, jobs, scriptLog);
    }
  }

  /** build.js deletes nothing: every entry of the project is still there at the end. */
  lemma NothingDeleted(fs0: Tree, fs4: Tree, pages: seq<string>, pageLog: seq<PageOutcome>,
                       jobs: seq<JsJob>, scriptLog: seq<JsOutcome>)
    requires Dist in fs4 && DistJs in fs4
    requires forall q :: LeftAlone(fs0, q, pages, pageLog, jobs, scriptLog) ==> Kept(fs0, fs4, q)
    requires |pageLog| == |pages| && forall k :: 0 <= k < |pages| && pageLog[k].PageWritten? ==> Dist + [pages[k]] in fs4
    requires |scriptLog| == |jobs| && forall k :: 0 <= k < |jobs| && scriptLog[k].Written? ==> JsTarget(jobs[k].file) in fs4
    requires Public in fs0 ==> Mirrors(fs0, fs4, Public, DistPublic)
    requires Assets in fs0 ==> Mirrors(fs0, fs4, Assets, DistAssets)
    ensures forall q :: q in fs0 ==> q in fs4
  {
    forall q | q in fs0
      ensures q in fs4
    {
      if q == Dist || q == DistJs {
      } else if !NotWritten(q, pages, pageLog) {
        var k :| 0 <= k < |pages| && k < |pageLog| && pageLog[k].PageWritten? && q == Dist + [pages[k]];
      } else if !NoScriptAt(q, jobs, scriptLog) {
        var k :| 0 <= k < |jobs| && k < |scriptLog| && scriptLog[k].Written? && q == JsTarget(jobs[k].file);
      } else if Public in fs0 && Under(DistPublic, q) && Public + q[|DistPublic|..] in fs0 {
        assert Moved(Public, DistPublic, Public + q[|DistPublic|..]) == q;
      } else if Assets in fs0 && Under(DistAssets, q) && Assets + q[|DistAssets|..] in fs0 {
        assert Moved(Assets, DistAssets, Assets + q[|DistAssets|..]) == q;
      } else {
        assert LeftAlone(fs0, q, pages, pageLog, jobs, scriptLog);
      }
    }
  }

  /** A page written in the page phase is still in dist at the end. */
  lemma PageSurvives(fs2: Tree, fs4: Tree, f: string, jobs: seq<JsJob>, log: seq<JsOutcome>)
    requires f != "public" && f != "assets"
    requires forall q :: q != Dist && NoScriptAt(q, jobs, log) && !CopyTarget(fs2, q) ==> Kept(fs2, fs4, q)
    ensures Kept(fs2, fs4, Dist + [f])
  {
    var q := Dist + [f];
    assert |q| == 2 && q[1] == f;
    SiblingsApart(Dist, f, "public", q);
    SiblingsApart(Dist, f, "assets", q);
    NoScriptTarget(q, jobs, log);
  }

  /** A mirror made from the tree after the page phase is a mirror of the original tree. */
  lemma MirrorFromStart(fs0: Tree, fs2: Tree, fs4: Tree, src: Path, dest: Path)
    requires src == Public || src == Assets
    requires forall q :: AssetPath(q) ==> Kept(fs0, fs2, q)
    requires Mirrors(fs2, fs4, src, dest)
    ensures Mirrors(fs0, fs4, src, dest)
  {
    forall q | q in fs0 && Under(src, q)
      ensures q in fs2 && fs2[q] == fs0[q]
    {
      assert AssetPath(q);
    }
  }

  /**
   * The page phase of the script (build.js:25-59): dist and dist/js are made, then every
   * top-level page goes out exactly when it can be read and minified and dist has no
   * directory under its name. Nothing but dist, dist/js and the written pages changes.
   */
  method BuildPages(disk: Disk, minifyHtml: string -> Option<string>) returns (pages: seq<string>, pageLog: seq<PageOutcome>)
    requires Buildable(disk.fs)
    modifies disk
    ensures WellFormed(disk.fs) && Dist in disk.fs && disk.fs[Dist] == Dir && DistJs in disk.fs && CopyReady(disk.fs)
    ensures forall n :: n in pages <==> [n] in old(disk.fs) && EndsWith(n, ".html")
    ensures Distinct(pages) && |pageLog| == |pages|
    ensures forall k :: 0 <= k < |pages| ==> pageLog[k].file == pages[k]
    ensures forall k :: 0 <= k < |pages| ==> (pageLog[k].PageWritten? <==> PageGoesOut(old(disk.fs), pages[k], minifyHtml))
    ensures forall k :: 0 <= k < |pages| && PageGoesOut(old(disk.fs), pages[k], minifyHtml) ==>
      Dist + [pages[k]] in disk.fs && disk.fs[Dist + [pages[k]]] == File(PageOutput(old(disk.fs), pages[k], minifyHtml).value)
    ensures forall q :: q != Dist && q != DistJs && NotWritten(q, pages, pageLog) ==> Kept(old(disk.fs), disk.fs, q)
    ensures forall q :: AssetPath(q) ==> Kept(old(disk.fs), disk.fs, q)
  {
    ghost var fs0 := disk.fs;
    PrepareOutput(disk);
    ghost var fs1 := disk.fs;
    pages, pageLog := BuildHtml(disk, minifyHtml);
    forall n
      ensures n in pages <==> [n] in fs0 && EndsWith(n, ".html")
    {
      if EndsWith(n, ".html") {
        PageNames(n);
        assert [n] != Dist && [n] != DistJs;
      }
    }
    forall k | 0 <= k < |pages|
      ensures PagePublished(fs1, pages[k], minifyHtml) <==> PageGoesOut(fs0, pages[k], minifyHtml)
      ensures PageOutput(fs1, pages[k], minifyHtml) == PageOutput(fs0, pages[k], minifyHtml)
    {
      assert pages[k] in pages;
      PreparedPage(fs0, fs1, pages[k], minifyHtml);
    }
    AssetsSurvivePages(fs0, fs1, disk.fs, pages, pageLog);
    assert NotWritten(Dist, pages, pageLog);
    assert NotWritten(DistJs, pages, pageLog) by {
      forall k | 0 <= k < |pages| && k < |pageLog| && pageLog[k].PageWritten?
        ensures DistJs != Dist + [pages[k]]
      {
        assert pages[k] in pages;
        PageNames(pages[k]);
        assert (Dist + [pages[k]])[1] == pages[k];
      }
    }
    CopyReadyKept(fs0, disk.fs);
  }

  /**
   * The whole script (build.js:25-117), with the minifiers' promises settling after the
   * asset copies as they do in Node: every top-level page goes out exactly when it can be
   * read and minified and dist has no directory under its name, the scripts are read from
   * the original tree, public and src/assets are mirrored into dist, and what was written
   * last is still there at the end.
   */
  method RunBuild(disk: Disk, minifyHtml: string -> Option<string>, minifyJs: string -> Option<string>)
    returns (pages: seq<string>, pageLog: seq<PageOutcome>, jobs: seq<JsJob>, scriptLog: seq<JsOutcome>)
    requires Buildable(disk.fs)
    modifies disk
    ensures WellFormed(disk.fs) && Dist in disk.fs && disk.fs[Dist] == Dir
    ensures forall n :: n in pages <==> [n] in old(disk.fs) && EndsWith(n, ".html")
    ensures Distinct(pages) && |pageLog| == |pages|
    ensures forall k :: 0 <= k < |pages| ==> pageLog[k].file == pages[k]
    ensures forall k :: 0 <= k < |pages| ==> (pageLog[k].PageWritten? <==> PageGoesOut(old(disk.fs), pages[k], minifyHtml))
    ensures forall k :: 0 <= k < |pages| && PageGoesOut(old(disk.fs), pages[k], minifyHtml) ==>
      Dist + [pages[k]] in disk.fs && disk.fs[Dist + [pages[k]]] == File(PageOutput(old(disk.fs), pages[k], minifyHtml).value)
    ensures |jobs| == |JsFiles| && forall k :: 0 <= k < |jobs| ==> JobFor(old(disk.fs), JsFiles[k], jobs[k])
    ensures |scriptLog| == |jobs|
    ensures forall k :: 0 <= k < |jobs| ==> scriptLog[k].file == JsFiles[k]
    ensures forall k :: 0 <= k < |jobs| ==> (scriptLog[k].Skipped? <==> jobs[k].Missing?)
    ensures forall k :: 0 <= k < |jobs| ==> (scriptLog[k].ReadError? <==> jobs[k].Unreadable?)
    ensures forall k :: 0 <= k < |jobs| && scriptLog[k].Written? ==>
      jobs[k].Pending? && minifyJs(jobs[k].code).Some? &&
      JsTarget(JsFiles[k]) in disk.fs && disk.fs[JsTarget(JsFiles[k])] == File(minifyJs(jobs[k].code).value)
    ensures Public in old(disk.fs) ==> Mirrors(old(disk.fs), disk.fs, Public, DistPublic)
    ensures Assets in old(disk.fs) ==> Mirrors(old(disk.fs), disk.fs, Assets, DistAssets)
    ensures forall q :: !Under(Dist, q) ==> Kept(old(disk.fs), disk.fs, q)
    ensures forall k :: 0 <= k < |jobs| && !scriptLog[k].Written? ==> Kept(old(disk.fs), disk.fs, JsTarget(JsFiles[k]))
    ensures Public !in old(disk.fs) ==> forall q :: Under(DistPublic, q) ==> Kept(old(disk.fs), disk.fs, q)
    ensures Assets !in old(disk.fs) ==> forall q :: Under(DistAssets, q) ==> Kept(old(disk.fs), disk.fs, q)
    ensures forall q :: LeftAlone(old(disk.fs), q, pages, pageLog, jobs, scriptLog) ==> Kept(old(disk.fs), disk.fs, q)
    ensures DistJs in disk.fs && forall q :: q in old(disk.fs) ==> q in disk.fs
  {
    ghost var fs0 := disk.fs;
    pages, pageLog := BuildPages(disk, minifyHtml);
    ghost var fs2 := disk.fs;

    jobs := StartJs(disk);
    SourcesSurvivePages(fs0, fs2, pages, pageLog, jobs);
    JsFilesDistinct();

    scriptLog := CopyAssetsThenScripts(disk, jobs, minifyJs);

    forall k | 0 <= k < |pages|
      ensures pages[k] != "public" && pages[k] != "assets"
    {
      assert pages[k] in pages;
      PageNames(pages[k]);
    }
    forall k | 0 <= k < |pages| && pageLog[k].PageWritten?
      ensures Kept(fs2, disk.fs, Dist + [pages[k]]) && Dist + [pages[k]] in disk.fs
    {
      PageSurvives(fs2, disk.fs, pages[k], jobs, scriptLog);
    }
    PageSurvives(fs2, disk.fs, "js", jobs, scriptLog);
    assert Dist + ["js"] == DistJs;
    if Public in fs0 {
      assert AssetPath(Public);
      MirrorFromStart(fs0, fs2, disk.fs, Public, DistPublic);
    }
    if Assets in fs0 {
      assert AssetPath(Assets);
      MirrorFromStart(fs0, fs2, disk.fs, Assets, DistAssets);
    }
    LeftAloneKept(fs0, fs2, disk.fs, pages, pageLog, jobs, scriptLog);
    OutsideDistKept(fs0, disk.fs, pages, pageLog, jobs, scriptLog);
    forall k | 0 <= k < |jobs| && !scriptLog[k].Written?
      ensures Kept(fs0, disk.fs, JsTarget(JsFiles[k]))
    {
      UnwrittenScriptKept(fs0, disk.fs, pages, pageLog, jobs, scriptLog, k);
    }
    if Public !in fs0 {
      AbsentAssetsKept(fs0, disk.fs, pages, pageLog, jobs, scriptLog, Public, DistPublic);
    }
    if Assets !in fs0 {
      AbsentAssetsKept(fs0, disk.fs, pages, pageLog, jobs, scriptLog, Assets, DistAssets);
    }
    NothingDeleted(fs0, disk.fs, pages, pageLog, jobs, scriptLog);
  }
}
