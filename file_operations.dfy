/**
 * The file aggregator: read each argument that names a readable file,
 * give it a display name chosen by the path option, and append a fenced
 * block per file to one combined document.
 *
 * The loop itself is `CombineFilesContent`; it is proved equal to `Combine`
 * and `Log`, which classify every argument, stop at the first argument whose
 * display name fails, and then keep the included blocks and the notices.
 * `CombineIsFilterMapConcat` then shows that this is a filter of the
 * arguments, a map to display names and a concatenation of blocks.
 */
module FileOperations {
  import opened Wrappers
  import opened Paths
  import opened FileSystem

  /** Why a call fails; the operating system's own message text is not modelled. */
  datatype CombineError =
    | CurrentDirUnavailable
    | CanonicalizeFailed(path: string)
    | StripPrefixFailed(path: string)
    | NoValidFiles

  /** The successful result: the document and the display names, in order. */
  datatype Combined = Combined(content: string, files: seq<string>)

  datatype SkipReason = NotFound | IsDirectory

  /** A message printed while combining. */
  datatype Notice =
    | Skipped(path: string, reason: SkipReason)
    | ReadFailed(path: string, message: string)
    | NothingToCopy

  /** The source's `Result<Option<String>, String>` from reading a file. */
  datatype ReadResult = Content(text: string) | Absent | ReadError(message: string)

  /** Reading a file: absent when the path does not exist, an error for a
      directory or a failed open or read, the text otherwise. */
  function ReadFileContent(fs: Snapshot, filename: string): (r: ReadResult)
    ensures r.Absent? <==> fs.Lookup(filename).Missing?
    ensures r.Content? <==> fs.Lookup(filename).File?
    ensures r.Content? ==> fs.Lookup(filename) == File(r.text)
  {
    match fs.Lookup(filename)
    case Missing => Absent
    case Dir => ReadError(filename + " is a directory")
    case File(text) => Content(text)
    case Unreadable(reason) => ReadError(reason)
  }

  /** The final component of `filename`, or `filename` itself when it has none. */
  function GetFileName(filename: string): (name: string)
    ensures FileName(filename).Some? ==> ValidName(name) && FileName(filename) == Some(name)
    ensures FileName(filename).None? ==> name == filename
  {
    FileNameIsValid(filename);
    match FileName(filename)
    case Some(n) => n
    case None => filename
  }

  /** The canonical path of `filename` with the current directory's
      components stripped from its front. */
  function GetRelativePath(fs: Snapshot, currentDir: seq<string>, filename: string): (r: Result<string, CombineError>)
    ensures r.Ok? <==> fs.Canonicalize(filename).Some? && currentDir <= fs.Canonicalize(filename).value
    ensures fs.Canonicalize(filename).None? ==> r == Err(CanonicalizeFailed(filename))
    ensures r.Err? && fs.Canonicalize(filename).Some? ==> r == Err(StripPrefixFailed(filename))
  {
    match fs.Canonicalize(filename)
    case None => Err(CanonicalizeFailed(filename))
    case Some(full) =>
      if currentDir <= full then Ok(Join(full[|currentDir|..]))
      else Err(StripPrefixFailed(filename))
  }

  /** On success, the current directory's components followed by the
      result's components are the canonical path. */
  lemma RelativePathComponents(fs: Snapshot, currentDir: seq<string>, filename: string)
    requires fs.WellFormed() && AllValid(currentDir)
    requires GetRelativePath(fs, currentDir, filename).Ok?
    ensures Normals(currentDir) + Components(GetRelativePath(fs, currentDir, filename).value)
         == Normals(fs.Canonicalize(filename).value)
  {
    var full := fs.Canonicalize(filename).value;
    var rest := full[|currentDir|..];
    assert full == currentDir + rest;
    AllValidSplit(currentDir, rest);
    ComponentsOfJoin(rest);
    NormalsAppend(currentDir, rest);
  }

  /** The names after a prefix of valid names are themselves valid. */
  lemma AllValidSplit(xs: seq<string>, ys: seq<string>)
    requires AllValid(xs + ys)
    ensures AllValid(ys)
  {
    forall i | 0 <= i < |ys| ensures ValidName(ys[i]) { assert ys[i] == (xs + ys)[|xs| + i]; }
  }

  lemma NormalsAppend(xs: seq<string>, ys: seq<string>)
    ensures Normals(xs + ys) == Normals(xs) + Normals(ys)
  {
  }

  /** The display name the path option selects: the argument verbatim for
      "-f", the cwd-relative path for "-r", the file name otherwise. The first
      three ensures are the dispatch itself, which is what the source promises;
      the properties of each mode live with `GetRelativePath` and `GetFileName`. */
  function DisplayName(fs: Snapshot, pathOption: string, currentDir: seq<string>, filename: string)
    : (r: Result<string, CombineError>)
    ensures pathOption == "-f" ==> r == Ok(filename)
    ensures pathOption == "-r" ==> r == GetRelativePath(fs, currentDir, filename)
    ensures pathOption != "-f" && pathOption != "-r" ==> r == Ok(GetFileName(filename))
    ensures r.Err? ==> pathOption == "-r" && (r.error.CanonicalizeFailed? || r.error.StripPrefixFailed?)
  {
    match pathOption
    case "-f" => Ok(filename)
    case "-r" => GetRelativePath(fs, currentDir, filename)
    case _ => Ok(GetFileName(filename))
  }

  /** The fenced block one included file contributes to the document. */
  function Block(name: string, content: string): (b: string)
    ensures |b| == |name| + |content| + 10
    ensures b[..3] == "```" && b[3..3 + |name|] == name && b[3 + |name|] == '\n'
    ensures b[4 + |name|..4 + |name| + |content|] == content
    ensures b[4 + |name| + |content|..] == "\n```\n\n"
  {
    "```" + name + "\n" + content + "\n```\n\n"
  }

  /** What the loop does with one argument. */
  datatype Outcome = Include(name: string, content: string) | Skip(notice: Notice) | Abort(error: CombineError)

  /** `n` is the notice printed for `path` when the loop does not read it:
      not found, a directory, or the reason the read failed. */
  predicate ReportsOmission(fs: Snapshot, n: Notice, path: string) {
    match fs.Lookup(path)
    case Missing => n == Skipped(path, NotFound)
    case Dir => n == Skipped(path, IsDirectory)
    case Unreadable(reason) => n == ReadFailed(path, reason)
    case File(_) => false
  }

  /** One argument: included under its display name with the text it reads
      back, skipped with the notice for why it was not read, or aborting the
      loop with the display-name error. */
  function Classify(fs: Snapshot, pathOption: string, currentDir: seq<string>, filename: string): (o: Outcome)
    ensures o.Include? <==> ReadFileContent(fs, filename).Content? && DisplayName(fs, pathOption, currentDir, filename).Ok?
    ensures o.Include? ==> ReadFileContent(fs, filename) == Content(o.content)
                           && DisplayName(fs, pathOption, currentDir, filename) == Ok(o.name)
    ensures o.Abort? ==> ReadFileContent(fs, filename).Content?
                         && DisplayName(fs, pathOption, currentDir, filename) == Err(o.error)
    ensures o.Skip? <==> !ReadFileContent(fs, filename).Content?
    ensures o.Skip? ==> ReportsOmission(fs, o.notice, filename)
  {
    match fs.Lookup(filename)
    case Missing => Skip(Skipped(filename, NotFound))
    case Dir => Skip(Skipped(filename, IsDirectory))
    case Unreadable(reason) => Skip(ReadFailed(filename, reason))
    case File(text) =>
      match DisplayName(fs, pathOption, currentDir, filename)
      case Ok(name) => Include(name, text)
      case Err(e) => Abort(e)
  }

  function Outcomes(fs: Snapshot, pathOption: string, currentDir: seq<string>, args: seq<string>): seq<Outcome> {
    seq(|args|, i requires 0 <= i < |args| => Classify(fs, pathOption, currentDir, args[i]))
  }

  predicate NoAbort(os: seq<Outcome>) {
    forall j :: 0 <= j < |os| ==> !os[j].Abort?
  }

  /** The position of the first abort, or the length when there is none. */
  function AbortIndex(os: seq<Outcome>): (k: nat)
    ensures k <= |os| && NoAbort(os[..k])
    ensures k < |os| ==> os[k].Abort?
  {
    if os == [] then 0
    else if os[0].Abort? then 0
    else
      var k := 1 + AbortIndex(os[1..]);
      assert forall j :: 1 <= j < k ==> os[j] == os[1..][j - 1];
      k
  }

  function NamesOf(os: seq<Outcome>): seq<string> {
    if os == [] then []
    else
      var last := os[|os| - 1];
      NamesOf(os[..|os| - 1]) + (if last.Include? then [last.name] else [])
  }

  function DocumentOf(os: seq<Outcome>): string {
    if os == [] then ""
    else
      var last := os[|os| - 1];
      DocumentOf(os[..|os| - 1]) + (if last.Include? then Block(last.name, last.content) else "")
  }

  function NoticesOf(os: seq<Outcome>): seq<Notice> {
    if os == [] then []
    else
      var last := os[|os| - 1];
      NoticesOf(os[..|os| - 1]) + (if last.Skip? then [last.notice] else [])
  }

  /** The result of combining `args` under `pathOption`. */
  function Combine(fs: Snapshot, pathOption: string, args: seq<string>): (r: Result<Combined, CombineError>)
    ensures fs.currentDir.None? ==> r == Err(CurrentDirUnavailable)
    ensures r.Ok? ==> r.value.files != []
  {
    match fs.currentDir
    case None => Err(CurrentDirUnavailable)
    case Some(currentDir) =>
      var os := Outcomes(fs, pathOption, currentDir, args);
      var k := AbortIndex(os);
      if k < |os| then Err(os[k].error)
      else if NamesOf(os) == [] then Err(NoValidFiles)
      else Ok(Combined(DocumentOf(os), NamesOf(os)))
  }

  /** The notices printed while combining `args`: those of the arguments
      before the first abort, then a final one when nothing was included. */
  function Log(fs: Snapshot, pathOption: string, args: seq<string>): (log: seq<Notice>)
    ensures fs.currentDir.None? ==> log == []
  {
    match fs.currentDir
    case None => []
    case Some(currentDir) =>
      var os := Outcomes(fs, pathOption, currentDir, args);
      var k := AbortIndex(os);
      NoticesOf(os[..k]) + (if k == |os| && NamesOf(os) == [] then [NothingToCopy] else [])
  }

  // ---------------------------------------------------------------------
  // The reference: filter the arguments, map them to names, concatenate.
  // ---------------------------------------------------------------------

  /** An argument that names a file whose text reads back. */
  datatype SourceFile = SourceFile(path: string, content: string)

  /** The arguments that exist, are not directories and read successfully, in order. */
  function Readable(fs: Snapshot, args: seq<string>): seq<SourceFile> {
    if args == [] then []
    else
      var last := args[|args| - 1];
      Readable(fs, args[..|args| - 1])
      + (match fs.Lookup(last) case File(text) => [SourceFile(last, text)] case _ => [])
  }

  /** The arguments that are not read: missing, directories or unreadable. */
  function Omitted(fs: Snapshot, args: seq<string>): seq<string> {
    if args == [] then []
    else
      var last := args[|args| - 1];
      Omitted(fs, args[..|args| - 1]) + (if fs.Lookup(last).File? then [] else [last])
  }

  /** The blocks of `files` under `names`, concatenated in order. */
  function Document(names: seq<string>, files: seq<SourceFile>): string
    requires |names| == |files|
  {
    if names == [] then ""
    else
      Document(names[..|names| - 1], files[..|files| - 1])
      + Block(names[|names| - 1], files[|files| - 1].content)
  }

  predicate AllNamed(fs: Snapshot, pathOption: string, currentDir: seq<string>, files: seq<SourceFile>) {
    forall i :: 0 <= i < |files| ==> DisplayName(fs, pathOption, currentDir, files[i].path).Ok?
  }

  /** Filtering commutes with splitting the argument list: order is kept. */
  lemma {:induction false} ReadableAppend(fs: Snapshot, xs: seq<string>, ys: seq<string>)
    ensures Readable(fs, xs + ys) == Readable(fs, xs) + Readable(fs, ys)
  {
    if ys == [] {
      assert xs + ys == xs;
    } else {
      var init := ys[..|ys| - 1];
      assert (xs + ys)[..|xs + ys| - 1] == xs + init;
      assert (xs + ys)[|xs + ys| - 1] == ys[|ys| - 1];
      ReadableAppend(fs, xs, init);
    }
  }

  /** A file is included exactly when some argument names it and it reads back with that text. */
  lemma {:induction false} ReadableMembership(fs: Snapshot, args: seq<string>, f: SourceFile)
    ensures f in Readable(fs, args) <==> f.path in args && fs.Lookup(f.path) == File(f.content)
  {
    if args != [] {
      var init := args[..|args| - 1];
      ReadableMembership(fs, init, f);
      assert args == init + [args[|args| - 1]];
    }
  }

  /** When every argument reads back, nothing is dropped, sorted or deduplicated. */
  lemma {:induction false} ReadableKeepsEveryFile(fs: Snapshot, args: seq<string>)
    requires forall i :: 0 <= i < |args| ==> fs.Lookup(args[i]).File?
    ensures |Readable(fs, args)| == |args|
    ensures forall i :: 0 <= i < |args| ==> Readable(fs, args)[i] == SourceFile(args[i], fs.Lookup(args[i]).content)
  {
    if args != [] {
      var init := args[..|args| - 1];
      ReadableKeepsEveryFile(fs, init);
    }
  }

  lemma OutcomesSnoc(fs: Snapshot, pathOption: string, currentDir: seq<string>, args: seq<string>)
    requires args != []
    ensures Outcomes(fs, pathOption, currentDir, args)
         == Outcomes(fs, pathOption, currentDir, args[..|args| - 1]) + [Classify(fs, pathOption, currentDir, args[|args| - 1])]
  {
  }

  lemma NoAbortSnoc(os: seq<Outcome>, o: Outcome)
    ensures NoAbort(os + [o]) <==> NoAbort(os) && !o.Abort?
  {
    if NoAbort(os) && !o.Abort? {
      forall j | 0 <= j < |os + [o]| ensures !(os + [o])[j].Abort? {
        if j < |os| { assert (os + [o])[j] == os[j]; }
      }
    }
    if NoAbort(os + [o]) {
      forall j | 0 <= j < |os| ensures !os[j].Abort? { assert (os + [o])[j] == os[j]; }
      assert (os + [o])[|os|] == o;
    }
  }

  lemma AllNamedSnoc(fs: Snapshot, pathOption: string, currentDir: seq<string>, files: seq<SourceFile>, f: SourceFile)
    ensures AllNamed(fs, pathOption, currentDir, files + [f])
        <==> AllNamed(fs, pathOption, currentDir, files) && DisplayName(fs, pathOption, currentDir, f.path).Ok?
  {
    var all := files + [f];
    assert all[|files|] == f;
    assert forall i :: 0 <= i < |files| ==> all[i] == files[i];
  }

  /** An argument list has no abort exactly when every readable argument gets a display name. */
  lemma {:induction false} NoAbortIffAllNamed(fs: Snapshot, pathOption: string, currentDir: seq<string>, args: seq<string>)
    ensures NoAbort(Outcomes(fs, pathOption, currentDir, args)) <==> AllNamed(fs, pathOption, currentDir, Readable(fs, args))
  {
    if args != [] {
      var init := args[..|args| - 1];
      var x := args[|args| - 1];
      NoAbortIffAllNamed(fs, pathOption, currentDir, init);
      OutcomesSnoc(fs, pathOption, currentDir, args);
      NoAbortSnoc(Outcomes(fs, pathOption, currentDir, init), Classify(fs, pathOption, currentDir, x));
      match fs.Lookup(x) {
        case File(text) =>
          assert Readable(fs, args) == Readable(fs, init) + [SourceFile(x, text)];
          AllNamedSnoc(fs, pathOption, currentDir, Readable(fs, init), SourceFile(x, text));
        case _ =>
          assert Readable(fs, args) == Readable(fs, init);
      }
    }
  }

  /** Without an abort, the loop's names and document are the reference's. */
  lemma {:induction false} OutcomesMatchReference(fs: Snapshot, pathOption: string, currentDir: seq<string>, args: seq<string>)
    requires NoAbort(Outcomes(fs, pathOption, currentDir, args))
    ensures var os := Outcomes(fs, pathOption, currentDir, args);
            var files := Readable(fs, args);
            |NamesOf(os)| == |files|
            && (forall i :: 0 <= i < |files| ==>
                  DisplayName(fs, pathOption, currentDir, files[i].path) == Ok(NamesOf(os)[i]))
            && DocumentOf(os) == Document(NamesOf(os), files)
  {
    if args != [] {
      var os := Outcomes(fs, pathOption, currentDir, args);
      var init := args[..|args| - 1];
      var x := args[|args| - 1];
      var osInit := Outcomes(fs, pathOption, currentDir, init);
      var o := Classify(fs, pathOption, currentDir, x);
      OutcomesSnoc(fs, pathOption, currentDir, args);
      NoAbortSnoc(osInit, o);
      OutcomesMatchReference(fs, pathOption, currentDir, init);
      assert os[..|os| - 1] == osInit;
      var filesInit := Readable(fs, init);
      var namesInit := NamesOf(osInit);
      match fs.Lookup(x) {
        case File(text) =>
          var files := filesInit + [SourceFile(x, text)];
          var names := namesInit + [o.name];
          assert Readable(fs, args) == files;
          assert NamesOf(os) == names;
          assert names[..|names| - 1] == namesInit;
          assert files[..|files| - 1] == filesInit;
          forall i | 0 <= i < |files|
            ensures DisplayName(fs, pathOption, currentDir, files[i].path) == Ok(names[i])
          {
            if i < |filesInit| { assert files[i] == filesInit[i] && names[i] == namesInit[i]; }
          }
        case _ =>
          assert o.Skip?;
          assert Readable(fs, args) == filesInit;
          assert NamesOf(os) == namesInit;
          assert DocumentOf(os) == DocumentOf(osInit);
      }
    }
  }

  /**
   * Combining succeeds exactly when some argument reads back and every one
   * that does gets a display name; "no valid files" exactly when nothing
   * reads back.
   */
  lemma CombineSucceedsIff(fs: Snapshot, pathOption: string, args: seq<string>)
    requires fs.currentDir.Some?
    ensures Combine(fs, pathOption, args).Ok?
        <==> Readable(fs, args) != [] && AllNamed(fs, pathOption, fs.currentDir.value, Readable(fs, args))
    ensures Combine(fs, pathOption, args) == Err(NoValidFiles) <==> Readable(fs, args) == []
  {
    var currentDir := fs.currentDir.value;
    NoAbortIffAllNamed(fs, pathOption, currentDir, args);
    if NoAbort(Outcomes(fs, pathOption, currentDir, args)) {
      CombineWithoutAbort(fs, pathOption, args);
    } else {
      CombineWithAbort(fs, pathOption, args);
    }
  }

  /** When no display name fails, the call fails only for want of readable files. */
  lemma CombineWithoutAbort(fs: Snapshot, pathOption: string, args: seq<string>)
    requires fs.currentDir.Some? && NoAbort(Outcomes(fs, pathOption, fs.currentDir.value, args))
    ensures Combine(fs, pathOption, args).Ok? <==> Readable(fs, args) != []
    ensures Combine(fs, pathOption, args).Err? ==> Combine(fs, pathOption, args) == Err(NoValidFiles)
  {
    var os := Outcomes(fs, pathOption, fs.currentDir.value, args);
    var k := AbortIndex(os);
    assert k == |os|;
    OutcomesMatchReference(fs, pathOption, fs.currentDir.value, args);
    assert NamesOf(os) == [] <==> Readable(fs, args) == [];
  }

  /** When some display name fails, the call fails with that error, never "no valid files". */
  lemma CombineWithAbort(fs: Snapshot, pathOption: string, args: seq<string>)
    requires fs.currentDir.Some? && !NoAbort(Outcomes(fs, pathOption, fs.currentDir.value, args))
    ensures Combine(fs, pathOption, args).Err?
    ensures Combine(fs, pathOption, args).error != NoValidFiles
  {
    var os := Outcomes(fs, pathOption, fs.currentDir.value, args);
    var k := AbortIndex(os);
    assert k < |os|;
    assert os[k] == Classify(fs, pathOption, fs.currentDir.value, args[k]);
  }

  /**
   * On success the names are the display names of the readable arguments,
   * in argument order, and the document is their blocks concatenated.
   */
  lemma CombineIsFilterMapConcat(fs: Snapshot, pathOption: string, args: seq<string>)
    requires Combine(fs, pathOption, args).Ok?
    ensures var files := Readable(fs, args);
            var c := Combine(fs, pathOption, args).value;
            |c.files| == |files|
            && (forall i :: 0 <= i < |files| ==>
                  DisplayName(fs, pathOption, fs.currentDir.value, files[i].path) == Ok(c.files[i]))
            && c.content == Document(c.files, files)
  {
    var currentDir := fs.currentDir.value;
    var os := Outcomes(fs, pathOption, currentDir, args);
    var k := AbortIndex(os);
    assert k == |os|;
    assert NoAbort(os) by { assert os[..k] == os; }
    OutcomesMatchReference(fs, pathOption, currentDir, args);
  }

  /** Outside "-r" mode no display name can fail: combining succeeds iff some argument reads back. */
  lemma CombineWithoutCanonicalization(fs: Snapshot, pathOption: string, args: seq<string>)
    requires fs.currentDir.Some? && pathOption != "-r"
    ensures Combine(fs, pathOption, args).Ok? <==> Readable(fs, args) != []
    ensures Combine(fs, pathOption, args).Err? ==> Combine(fs, pathOption, args) == Err(NoValidFiles)
  {
    CombineSucceedsIff(fs, pathOption, args);
  }

  /** A failing display name aborts the whole call with the error of the first
      readable argument whose name fails; no earlier readable argument failed. */
  lemma CombineErrorIsFirstFailure(fs: Snapshot, pathOption: string, args: seq<string>)
    requires fs.currentDir.Some?
    requires Combine(fs, pathOption, args).Err? && Combine(fs, pathOption, args).error != NoValidFiles
    ensures exists k :: 0 <= k < |args|
              && fs.Lookup(args[k]).File?
              && DisplayName(fs, pathOption, fs.currentDir.value, args[k]) == Err(Combine(fs, pathOption, args).error)
              && (forall j :: 0 <= j < k && fs.Lookup(args[j]).File? ==>
                    DisplayName(fs, pathOption, fs.currentDir.value, args[j]).Ok?)
  {
    var currentDir := fs.currentDir.value;
    var os := Outcomes(fs, pathOption, currentDir, args);
    var k := AbortIndex(os);
    assert k < |os|;
    assert os[k] == Classify(fs, pathOption, currentDir, args[k]);
    forall j | 0 <= j < k && fs.Lookup(args[j]).File?
      ensures DisplayName(fs, pathOption, currentDir, args[j]).Ok?
    {
      assert os[..k][j] == Classify(fs, pathOption, currentDir, args[j]);
    }
  }

  /** In "-r" mode, each listed name is the canonical path of its file with
      the current directory's components removed from its front. */
  lemma RelativeModeNames(fs: Snapshot, args: seq<string>)
    requires fs.WellFormed() && Combine(fs, "-r", args).Ok?
    ensures var files := Readable(fs, args);
            var names := Combine(fs, "-r", args).value.files;
            |names| == |files|
            && forall i :: 0 <= i < |files| ==>
                 fs.Canonicalize(files[i].path).Some?
                 && Normals(fs.currentDir.value) + Components(names[i]) == Normals(fs.Canonicalize(files[i].path).value)
  {
    var files := Readable(fs, args);
    var currentDir := fs.currentDir.value;
    CombineIsFilterMapConcat(fs, "-r", args);
    forall i | 0 <= i < |files|
      ensures fs.Canonicalize(files[i].path).Some?
      ensures Normals(currentDir) + Components(Combine(fs, "-r", args).value.files[i])
           == Normals(fs.Canonicalize(files[i].path).value)
    {
      RelativePathComponents(fs, currentDir, files[i].path);
    }
  }

  /** Every argument is either read or omitted. */
  lemma {:induction false} ReadableOmittedCount(fs: Snapshot, args: seq<string>)
    ensures |Readable(fs, args)| + |Omitted(fs, args)| == |args|
  {
    if args != [] {
      ReadableOmittedCount(fs, args[..|args| - 1]);
    }
  }

  /** The notices report exactly the given paths, one each, in order, each
      with the notice its entry calls for. */
  predicate ReportsExactly(fs: Snapshot, notices: seq<Notice>, paths: seq<string>) {
    |notices| == |paths|
    && forall i :: 0 <= i < |notices| ==> ReportsOmission(fs, notices[i], paths[i])
  }

  lemma ReportsExactlySnoc(fs: Snapshot, notices: seq<Notice>, paths: seq<string>, n: Notice, path: string)
    requires ReportsExactly(fs, notices, paths) && ReportsOmission(fs, n, path)
    ensures ReportsExactly(fs, notices + [n], paths + [path])
  {
    forall i | 0 <= i < |notices| ensures (notices + [n])[i] == notices[i] && (paths + [path])[i] == paths[i] {
    }
  }

  /** Every argument before an abort is either included or reported once, in order. */
  lemma {:induction false} NoticesMatchOmitted(fs: Snapshot, pathOption: string, currentDir: seq<string>, args: seq<string>)
    requires NoAbort(Outcomes(fs, pathOption, currentDir, args))
    ensures ReportsExactly(fs, NoticesOf(Outcomes(fs, pathOption, currentDir, args)), Omitted(fs, args))
    ensures |Readable(fs, args)| + |Omitted(fs, args)| == |args|
  {
    ReadableOmittedCount(fs, args);
    if args != [] {
      var init := args[..|args| - 1];
      var x := args[|args| - 1];
      var osInit := Outcomes(fs, pathOption, currentDir, init);
      var o := Classify(fs, pathOption, currentDir, x);
      OutcomesSnoc(fs, pathOption, currentDir, args);
      NoAbortSnoc(osInit, o);
      FoldSnoc(osInit, o);
      NoticesMatchOmitted(fs, pathOption, currentDir, init);
      if fs.Lookup(x).File? {
        assert o.Include?;
      } else {
        assert o.Skip?;
        ReportsExactlySnoc(fs, NoticesOf(osInit), Omitted(fs, init), o.notice, x);
      }
    }
  }

  /** The outcomes of a prefix of the arguments are that prefix of the outcomes. */
  lemma OutcomesPrefix(fs: Snapshot, pathOption: string, currentDir: seq<string>, args: seq<string>, k: nat)
    requires k <= |args|
    ensures Outcomes(fs, pathOption, currentDir, args[..k]) == Outcomes(fs, pathOption, currentDir, args)[..k]
  {
  }

  /**
   * The printed notices: for each argument before the first failing display
   * name that is not read, in order, the notice for why; then "nothing to
   * copy" exactly when no display name failed and no argument reads back.
   */
  lemma LogMatchesOmitted(fs: Snapshot, pathOption: string, args: seq<string>)
    requires fs.currentDir.Some?
    ensures var k := AbortIndex(Outcomes(fs, pathOption, fs.currentDir.value, args));
            var log := Log(fs, pathOption, args);
            var omitted := Omitted(fs, args[..k]);
            var last := k == |args| && Readable(fs, args) == [];
            |log| == |omitted| + (if last then 1 else 0)
            && ReportsExactly(fs, log[..|omitted|], omitted)
            && (last ==> log[|omitted|] == NothingToCopy)
  {
    var currentDir := fs.currentDir.value;
    var os := Outcomes(fs, pathOption, currentDir, args);
    var k := AbortIndex(os);
    OutcomesPrefix(fs, pathOption, currentDir, args, k);
    NoticesMatchOmitted(fs, pathOption, currentDir, args[..k]);
    var notices := NoticesOf(os[..k]);
    var tail: seq<Notice> := if k == |os| && NamesOf(os) == [] then [NothingToCopy] else [];
    assert Log(fs, pathOption, args) == notices + tail;
    assert (notices + tail)[..|notices|] == notices;
    if k == |os| {
      assert args[..k] == args;
      assert os[..k] == os;
      OutcomesMatchReference(fs, pathOption, currentDir, args);
    }
  }

  /** Appending one outcome extends the names, document and notices by its own share. */
  lemma FoldSnoc(os: seq<Outcome>, o: Outcome)
    ensures NamesOf(os + [o]) == NamesOf(os) + (if o.Include? then [o.name] else [])
    ensures DocumentOf(os + [o]) == DocumentOf(os) + (if o.Include? then Block(o.name, o.content) else "")
    ensures NoticesOf(os + [o]) == NoticesOf(os) + (if o.Skip? then [o.notice] else [])
  {
    assert (os + [o])[..|os|] == os;
  }

  /** Extending a prefix of the outcomes by one extends each fold by that outcome's share. */
  lemma PrefixStep(os: seq<Outcome>, i: nat)
    requires i < |os|
    ensures NamesOf(os[..i + 1]) == NamesOf(os[..i]) + (if os[i].Include? then [os[i].name] else [])
    ensures DocumentOf(os[..i + 1]) == DocumentOf(os[..i]) + (if os[i].Include? then Block(os[i].name, os[i].content) else "")
    ensures NoticesOf(os[..i + 1]) == NoticesOf(os[..i]) + (if os[i].Skip? then [os[i].notice] else [])
    ensures NoAbort(os[..i + 1]) <==> NoAbort(os[..i]) && !os[i].Abort?
  {
    assert os[..i + 1] == os[..i] + [os[i]];
    FoldSnoc(os[..i], os[i]);
    NoAbortSnoc(os[..i], os[i]);
  }

  /** An abort preceded only by non-aborts is the first abort. */
  lemma FirstAbort(os: seq<Outcome>, i: nat)
    requires i < |os| && NoAbort(os[..i]) && os[i].Abort?
    ensures AbortIndex(os) == i
  {
    var k := AbortIndex(os);
    assert forall j :: 0 <= j < i ==> os[..i][j] == os[j];
    assert forall j :: 0 <= j < k ==> os[..k][j] == os[j];
  }

  lemma {:induction false} DocumentOfLength(os: seq<Outcome>)
    ensures |DocumentOf(os)| >= 10 * |NamesOf(os)|
  {
    if os != [] {
      DocumentOfLength(os[..|os| - 1]);
    }
  }

  /** Every included file contributes a block of at least ten characters of fencing. */
  lemma CombinedContentLength(fs: Snapshot, pathOption: string, args: seq<string>)
    requires Combine(fs, pathOption, args).Ok?
    ensures |Combine(fs, pathOption, args).value.content| >= 10 * |Combine(fs, pathOption, args).value.files| > 0
  {
    DocumentOfLength(Outcomes(fs, pathOption, fs.currentDir.value, args));
  }

  lemma MissingFileBetweenTwoOutcomes(fs: Snapshot, x: string, y: string, z: string)
    requires fs.currentDir.Some? && ValidName(x) && ValidName(z)
    requires fs.Lookup(x).File? && fs.Lookup(y) == Missing && fs.Lookup(z).File?
    ensures Outcomes(fs, "", fs.currentDir.value, [x, y, z])
         == [Include(x, fs.Lookup(x).content), Skip(Skipped(y, NotFound)), Include(z, fs.Lookup(z).content)]
  {
    var os := Outcomes(fs, "", fs.currentDir.value, [x, y, z]);
    FileNameOfName(x);
    FileNameOfName(z);
    assert os[0] == Include(x, fs.Lookup(x).content);
    assert os[1] == Skip(Skipped(y, NotFound));
    assert os[2] == Include(z, fs.Lookup(z).content);
  }

  /** The prefixes of a three-outcome sequence, as the folds take them apart. */
  lemma ThreePrefixes(a: Outcome, m: Outcome, b: Outcome)
    ensures [a, m, b][..2] == [a, m] && [a, m][..1] == [a] && [a][..0] == []
  {
  }

  /** The folds over an included outcome, a skipped one and another included one. */
  lemma FoldsAroundSkip(a: Outcome, m: Outcome, b: Outcome)
    requires a.Include? && m.Skip? && b.Include?
    ensures NamesOf([a, m, b]) == [a.name, b.name]
    ensures DocumentOf([a, m, b]) == Block(a.name, a.content) + Block(b.name, b.content)
    ensures NoticesOf([a, m, b]) == [m.notice]
  {
    ThreePrefixes(a, m, b);
    assert DocumentOf([a]) == Block(a.name, a.content);
    assert DocumentOf([a, m]) == Block(a.name, a.content);
    assert NamesOf([a]) == [a.name];
    assert NamesOf([a, m]) == [a.name];
    assert NoticesOf([a]) == [];
    assert NoticesOf([a, m]) == [m.notice];
  }

  /** Two readable files around a missing one, default option: two blocks
      named by the files' names in argument order, and one "not found" notice
      (for example "a.txt" holding "hello", "missing.txt", "b.txt" holding "world"). */
  lemma MissingFileBetweenTwo(fs: Snapshot, x: string, y: string, z: string)
    requires fs.currentDir.Some? && ValidName(x) && ValidName(z)
    requires fs.Lookup(x).File? && fs.Lookup(y) == Missing && fs.Lookup(z).File?
    ensures Combine(fs, "", [x, y, z])
         == Ok(Combined(Block(x, fs.Lookup(x).content) + Block(z, fs.Lookup(z).content), [x, z]))
    ensures Log(fs, "", [x, y, z]) == [Skipped(y, NotFound)]
  {
    var os := Outcomes(fs, "", fs.currentDir.value, [x, y, z]);
    var a, m, b := Include(x, fs.Lookup(x).content), Skip(Skipped(y, NotFound)), Include(z, fs.Lookup(z).content);
    MissingFileBetweenTwoOutcomes(fs, x, y, z);
    FoldsAroundSkip(a, m, b);
    assert NoAbort(os);
    assert AbortIndex(os) == 3;
    assert os[..3] == os;
  }

  /** `combine_files_content`: the loop over the arguments. */
  method CombineFilesContent(fs: Snapshot, pathOption: string, fileArgs: seq<string>)
    returns (result: Result<Combined, CombineError>, log: seq<Notice>)
    ensures result == Combine(fs, pathOption, fileArgs)
    ensures log == Log(fs, pathOption, fileArgs)
  {
    var combinedContent := "";
    var fileList: seq<string> := [];
    log := [];
    if fs.currentDir.None? {
      return Err(CurrentDirUnavailable), log;
    }
    var currentDir := fs.currentDir.value;
    ghost var os := Outcomes(fs, pathOption, currentDir, fileArgs);

    var i := 0;
    while i < |fileArgs|
      invariant 0 <= i <= |fileArgs|
      invariant NoAbort(os[..i])
      invariant combinedContent == DocumentOf(os[..i])
      invariant fileList == NamesOf(os[..i])
      invariant log == NoticesOf(os[..i])
    {
      var filename := fileArgs[i];
      ghost var o := Classify(fs, pathOption, currentDir, filename);
      assert os[i] == o;
      PrefixStep(os, i);
      var entry := fs.Lookup(filename);
      if entry.Missing? {
        assert o == Skip(Skipped(filename, NotFound));
        log := log + [Skipped(filename, NotFound)];
        i := i + 1;
        continue;
      } else if entry.Dir? {
        assert o == Skip(Skipped(filename, IsDirectory));
        log := log + [Skipped(filename, IsDirectory)];
        i := i + 1;
        continue;
      }

      match ReadFileContent(fs, filename) {
        case Content(content) =>
          var named := DisplayName(fs, pathOption, currentDir, filename);
          if named.Err? {
            assert o == Abort(named.error);
            FirstAbort(os, i);
            return Err(named.error), log;
          }
          var displayName := named.value;
          assert o == Include(displayName, content);
          combinedContent := combinedContent + Block(displayName, content);
          fileList := fileList + [displayName];
        case Absent =>
          log := log + [Skipped(filename, NotFound)];
        case ReadError(message) =>
          assert o == Skip(ReadFailed(filename, message));
          log := log + [ReadFailed(filename, message)];
      }
      i := i + 1;
    }

    assert os[..i] == os;
    if fileList == [] {
      log := log + [NothingToCopy];
      return Err(NoValidFiles), log;
    }
    return Ok(Combined(combinedContent, fileList)), log;
  }
}
