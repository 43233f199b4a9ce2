/**
 * The entry point: split the command line into the path option and the
 * file list, combine the files, and hand the document to the clipboard.
 * The clipboard transfer itself is not part of this model; its outcome is
 * a parameter.
 */
module Cli {
  import opened Wrappers
  import opened FileSystem
  import opened FileOperations

  /** The path option and the file arguments read from the command line. */
  datatype Invocation = Invocation(pathOption: string, files: seq<string>)

  predicate StartsWithDash(s: string) {
    |s| > 0 && s[0] == '-'
  }

  /**
   * Only `args[1]` can be the option, and only when it starts with '-'; the
   * files are then everything after it, otherwise everything after the
   * program name. Later arguments are file names whatever they look like.
   */
  function SplitArgs(args: seq<string>): (inv: Invocation)
    requires |args| >= 2
    ensures |inv.files| < |args| && inv.files == args[|args| - |inv.files|..]
    ensures StartsWithDash(args[1]) ==> inv.pathOption == args[1] && |inv.files| == |args| - 2
    ensures !StartsWithDash(args[1]) ==> inv.pathOption == "" && |inv.files| == |args| - 1
    ensures forall i :: 2 <= i < |args| ==> args[i] in inv.files
  {
    if StartsWithDash(args[1]) then Invocation(args[1], args[2..])
    else Invocation("", args[1..])
  }

  /** What one run of the program ends with. */
  datatype Report =
    | Usage
    | NoFilesProvided
    | CombineFailed(error: CombineError)
    | CopyFailed(handed: string, message: string)
    | Copied(handed: string, files: seq<string>)

  /**
   * `main`: `clipboardError` is what the clipboard transfer would answer
   * (`None` when it succeeds). `handed` is the text given to the clipboard.
   */
  method Run(fs: Snapshot, args: seq<string>, clipboardError: Option<string>)
    returns (report: Report, log: seq<Notice>)
    ensures |args| < 2 ==> report == Usage && log == []
    ensures |args| >= 2 && SplitArgs(args).files == [] ==> report == NoFilesProvided && log == []
    ensures |args| >= 2 && SplitArgs(args).files != [] ==>
              var inv := SplitArgs(args);
              var combined := Combine(fs, inv.pathOption, inv.files);
              log == Log(fs, inv.pathOption, inv.files)
              && (combined.Err? ==> report == CombineFailed(combined.error))
              && (combined.Ok? && clipboardError.Some? ==>
                    report == CopyFailed(combined.value.content, clipboardError.value))
              && (combined.Ok? && clipboardError.None? ==>
                    report == Copied(combined.value.content, combined.value.files))
    ensures (report.CopyFailed? || report.Copied?) ==> clipboardError.None? == report.Copied?
    ensures report.Copied? ==> report.files != [] && report.handed != ""
  {
    log := [];
    if |args| < 2 {
      return Usage, log;
    }
    var inv := SplitArgs(args);
    if inv.files == [] {
      return NoFilesProvided, log;
    }
    var result;
    result, log := CombineFilesContent(fs, inv.pathOption, inv.files);
    match result {
      case Ok(combined) =>
        if clipboardError.Some? {
          report := CopyFailed(combined.content, clipboardError.value);
        } else {
          CombinedContentLength(fs, inv.pathOption, inv.files);
          report := Copied(combined.content, combined.files);
        }
      case Err(e) =>
        report := CombineFailed(e);
    }
  }
}
