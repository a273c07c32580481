/** One media transfer (`MediaHandler.handle_media`): download with the
    user's session, rename, upload to the dump channel, copy to the user,
    and the cleanup of the status files, the staged file and the status
    message in the `except` handlers and the `finally` block. The network
    calls are effects whose outcomes are inputs; a cancellation arrives at
    one of the points the code checks. */
module Media {
  import opened Wrappers
  import opened Text
  import opened Files
  import opened Tasks
  import opened Progress
  import opened Sanitize
  import opened Captions
  import MessageKind

  /** Where a `/cancel` of the transferring user arrives, if at all. */
  datatype CancelArrival = NoCancel | DuringDownload | AfterDownload | DuringUpload

  /** The outcomes of the external calls of one transfer, in the order the
      code makes them. `download` is the name the download is saved under,
      or `None` when the download raises; `destChannel` is 0 when the user
      has no destination channel. The three `...Ok` flags after the copy to
      the user belong to calls made by the handlers and the `finally` block,
      outside any `try`: when one of them raises, `handle_media` raises. */
  datatype Effects = Effects(
    postOk: bool,         // the "Downloading" status message is sent (utils.py:249)
    cancel: CancelArrival,
    size: nat,
    download: Option<string>,
    uploadEditOk: bool,   // the status message is edited to "Uploading" (utils.py:275)
    uploadOk: bool,
    destChannel: int,
    destCopyOk: bool,
    userCopyOk: bool,
    cancelEditOk: bool,   // the status message is edited to "Task cancelled" (utils.py:287)
    errorReplyOk: bool,   // the error is replied (utils.py:294)
    deleteOk: bool)       // the status message is deleted (utils.py:298)

  /** The messages the transfer posts, edits or deletes. */
  datatype Notice =
    | StatusPosted | StatusUploading | StatusCancelled | StatusDeleted
    | DumpPosted | DestinationCopied | DestinationWarning | UserCopied | ErrorReported

  /** How the body of the `try` ended. */
  datatype Exit = Completed | CancelledExit | ErrorExit

  /** `Crashed`: an exception escapes `handle_media`. */
  datatype MediaOutcome = Delivered | Cancelled | Failed | Crashed

  const ResizedThumb: string := "resized_thumb.jpg"

  /** Whether the upload of a message of this kind runs the `progress`
      callback: `send_sticker` is the one sender called without it
      (utils.py:365). */
  predicate UploadReports(kind: MessageKind.MessageType) {
    kind != MessageKind.Sticker
  }

  /** `download_media` without a file name saves into `downloads/`. */
  function SavedPath(name: string): string {
    "downloads/" + name
  }

  /** A path whose first character is neither a digit nor a minus sign is
      not the name of a status file. */
  lemma LetterPathNotStatus(path: string, messageId: int)
    requires |path| > 0 && !IsDigit(path[0]) && path[0] != '-'
    ensures path !in StatusSet(messageId)
  {
    var n := IntToString(messageId);
    assert n[0] == '-' || IsDigit(n[0]) by {
      if messageId >= 0 {
        assert IsDigit(NatToString(messageId)[0]);
      }
    }
    assert StatusFileName(messageId, Down)[0] == n[0];
    assert StatusFileName(messageId, Up)[0] == n[0];
  }

  /** A saved download never has the name of a status file, whose first
      character is a digit or a minus sign. */
  lemma SavedPathNotStatus(name: string, messageId: int)
    ensures SavedPath(name) !in StatusSet(messageId)
  {
    LetterPathNotStatus(SavedPath(name), messageId);
  }

  /** `os.path.join("rename", f"{filename}{ext}")` with the extension of the
      downloaded file. */
  function RenameTarget(fileName: string, downloaded: string): string {
    "rename/" + fileName + Splitext(downloaded).1
  }

  /** Whether `os.rename` onto the target can succeed: an empty name joins
      to `rename/` and `.` or `..` to a directory, and renaming a file onto
      a directory raises. */
  predicate Renamable(fileName: string, downloaded: string) {
    fileName + Splitext(downloaded).1 !in {"", ".", ".."}
  }

  /** A renamed file is neither a status file nor the resized thumbnail. */
  lemma RenameTargetNotStatus(fileName: string, downloaded: string, messageId: int)
    ensures RenameTarget(fileName, downloaded) !in StatusSet(messageId)
    ensures RenameTarget(fileName, downloaded) != ResizedThumb
  {
    var t := RenameTarget(fileName, downloaded);
    assert t[0] == 'r' && t[1] == 'e';
    assert ResizedThumb[1] == 'e' && ResizedThumb[2] == 's';
    assert t[2] == 'n';
    LetterPathNotStatus(t, messageId);
  }

  function StatusSet(messageId: int): set<string> {
    {StatusFileName(messageId, Down), StatusFileName(messageId, Up)}
  }

  /** The paths a download may create: the saved file and its renamed copy. */
  function DownloadPaths(fileName: string, download: Option<string>): set<string> {
    match download
    case Some(name) => {SavedPath(name), RenameTarget(fileName, SavedPath(name))}
    case None => {}
  }

  function DestNotices(e: Effects): seq<Notice> {
    if e.destChannel == 0 then [] else if e.destCopyOk then [DestinationCopied] else [DestinationWarning]
  }

  /** How a call of the progress callback ends. */
  datatype Reported = Written | ZeroTotal | CancelSeen

  /** One call of the `progress` callback at the end of a transfer of
      `size` bytes: a zero size raises, a cancelled user's transfer is
      stopped, and otherwise the direction's status file is written. */
  method ReportProgress(fs: FileSystem, size: nat, cancelled: bool, messageId: int, d: Direction)
    returns (r: Reported)
    modifies fs
    ensures r == ZeroTotal <==> size == 0
    ensures r == CancelSeen <==> size > 0 && cancelled
    ensures r == Written ==> fs.files == old(fs.files) + {StatusFileName(messageId, d)}
    ensures r != Written ==> fs.files == old(fs.files)
  {
    var step := ProgressStep(size, size, cancelled, messageId, d);
    match step
    case DivisionByZero => r := ZeroTotal;
    case CancelRaised => r := CancelSeen;
    case StatusWritten(file, _) =>
      fs.Write(file);
      r := Written;
  }

  /** `_send_media_to_dump`: when the kind's sender has a progress
      callback, it runs (and may raise); then the file is posted to the
      dump channel, and a failed copy to the user's destination channel is
      only a warning. The resized thumbnail is removed however the call
      ends. A sticker's upload has no callback, so a cancellation arriving
      during it is not seen: the upload completes and the mark stays. */
  method SendToDump(fs: FileSystem, tm: TaskManager, userId: int, messageId: int, reports: bool, e: Effects)
    returns (exit: Exit, notices: seq<Notice>)
    modifies fs, tm
    ensures fs.files - old(fs.files) <= {StatusFileName(messageId, Up)}
    ensures !reports ==> fs.files == old(fs.files) - {ResizedThumb}
    ensures old(fs.files) - fs.files <= {ResizedThumb}
    ensures ResizedThumb !in fs.files
    ensures tm.cancelledUsers == old(tm.cancelledUsers) + (if e.cancel == DuringUpload then {userId} else {})
    ensures exit == CancelledExit <==> reports && e.cancel == DuringUpload && e.size > 0
    ensures exit == Completed <==> (reports ==> e.cancel != DuringUpload && e.size > 0) && e.uploadOk
    ensures exit == Completed ==> notices == [DumpPosted] + DestNotices(e)
    ensures exit != Completed ==> notices == []
  {
    notices := [];
    if e.cancel == DuringUpload {
      tm.Cancel(userId);
    }
    exit := Completed;
    if reports {
      var reported := ReportProgress(fs, e.size, tm.IsCancelled(userId) && e.cancel == DuringUpload, messageId, Up);
      if reported == ZeroTotal {
        exit := ErrorExit;
      } else if reported == CancelSeen {
        exit := CancelledExit;
      }
    }
    if exit == Completed {
      if !e.uploadOk {
        exit := ErrorExit;
      } else {
        notices := [DumpPosted] + DestNotices(e);
      }
    }
    fs.RemoveIfExists(ResizedThumb);
  }

  /** The download half of the `try` in `handle_media`: the cancellation
      check, the download (whose progress callback writes the download
      status file and may raise) and the check after it. `Completed` means
      the file was saved and no cancellation is pending. */
  method Fetch(fs: FileSystem, tm: TaskManager, userId: int, messageId: int, e: Effects)
    returns (exit: Exit, file: Option<string>)
    modifies fs, tm
    ensures old(fs.files) <= fs.files
    ensures fs.files - old(fs.files) <= {StatusFileName(messageId, Down)} + OptionSet(file)
    ensures file.Some? ==> e.download.Some? && file.value == SavedPath(e.download.value)
    ensures old(tm.IsCancelled(userId)) ==> exit == CancelledExit && file.None? && fs.files == old(fs.files)
    ensures tm.cancelledUsers == old(tm.cancelledUsers) +
      (if FetchArrived(old(tm.IsCancelled(userId)), e) then {userId} else {})
    ensures exit == Completed <==> Fetched(old(tm.IsCancelled(userId)), e)
    ensures exit == Completed ==> file == Some(SavedPath(e.download.value)) && SavedPath(e.download.value) in fs.files
    ensures exit == CancelledExit ==> old(tm.IsCancelled(userId)) || FetchArrived(old(tm.IsCancelled(userId)), e)
    ensures FetchArrived(old(tm.IsCancelled(userId)), e) && e.size > 0 ==> exit == CancelledExit
    ensures !old(tm.IsCancelled(userId)) && e.size == 0 ==> exit == ErrorExit
  {
    file := None;
    if tm.IsCancelled(userId) {
      return CancelledExit, file;
    }
    if e.cancel == DuringDownload {
      tm.Cancel(userId);
    }
    var reported := ReportProgress(fs, e.size, tm.IsCancelled(userId), messageId, Down);
    if reported == ZeroTotal {
      return ErrorExit, file;
    } else if reported == CancelSeen {
      return CancelledExit, file;
    }
    if e.download.None? {
      return ErrorExit, file;
    }
    fs.Write(SavedPath(e.download.value));
    file := Some(SavedPath(e.download.value));
    if e.cancel == AfterDownload {
      tm.Cancel(userId);
    }
    if tm.IsCancelled(userId) {
      return CancelledExit, file;
    }
    exit := Completed;
  }

  /** The download completes and no cancellation is pending after it. */
  predicate Fetched(wasCancelled: bool, e: Effects) {
    && !wasCancelled && e.cancel != DuringDownload && e.cancel != AfterDownload
    && e.size > 0 && e.download.Some?
  }

  /** Whether a cancellation arrives while the download stage runs: during
      the download, or after it once the file is saved. */
  predicate FetchArrived(wasCancelled: bool, e: Effects) {
    && !wasCancelled
    && (e.cancel == DuringDownload || (e.cancel == AfterDownload && e.size > 0 && e.download.Some?))
  }

  /** Whether a cancellation arrives at all: at the download stage, or
      during an upload that starts. */
  predicate Arrived(wasCancelled: bool, fileName: string, e: Effects) {
    || FetchArrived(wasCancelled, e)
    || (e.cancel == DuringUpload && Fetched(wasCancelled, e) && Uploads(fileName, SavedPath(e.download.value), e))
  }

  /** After a completed download of `saved`, the upload starts: the rename
      succeeds and the status message is edited. */
  predicate Uploads(fileName: string, saved: string, e: Effects) {
    Renamable(fileName, saved) && e.uploadEditOk
  }

  /** The body of the `try` runs to its end. */
  predicate Completes(wasCancelled: bool, fileName: string, reports: bool, e: Effects) {
    && Fetched(wasCancelled, e)
    && Uploads(fileName, SavedPath(e.download.value), e)
    && (reports ==> e.cancel != DuringUpload)
    && e.uploadOk && e.userCopyOk
  }

  /** The delivery half of the `try`: the status files are removed, the
      saved file is renamed after the sanitised name, the status message is
      edited, the file is posted to the dump channel and copied to the
      user, and the status files are removed again. `file` is the local
      `file` when it ends: the renamed path once the rename succeeded. */
  method Deliver(fs: FileSystem, tm: TaskManager, userId: int, messageId: int,
                 fileName: string, path: string, reports: bool, e: Effects)
    returns (exit: Exit, file: Option<string>, notices: seq<Notice>)
    requires path in fs.files && path !in StatusSet(messageId)
    modifies fs, tm
    ensures file == Some(if Renamable(fileName, path) then RenameTarget(fileName, path) else path)
    ensures fs.files - old(fs.files) <= {StatusFileName(messageId, Up)} + OptionSet(file)
    ensures old(fs.files) - fs.files <= StatusSet(messageId) + {ResizedThumb, path}
    ensures path in fs.files ==> file == Some(path)
    ensures !Renamable(fileName, path) ==>
      exit == ErrorExit && notices == [] && tm.cancelledUsers == old(tm.cancelledUsers)
    ensures tm.cancelledUsers == old(tm.cancelledUsers) +
      (if Uploads(fileName, path, e) && e.cancel == DuringUpload then {userId} else {})
    ensures exit == CancelledExit <==> Uploads(fileName, path, e) && reports && e.cancel == DuringUpload && e.size > 0
    ensures exit == CancelledExit ==> notices == [StatusUploading]
    ensures exit == Completed <==>
      && Uploads(fileName, path, e) && (reports ==> e.cancel != DuringUpload && e.size > 0)
      && e.uploadOk && e.userCopyOk
    ensures exit == Completed ==>
      && notices == [StatusUploading, DumpPosted] + DestNotices(e) + [UserCopied]
      && RenameTarget(fileName, path) in fs.files
  {
    ghost var before := fs.files;
    CleanupFiles(fs, messageId);
    ghost var cleaned := fs.files;
    var target := RenameTarget(fileName, path);
    if !Renamable(fileName, path) {
      // `os.rename` onto a directory raises
      file, exit, notices := Some(path), ErrorExit, [];
      return;
    }
    fs.Rename(path, target);
    file := Some(target);
    ghost var renamed := fs.files;
    exit, notices := Upload(fs, tm, userId, messageId, reports, e);
    RenameTargetNotStatus(fileName, path, messageId);
    DeliveryFrame(before, cleaned, renamed, fs.files, StatusSet(messageId),
                  StatusFileName(messageId, Up), path, target);
  }

  /** The rest of the `try` once the file is renamed: the status message is
      edited, the file is posted to the dump channel and copied to the
      user, and the status files are removed again. */
  method Upload(fs: FileSystem, tm: TaskManager, userId: int, messageId: int, reports: bool, e: Effects)
    returns (exit: Exit, notices: seq<Notice>)
    modifies fs, tm
    ensures fs.files - old(fs.files) <= {StatusFileName(messageId, Up)}
    ensures old(fs.files) - fs.files <= StatusSet(messageId) + {ResizedThumb}
    ensures tm.cancelledUsers == old(tm.cancelledUsers) +
      (if e.uploadEditOk && e.cancel == DuringUpload then {userId} else {})
    ensures exit == CancelledExit <==> e.uploadEditOk && reports && e.cancel == DuringUpload && e.size > 0
    ensures exit == CancelledExit ==> notices == [StatusUploading]
    ensures exit == Completed <==>
      && e.uploadEditOk && (reports ==> e.cancel != DuringUpload && e.size > 0)
      && e.uploadOk && e.userCopyOk
    ensures exit == Completed ==> notices == [StatusUploading, DumpPosted] + DestNotices(e) + [UserCopied]
  {
    notices := [];
    if !e.uploadEditOk {
      return ErrorExit, notices;
    }
    var dumpExit, posted := SendToDump(fs, tm, userId, messageId, reports, e);
    notices := [StatusUploading] + posted;
    if dumpExit != Completed {
      exit := dumpExit;
    } else if !e.userCopyOk {
      exit := ErrorExit;
    } else {
      notices := notices + [UserCopied];
      UploadTranscript(posted, DestNotices(e));
      CleanupFiles(fs, messageId);
      exit := Completed;
    }
  }

  /** What a completed delivery says: the upload status, then what the dump
      step posted, then the copy to the user. */
  lemma UploadTranscript(posted: seq<Notice>, dest: seq<Notice>)
    requires posted == [DumpPosted] + dest
    ensures [StatusUploading] + posted + [UserCopied] == [StatusUploading, DumpPosted] + dest + [UserCopied]
  {
  }

  /** The files a delivery touches: the status files are removed (twice
      when it completes), the saved file is renamed, and the upload may
      create its status file and remove the resized thumbnail. */
  lemma DeliveryFrame(before: set<string>, cleaned: set<string>, renamed: set<string>,
                      after: set<string>, status: set<string>,
                      up: string, path: string, target: string)
    requires up in status && path !in status && target !in status && target != ResizedThumb
    requires cleaned == before - status
    requires renamed == cleaned - {path} + {target}
    requires after - renamed <= {up} && renamed - after <= status + {ResizedThumb}
    ensures after - before <= {up, target}
    ensures before - after <= status + {ResizedThumb, path}
    ensures path in after ==> path == target
    ensures target in after
  {
    if path in after {
      assert path !in after - renamed;
    }
    forall x | x in before - after && x !in status && x != path
      ensures x == ResizedThumb
    {
      assert x in renamed - after;
    }
    assert target in renamed && target !in status + {ResizedThumb};
  }

  /** The body of the `try` in `handle_media`, up to the point where it
      completes or raises. `file` is the value of the local `file` when it
      ends: the saved path, then its renamed path. */
  method TryTransfer(fs: FileSystem, tm: TaskManager, userId: int, messageId: int,
                     fileName: string, reports: bool, e: Effects)
    returns (exit: Exit, file: Option<string>, notices: seq<Notice>)
    modifies fs, tm
    ensures fs.files - old(fs.files) <= StatusSet(messageId) + OptionSet(file)
    ensures old(fs.files) - fs.files <= StatusSet(messageId) + {ResizedThumb} + DownloadPaths(fileName, e.download)
    ensures file.Some? ==> file.value in DownloadPaths(fileName, e.download)
    ensures old(tm.IsCancelled(userId)) ==>
      exit == CancelledExit && file.None? && notices == [] && fs.files == old(fs.files)
    ensures tm.cancelledUsers == old(tm.cancelledUsers) +
      (if Arrived(old(tm.IsCancelled(userId)), fileName, e) then {userId} else {})
    ensures exit == CancelledExit ==> old(tm.IsCancelled(userId)) || Arrived(old(tm.IsCancelled(userId)), fileName, e)
    ensures exit != CancelledExit && e.size > 0 && reports ==> !Arrived(old(tm.IsCancelled(userId)), fileName, e)
    ensures FetchArrived(old(tm.IsCancelled(userId)), e) && e.size > 0 ==> exit == CancelledExit
    ensures e.size == 0 && !old(tm.IsCancelled(userId)) ==> exit == ErrorExit
    ensures exit == CancelledExit ==> UserCopied !in notices && DumpPosted !in notices
    ensures Fetched(old(tm.IsCancelled(userId)), e) && !Renamable(fileName, SavedPath(e.download.value)) ==>
      exit == ErrorExit && file == Some(SavedPath(e.download.value))
    ensures exit == Completed <==> Completes(old(tm.IsCancelled(userId)), fileName, reports, e)
    ensures exit == Completed ==>
      && file == Some(RenameTarget(fileName, SavedPath(e.download.value)))
      && file.value in fs.files
      && (SavedPath(e.download.value) in fs.files ==> SavedPath(e.download.value) == file.value)
      && notices == [StatusUploading, DumpPosted] + DestNotices(e) + [UserCopied]
  {
    notices := [];
    ghost var before, cancelledBefore := fs.files, tm.cancelledUsers;
    exit, file := Fetch(fs, tm, userId, messageId, e);
    if exit != Completed {
      return;
    }
    assert userId !in cancelledBefore && tm.cancelledUsers == cancelledBefore;
    var path := SavedPath(e.download.value);
    SavedPathNotStatus(e.download.value, messageId);
    ghost var fetched := fs.files;
    exit, file, notices := Deliver(fs, tm, userId, messageId, fileName, path, reports, e);
    StagedThenRenamed(before, fetched, fs.files, StatusFileName(messageId, Down),
                      StatusFileName(messageId, Up), path, file.value);
    RemovedWithin(before, fetched, fs.files, StatusSet(messageId) + {ResizedThumb, path},
                  StatusSet(messageId) + {ResizedThumb} + DownloadPaths(fileName, e.download));
  }

  /** What a later step removes from what an earlier step kept stays
      within what the later step may remove. */
  lemma RemovedWithin(before: set<string>, fetched: set<string>, after: set<string>,
                      removable: set<string>, bound: set<string>)
    requires before <= fetched && fetched - after <= removable && removable <= bound
    ensures before - after <= bound
  {
  }

  /** A file saved by one step and renamed (or left) by the next is, of
      everything those steps added, present only under the name it ends
      with. */
  lemma StagedThenRenamed(before: set<string>, fetched: set<string>, after: set<string>,
                          down: string, up: string, path: string, final: string)
    requires fetched - before <= {down, path}
    requires after - fetched <= {up, final}
    requires path in after ==> path == final
    ensures after - before <= {down, up, final}
  {
    forall x | x in after - before
      ensures x in {down, up, final}
    {
      if x in fetched {
        assert x in fetched - before;
      } else {
        assert x in after - fetched;
      }
    }
  }

  /** The status message is posted before anything else is said and
      deleted after everything else. */
  predicate Bracketed(notices: seq<Notice>) {
    |notices| >= 2 && notices[0] == StatusPosted && notices[|notices| - 1] == StatusDeleted
  }

  /** `handle_media` once the file name has been sanitised and the status
      message posted: the transfer runs, a cancellation clears the user's
      mark and edits the status, any other error is reported, and the
      `finally` block removes the status files, deletes the status message
      and then removes the staged file. A failing deletion raises before
      that removal, so the staged file is left behind. */
  method RunTransfer(fs: FileSystem, tm: TaskManager, userId: int, messageId: int,
                     fileName: string, reports: bool, e: Effects)
    returns (outcome: MediaOutcome, notices: seq<Notice>)
    modifies fs, tm
    ensures e.deleteOk ==> Bracketed(notices)
    ensures !e.deleteOk ==> outcome == Crashed
    ensures e.deleteOk && e.cancelEditOk && e.errorReplyOk ==> outcome != Crashed
    ensures StatusFileName(messageId, Down) !in fs.files && StatusFileName(messageId, Up) !in fs.files
    ensures fs.files - old(fs.files) <= DownloadPaths(fileName, e.download)
    ensures e.deleteOk ==> fs.files <= old(fs.files)
    ensures old(fs.files) - fs.files <= StatusSet(messageId) + {ResizedThumb} + DownloadPaths(fileName, e.download)
    ensures tm.cancelledUsers - {userId} == old(tm.cancelledUsers) - {userId}
    ensures reports && e.size > 0 ==> tm.cancelledUsers <= old(tm.cancelledUsers)
    ensures outcome == Cancelled ==>
      tm.cancelledUsers == old(tm.cancelledUsers) - {userId} && StatusCancelled in notices && UserCopied !in notices
    ensures outcome == Failed ==> ErrorReported in notices
    ensures e.size == 0 && !old(tm.IsCancelled(userId)) ==>
      && outcome != Delivered && outcome != Cancelled
      && tm.cancelledUsers == old(tm.cancelledUsers) + (if e.cancel == DuringDownload then {userId} else {})
    ensures old(tm.IsCancelled(userId)) ==>
      && outcome == (if e.cancelEditOk && e.deleteOk then Cancelled else Crashed)
      && notices == [StatusPosted] + Handled(CancelledExit, e) + Deleted(e)
      && fs.files == old(fs.files) - StatusSet(messageId)
      && tm.cancelledUsers == old(tm.cancelledUsers) - {userId}
    ensures !old(tm.IsCancelled(userId)) && e.cancel == DuringDownload && e.size > 0 ==>
      tm.cancelledUsers == old(tm.cancelledUsers) - {userId} && outcome != Delivered
    ensures !old(tm.IsCancelled(userId)) && e.cancel == NoCancel ==> outcome != Cancelled
    ensures outcome == Delivered <==> Completes(old(tm.IsCancelled(userId)), fileName, reports, e) && e.deleteOk
    ensures outcome == Delivered ==>
      && SavedPath(e.download.value) !in fs.files
      && RenameTarget(fileName, SavedPath(e.download.value)) !in fs.files
      && UserCopied in notices
      && (DestinationWarning in notices <==> e.destChannel != 0 && !e.destCopyOk)
    ensures !reports && Completes(old(tm.IsCancelled(userId)), fileName, reports, e) && e.cancel == DuringUpload ==>
      userId in tm.cancelledUsers
    ensures !e.deleteOk && Completes(old(tm.IsCancelled(userId)), fileName, reports, e) ==>
      RenameTarget(fileName, SavedPath(e.download.value)) in fs.files
  {
    ghost var wasCancelled := tm.IsCancelled(userId);
    var exit, file, posted := TryTransfer(fs, tm, userId, messageId, fileName, reports, e);
    ghost var transferred := fs.files;
    outcome, notices := Settle(fs, tm, userId, messageId, exit, file, posted, e);
    StagedRemoved(old(fs.files), transferred, fs.files, StatusSet(messageId), OptionSet(file),
                  StagedDropped(exit, e));
    if wasCancelled {
      EarlyCancelTranscript(posted, file, e);
    }
    TranscriptHas(posted, exit, e, UserCopied);
    TranscriptHas(posted, exit, e, StatusCancelled);
    TranscriptHas(posted, exit, e, ErrorReported);
    TranscriptHas(posted, exit, e, DestinationWarning);
    if outcome == Delivered {
      DeliveredTranscript(e, posted);
    }
    if exit == Completed {
      RenameTargetNotStatus(fileName, SavedPath(e.download.value), messageId);
    }
  }

  /** A `/cancel` that lands after the transfer's last check (during the
      copies, the cleanup, the handlers or the `finally` block) only marks
      the user: nothing in that transfer clears the mark, so the user's
      next transfer is cancelled at its first check, before any download. */
  method LateCancel(fs: FileSystem, tm: TaskManager, userId: int, messageId: int, nextId: int,
                    fileName: string, reports: bool, e: Effects, next: Effects)
    returns (first: MediaOutcome, second: MediaOutcome, notices: seq<Notice>)
    modifies fs, tm
    ensures second == (if next.cancelEditOk && next.deleteOk then Cancelled else Crashed)
    ensures notices == [StatusPosted] + Handled(CancelledExit, next) + Deleted(next)
    ensures userId !in tm.cancelledUsers
  {
    first, notices := RunTransfer(fs, tm, userId, messageId, fileName, reports, e);
    tm.Cancel(userId);
    second, notices := RunTransfer(fs, tm, userId, nextId, fileName, reports, next);
  }

  /** A user already marked as cancelled gets at most the cancellation
      notice between the posting and the deletion of the status message,
      and no staged file is removed. */
  lemma EarlyCancelTranscript(posted: seq<Notice>, file: Option<string>, e: Effects)
    requires posted == [] && file.None?
    ensures [StatusPosted] + posted + Handled(CancelledExit, e) + Deleted(e)
      == [StatusPosted] + Handled(CancelledExit, e) + Deleted(e)
    ensures OptionSet(file) == {}
  {
  }

  /** Which notices the whole transcript of a transfer holds: the status
      message, what the `try` posted, what the handler posted, the deletion. */
  lemma TranscriptHas(posted: seq<Notice>, exit: Exit, e: Effects, x: Notice)
    requires x != StatusPosted && x != StatusDeleted
    ensures x in [StatusPosted] + posted + Handled(exit, e) + Deleted(e) <==>
      x in posted || x in Handled(exit, e)
  {
  }

  /** `handle_media` for a message of a media kind. The file name (`"Unknown"` when the media has none) is
      sanitised with the user's rules first: a name that is `None` makes
      the sanitiser raise before anything is posted, and so does a failing
      post of the status message; then the transfer runs. */
  method HandleMedia(fs: FileSystem, tm: TaskManager, userId: int, messageId: int,
                     kind: MessageKind.MessageType, name: Option<string>, rules: seq<Rule>, e: Effects)
    returns (outcome: MediaOutcome, notices: seq<Notice>)
    // `get_message_type` gives `Unknown` only to an object without a `text`
    // attribute; a Pyrogram `Message` always has one, so `main.py` never
    // hands `handle_media` anything but a media kind.
    requires kind in MessageKind.MediaOrder
    modifies fs, tm
    ensures name.None? || !e.postOk ==>
      outcome == Crashed && notices == [] && fs.files == old(fs.files) && tm.cancelledUsers == old(tm.cancelledUsers)
    ensures name.Some? && e.postOk && e.deleteOk ==> Bracketed(notices) && fs.files <= old(fs.files)
    ensures name.Some? && e.postOk && e.deleteOk && e.cancelEditOk && e.errorReplyOk ==> outcome != Crashed
    ensures name.Some? && e.postOk ==>
      StatusFileName(messageId, Down) !in fs.files && StatusFileName(messageId, Up) !in fs.files
    ensures name.Some? ==>
      old(fs.files) - fs.files <= StatusSet(messageId) + {ResizedThumb} + DownloadPaths(SanitizeSpec(name.value, rules), e.download)
    ensures name.Some? ==> (outcome == Delivered <==>
      && e.postOk && e.deleteOk
      && Completes(old(tm.IsCancelled(userId)), SanitizeSpec(name.value, rules), UploadReports(kind), e))
    ensures outcome == Cancelled ==> tm.cancelledUsers == old(tm.cancelledUsers) - {userId}
    ensures kind == MessageKind.Sticker && name.Some? && e.postOk && e.cancel == DuringUpload
            && Completes(old(tm.IsCancelled(userId)), SanitizeSpec(name.value, rules), false, e) ==>
      userId in tm.cancelledUsers
  {
    if name.None? {
      return Crashed, [];
    }
    var fileName := SanitizeFilename(name.value, rules);
    if !e.postOk {
      return Crashed, [];
    }
    outcome, notices := RunTransfer(fs, tm, userId, messageId, fileName, UploadReports(kind), e);
  }

  function Handled(exit: Exit, e: Effects): seq<Notice> {
    match exit
    case CancelledExit => if e.cancelEditOk then [StatusCancelled] else []
    case ErrorExit => if e.errorReplyOk then [ErrorReported] else []
    case Completed => []
  }

  function Deleted(e: Effects): seq<Notice> {
    if e.deleteOk then [StatusDeleted] else []
  }

  /** Whether an exception escapes `handle_media`: the handler's own call
      or the deletion of the status message raises. */
  predicate Raises(exit: Exit, e: Effects) {
    || !e.deleteOk
    || (exit == CancelledExit && !e.cancelEditOk)
    || (exit == ErrorExit && !e.errorReplyOk)
  }

  function OutcomeOf(exit: Exit, e: Effects): MediaOutcome {
    if Raises(exit, e) then Crashed
    else match exit
      case CancelledExit => Cancelled
      case ErrorExit => Failed
      case Completed => Delivered
  }

  /** Whether the staged file is removed: by the `finally` block once the
      status message is deleted, or already by the cancellation handler
      when its edit succeeded. */
  predicate StagedDropped(exit: Exit, e: Effects) {
    e.deleteOk || (exit == CancelledExit && e.cancelEditOk)
  }

  /** The `except` handlers and the `finally` block of `handle_media`: a
      cancellation clears the user's mark, edits the status and removes the
      staged files; any other error is reported; then the status files are
      removed, the status message deleted and the staged file removed. A
      handler call that raises skips the rest of its handler, and a
      deletion that raises skips the last removal. */
  method Settle(fs: FileSystem, tm: TaskManager, userId: int, messageId: int,
                exit: Exit, file: Option<string>, posted: seq<Notice>, e: Effects)
    returns (outcome: MediaOutcome, notices: seq<Notice>)
    modifies fs, tm
    ensures outcome == OutcomeOf(exit, e)
    ensures notices == [StatusPosted] + posted + Handled(exit, e) + Deleted(e)
    ensures fs.files == old(fs.files) - StatusSet(messageId) - (if StagedDropped(exit, e) then OptionSet(file) else {})
    ensures exit == CancelledExit ==> tm.cancelledUsers == old(tm.cancelledUsers) - {userId}
    ensures exit != CancelledExit ==> tm.cancelledUsers == old(tm.cancelledUsers)
  {
    if exit == CancelledExit {
      tm.Clear(userId);
      if e.cancelEditOk {
        RemoveStaged(fs, messageId, file);
      }
    }
    // finally
    CleanupFiles(fs, messageId);
    if e.deleteOk && file.Some? {
      fs.RemoveIfExists(file.value);
    }
    outcome := OutcomeOf(exit, e);
    notices := [StatusPosted] + posted + Handled(exit, e) + Deleted(e);
  }

  /** Files added by a step and then removed leave nothing behind; when
      the staged files are kept, only they can remain. */
  lemma StagedRemoved(before: set<string>, during: set<string>, after: set<string>,
                      status: set<string>, staged: set<string>, dropped: bool)
    requires during - before <= status + staged
    requires after == during - status - (if dropped then staged else {})
    ensures after - before <= staged
    ensures dropped ==> after <= before
    ensures before - after <= (before - during) + status + staged
  {
    forall x | x in after - before
      ensures x in staged
    {
      assert x in during - before && x !in status;
    }
  }

  /** A delivered transfer's messages include the copy to the user, and a
      destination warning exactly when a destination channel is set and the
      copy to it failed. */
  lemma DeliveredTranscript(e: Effects, posted: seq<Notice>)
    requires posted == [StatusUploading, DumpPosted] + DestNotices(e) + [UserCopied]
    ensures UserCopied in posted
    ensures DestinationWarning in posted <==> e.destChannel != 0 && !e.destCopyOk
  {
    assert posted[|posted| - 1] == UserCopied;
    if e.destChannel != 0 && !e.destCopyOk {
      assert posted[2] == DestinationWarning;
    }
  }

  function OptionSet(file: Option<string>): set<string> {
    if file.Some? then {file.value} else {}
  }

  /** `cleanup_files` followed by `if file and os.path.exists(file):
      os.remove(file)`, as the cancellation handler runs them. */
  method RemoveStaged(fs: FileSystem, messageId: int, file: Option<string>)
    modifies fs
    ensures fs.files == old(fs.files) - StatusSet(messageId) - OptionSet(file)
  {
    CleanupFiles(fs, messageId);
    if file.Some? {
      fs.RemoveIfExists(file.value);
    }
  }
}
