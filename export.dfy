/** docs_export (yuque.py:118-259): request an export, fetch the exported
    Markdown, and save it behind a metadata header. Every failure before the
    save stage retries by recursion with `retry - 1`; the unpublished reply
    and a 404 stop at once; the save stage never retries.

    The remote side is a script `server`: the attempt made as the k-th export
    request of this client. One attempt bundles everything the network and
    the disk decide for it, so the model needs no clock, no randomness and
    no I/O. */
module Export {
  import opened Optional
  import opened Entities
  import opened Normalize
  import opened Files

  /** The message with which the server refuses to export an unpublished document. */
  const UnpublishedMessage: string := "请发布后再导出"

  /** The retry budget download_all and monitor_updates use. */
  const DefaultRetry: nat := 1

  /** The reply to the export request. `message` is the body's "message"
      field, `None` when reading it raises (no JSON body, no such field).
      `hasUrl` says that the body is JSON holding `data.url`. */
  datatype ExportReply = ExportReply(status: int, message: Option<string>, hasUrl: bool)

  /** The reply to the GET of the exported file. `payload` is its text, `None`
      when the bytes are not valid UTF-8. */
  datatype Download = Download(status: int, payload: Option<string>)

  /** One export attempt: the request raises, or it is answered. Then
      `download` is `None` when the GET raises, `contributors` is `None` when
      the overview call raises, and `faults` are the disk's answers. */
  datatype Attempt =
    | PostRaised
    | Posted(reply: ExportReply, download: Option<Download>, contributors: Option<seq<Contributor>>, faults: SaveFaults)

  /** What docs_export does after one attempt. */
  datatype Step = Retry | Refuse | Save(download: Download, contributors: Option<seq<Contributor>>, faults: SaveFaults)

  /** The branches of yuque.py:150-259, in the source's order: the message is
      read before the status is compared with 404, so a 404 without a
      readable message retries. */
  function Classify(a: Attempt): (s: Step)
    ensures s.Refuse? <==> (a.Posted? && a.reply.status != 200 && a.reply.message.Some? &&
      (a.reply.message.value == UnpublishedMessage || a.reply.status == 404))
    ensures s.Save? <==> (a.Posted? && a.reply.status == 200 && a.reply.hasUrl &&
      a.download.Some? && a.download.value.status == 200)
  {
    match a
    case PostRaised => Retry
    case Posted(reply, download, contributors, faults) =>
      if reply.status != 200 then
        if reply.message.None? then Retry
        else if reply.message.value == UnpublishedMessage then Refuse
        else if reply.status == 404 then Refuse
        else Retry
      else if !reply.hasUrl then Retry
      else match download
        case None => Retry
        case Some(d) => if d.status == 200 then Save(d, contributors, faults) else Retry
  }

  datatype Verdict = Exhausted | Refused | Reached(at: nat)

  /** How an export ends and how many export requests it made. */
  datatype Resolution = Resolution(verdict: Verdict, used: nat)

  /** The retry recursion, starting with the k-th request. */
  function Resolve(retry: nat, server: nat -> Attempt, k: nat): (r: Resolution)
    ensures r.used <= retry
    ensures r.verdict.Exhausted? ==> r.used == retry
    ensures !r.verdict.Exhausted? ==> r.used > 0 && !Classify(server(k + r.used - 1)).Retry?
    ensures r.verdict.Reached? ==> r.verdict.at == k + r.used - 1 && Classify(server(r.verdict.at)).Save?
    ensures r.verdict.Refused? ==> Classify(server(k + r.used - 1)).Refuse?
    decreases retry
  {
    if retry == 0 then Resolution(Exhausted, 0)
    else match Classify(server(k))
      case Retry =>
        var rest := Resolve(retry - 1, server, k + 1);
        Resolution(rest.verdict, rest.used + 1)
      case Refuse => Resolution(Refused, 1)
      case Save(_, _, _) => Resolution(Reached(k), 1)
  }

  /** Every request before the deciding one was answered with a retry. */
  lemma {:induction false} ResolveRetriedBefore(retry: nat, server: nat -> Attempt, k: nat)
    ensures var r := Resolve(retry, server, k);
      forall j :: k <= j < k + r.used - 1 ==> Classify(server(j)).Retry?
    decreases retry
  {
    if retry > 0 && Classify(server(k)).Retry? {
      ResolveRetriedBefore(retry - 1, server, k + 1);
    }
  }

  /** The budget runs out exactly when each of the `retry` attempts asks for a retry. */
  lemma {:induction false} ResolveExhaustedIff(retry: nat, server: nat -> Attempt, k: nat)
    ensures Resolve(retry, server, k).verdict.Exhausted? <==>
      forall j :: k <= j < k + retry ==> Classify(server(j)).Retry?
    decreases retry
  {
    if retry > 0 {
      ResolveExhaustedIff(retry - 1, server, k + 1);
      if Classify(server(k)).Retry? {
        assert (forall j :: k <= j < k + retry ==> Classify(server(j)).Retry?) <==>
          (forall j :: k + 1 <= j < k + 1 + (retry - 1) ==> Classify(server(j)).Retry?);
      }
    }
  }

  /** An unpublished document, or a 404 with a readable body, ends the export
      after one request whatever the budget. */
  lemma RefusedAtOnce(retry: nat, server: nat -> Attempt, k: nat)
    requires retry > 0 && server(k).Posted?
    requires server(k).reply.status != 200 && server(k).reply.message.Some?
    requires server(k).reply.message.value == UnpublishedMessage || server(k).reply.status == 404
    ensures Resolve(retry, server, k) == Resolution(Refused, 1)
  {
    assert Classify(server(k)).Refuse?;
  }

  /** A 404 whose body cannot be read is retried like any other failure. */
  lemma NotFoundWithoutMessageRetries(retry: nat, server: nat -> Attempt, k: nat)
    requires retry > 0 && server(k).Posted?
    requires server(k).reply.status == 404 && server(k).reply.message.None?
    ensures Resolve(retry, server, k).used == 1 + Resolve(retry - 1, server, k + 1).used
  {
    assert Classify(server(k)).Retry?;
  }

  /** The states the file system goes through in the save stage of one attempt:
      a body that does not decode raises before anything is written. */
  function SaveTrace(files: Files, path: string, header: string, d: Download, faults: SaveFaults): (trace: seq<Files>)
    ensures |trace| > 0 && trace[0] == files
  {
    match d.payload
    case None => [files]
    case Some(body) => CommitTrace(files, path, ExportedText(header, body), faults)
  }

  /** The states the file system goes through during a whole export. */
  function ExportTrace(files: Files, baseUrl: string, book: Book, doc: Doc, path: string,
                       retry: nat, server: nat -> Attempt, k: nat): (trace: seq<Files>)
    ensures |trace| > 0 && trace[0] == files
  {
    var r := Resolve(retry, server, k);
    if !r.verdict.Reached? then [files]
    else
      var a := server(r.verdict.at);
      SaveTrace(files, path, Header(baseUrl, book, doc, a.contributors), a.download.value, a.faults)
  }

  /** The value docs_export returns. */
  predicate ExportOk(retry: nat, server: nat -> Attempt, k: nat) {
    var r := Resolve(retry, server, k);
    r.verdict.Reached? &&
    var a := server(r.verdict.at);
    a.download.value.payload.Some? && CommitSucceeds(a.faults)
  }

  /** An export that returns True leaves at the target the header followed by
      the downloaded body with its font tags unwrapped. */
  lemma ExportSuccessContent(files: Files, baseUrl: string, book: Book, doc: Doc, path: string,
                             retry: nat, server: nat -> Attempt, k: nat)
    requires ExportOk(retry, server, k)
    ensures var s := Last(ExportTrace(files, baseUrl, book, doc, path, retry, server, k));
      var a := server(Resolve(retry, server, k).verdict.at);
      path in s && s[path] == Header(baseUrl, book, doc, a.contributors) + StripFontTags(a.download.value.payload.value)
  {
    var a := server(Resolve(retry, server, k).verdict.at);
    var text := ExportedText(Header(baseUrl, book, doc, a.contributors), a.download.value.payload.value);
    CommitSuccessContent(files, path, text, a.faults);
  }

  /** An export that returns False leaves the target as it was, or moved to
      its backup; it never leaves a partial or new text there. */
  lemma ExportFailureKeepsPrevious(files: Files, baseUrl: string, book: Book, doc: Doc, path: string,
                                   retry: nat, server: nat -> Attempt, k: nat)
    requires !ExportOk(retry, server, k)
    ensures var s := Last(ExportTrace(files, baseUrl, book, doc, path, retry, server, k));
      (path in s ==> path in files && s[path] == files[path]) &&
      (path !in s && path in files ==> BackupPath(path) in s && s[BackupPath(path)] == files[path])
  {
    var r := Resolve(retry, server, k);
    if r.verdict.Reached? {
      var a := server(r.verdict.at);
      if a.download.value.payload.Some? {
        var text := ExportedText(Header(baseUrl, book, doc, a.contributors), a.download.value.payload.value);
        CommitFailureKeepsPrevious(files, path, text, a.faults);
      }
    }
  }

  /** An export writes nothing but its target, the target's temp file and
      the target's backup. */
  lemma ExportFrame(files: Files, baseUrl: string, book: Book, doc: Doc, path: string,
                    retry: nat, server: nat -> Attempt, k: nat, p: string)
    requires p != path && p != TempPath(path) && p != BackupPath(path)
    ensures var s := Last(ExportTrace(files, baseUrl, book, doc, path, retry, server, k));
      (p in s <==> p in files) && (p in files ==> s[p] == files[p])
  {
    var r := Resolve(retry, server, k);
    if r.verdict.Reached? {
      var a := server(r.verdict.at);
      if a.download.value.payload.Some? {
        var text := ExportedText(Header(baseUrl, book, doc, a.contributors), a.download.value.payload.value);
        CommitFrame(files, path, text, a.faults);
        var trace := CommitTrace(files, path, text, a.faults);
        assert Last(trace) == trace[|trace| - 1];
      }
    }
  }

  /** An attempt that asks for a retry hands the export on to the next
      request with one retry less. */
  lemma RetryStep(files: Files, baseUrl: string, book: Book, doc: Doc, path: string,
                  retry: nat, server: nat -> Attempt, k: nat)
    requires retry > 0 && Classify(server(k)).Retry?
    ensures Resolve(retry, server, k).used == Resolve(retry - 1, server, k + 1).used + 1
    ensures ExportOk(retry, server, k) == ExportOk(retry - 1, server, k + 1)
    ensures ExportTrace(files, baseUrl, book, doc, path, retry, server, k) ==
      ExportTrace(files, baseUrl, book, doc, path, retry - 1, server, k + 1)
  {
  }

  /** The client. `requests` counts the export requests it has made; the
      k-th one is answered as `server(k)` says. */
  class Yuque {
    const baseUrl: string
    const server: nat -> Attempt
    var requests: nat

    constructor (baseUrl: string, server: nat -> Attempt)
      ensures this.baseUrl == baseUrl && this.server == server && requests == 0
    {
      this.baseUrl := baseUrl;
      this.server := server;
      requests := 0;
    }

    /** docs_export. */
    method DocsExport(fs: FileSystem, book: Book, doc: Doc, savePath: string, retry: nat) returns (ok: bool)
      requires fs.Valid()
      modifies this, fs
      ensures fs.Valid()
      ensures requests == old(requests) + Resolve(retry, server, old(requests)).used
      ensures ok == ExportOk(retry, server, old(requests))
      ensures fs.history == old(fs.history) +
        ExportTrace(old(fs.files), baseUrl, book, doc, savePath, retry, server, old(requests))[1..]
      ensures fs.files == Last(ExportTrace(old(fs.files), baseUrl, book, doc, savePath, retry, server, old(requests)))
      decreases retry, 1
    {
      LastAppend(fs.history, ExportTrace(fs.files, baseUrl, book, doc, savePath, retry, server, requests));
      if retry == 0 {
        return false;
      }
      var a := server(requests);
      requests := requests + 1;
      match a {
        case PostRaised =>
          ok := Again(fs, book, doc, savePath, retry);
        case Posted(reply, download, contributors, faults) =>
          if reply.status != 200 {
            if reply.message.None? {
              ok := Again(fs, book, doc, savePath, retry);
            } else if reply.message.value == UnpublishedMessage {
              ok := false;
            } else if reply.status == 404 {
              ok := false;
            } else {
              ok := Again(fs, book, doc, savePath, retry);
            }
          } else if !reply.hasUrl {
            ok := Again(fs, book, doc, savePath, retry);
          } else if download.None? {
            ok := Again(fs, book, doc, savePath, retry);
          } else if download.value.status == 200 {
            ok := Save(fs, book, doc, savePath, download.value, contributors, faults);
          } else {
            // 422 (export not ready) and every other status
            ok := Again(fs, book, doc, savePath, retry);
          }
      }
    }

    /** The recursive call after a failed attempt. */
    method Again(fs: FileSystem, book: Book, doc: Doc, savePath: string, retry: nat) returns (ok: bool)
      requires fs.Valid() && retry > 0 && requests > 0 && Classify(server(requests - 1)).Retry?
      modifies this, fs
      ensures fs.Valid()
      ensures requests == old(requests) - 1 + Resolve(retry, server, old(requests) - 1).used
      ensures ok == ExportOk(retry, server, old(requests) - 1)
      ensures fs.history == old(fs.history) +
        ExportTrace(old(fs.files), baseUrl, book, doc, savePath, retry, server, old(requests) - 1)[1..]
      decreases retry, 0
    {
      RetryStep(fs.files, baseUrl, book, doc, savePath, retry, server, requests - 1);
      ok := DocsExport(fs, book, doc, savePath, retry - 1);
    }

    /** The save stage of one attempt: build the header, unwrap the font
        tags of the decoded body and commit the text. */
    method Save(fs: FileSystem, book: Book, doc: Doc, savePath: string, d: Download,
                contributors: Option<seq<Contributor>>, faults: SaveFaults) returns (ok: bool)
      requires fs.Valid()
      modifies fs
      ensures fs.Valid()
      ensures ok == (d.payload.Some? && CommitSucceeds(faults))
      ensures fs.history == old(fs.history) +
        SaveTrace(old(fs.files), savePath, Header(baseUrl, book, doc, contributors), d, faults)[1..]
    {
      var header := BuildHeader(baseUrl, book, doc, contributors);
      if d.payload.None? {
        return false;
      }
      var text := header + StripFontTags(d.payload.value);
      ok := Commit(fs, savePath, text, faults);
    }
  }
}
