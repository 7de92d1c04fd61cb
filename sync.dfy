/** download_all (yuque.py:297-403): one full pass over every knowledge base.
    Per book the documents are listed, the batch of documents to export is
    built, the batch is exported, the version dictionary is advanced for the
    exports that returned True, and the dictionary is flushed to disk.

    The batch runs in a thread pool of `min(3, n)` workers whose results are
    joined before use; here the exports of a batch run one after another in
    queue order. */
module Sync {
  import opened Optional
  import opened Entities
  import opened Sanitize
  import opened Versions
  import opened Files
  import opened Export

  const MarkdownSuffix: string := ".md"

  /** The thread pool's bound on concurrent exports. */
  const MaxConcurrency: nat := 3

  /** `os.path.join(dir, name)` on POSIX. */
  function Join(dir: string, name: string): string {
    if |name| > 0 && name[0] == '/' then name
    else if dir == [] || dir[|dir| - 1] == '/' then dir + name
    else dir + "/" + name
  }

  /** `<root>/<sanitized book name>/<sanitized title>.md`. */
  function SavePath(root: string, book: Book, doc: Doc): string {
    Join(Join(root, SanitizeFilename(book.name)), FileName(doc))
  }

  function FileName(doc: Doc): (name: string)
    ensures |name| > |MarkdownSuffix| && name[0] != '/'
    ensures name[|name| - |MarkdownSuffix|..] == MarkdownSuffix
  {
    SanitizeFilename(doc.title) + MarkdownSuffix
  }

  /** Joining a name that is not absolute keeps it at the end of the path. */
  lemma JoinEndsWith(dir: string, name: string)
    requires name != [] && name[0] != '/'
    ensures var p := Join(dir, name); |p| >= |name| && p[|p| - |name|..] == name
  {
  }

  /** Every target is a Markdown file. */
  lemma SavePathIsMarkdown(root: string, book: Book, doc: Doc)
    ensures var p := SavePath(root, book, doc);
      |p| >= |MarkdownSuffix| && p[|p| - 1] == 'd'
  {
    var name := FileName(doc);
    JoinEndsWith(Join(root, SanitizeFilename(book.name)), name);
    var p := SavePath(root, book, doc);
    assert p[|p| - 1] == name[|name| - 1];
  }

  /** No target is ever the temp file or the backup of a target. */
  lemma SideFilesAreNotTargets(root: string, book: Book, doc: Doc, book': Book, doc': Doc)
    ensures TempPath(SavePath(root, book, doc)) != SavePath(root, book', doc')
    ensures BackupPath(SavePath(root, book, doc)) != SavePath(root, book', doc')
  {
    var p := SavePath(root, book, doc);
    var q := SavePath(root, book', doc');
    SavePathIsMarkdown(root, book', doc');
    assert TempPath(p)[|TempPath(p)| - 1] == 'p';
    assert BackupPath(p)[|BackupPath(p)| - 1] == 'k';
  }

  /** The number of workers: at most three, and zero exactly when the batch is empty. */
  function MaxWorkers(queued: nat): (n: nat)
    ensures n <= MaxConcurrency && n <= queued
    ensures n == 0 <==> queued == 0
  {
    if queued < MaxConcurrency then queued else MaxConcurrency
  }

  /** One entry of `export_tasks`. */
  datatype Task = Task(doc: Doc, path: string)

  /** Where the documents of `book` are saved under `root`. The pass
      specification below takes this mapping as a parameter `target`, so
      that its reasoning does not depend on how names are sanitized. */
  function TargetsOf(root: string, book: Book): Doc -> string {
    doc => SavePath(root, book, doc)
  }

  /** A document joins the batch when it is of kind "Doc" and its file is
      missing, or exists and the document is stale. A missing file is
      queued whatever the stored watermark says. */
  predicate Queued(files: Files, versions: Versions, book: Book, target: Doc -> string, doc: Doc) {
    Exportable(doc) && (target(doc) !in files || CheckDocumentUpdates(versions, book, doc))
  }

  /** `export_tasks` after the loop over `docs`. */
  function Queue(files: Files, versions: Versions, book: Book, target: Doc -> string, docs: seq<Doc>): (q: seq<Task>)
    ensures |q| <= |docs|
    ensures forall i :: 0 <= i < |q| ==>
      Queued(files, versions, book, target, q[i].doc) && q[i].path == target(q[i].doc)
  {
    if docs == [] then []
    else
      var doc := docs[|docs| - 1];
      Queue(files, versions, book, target, docs[..|docs| - 1]) +
      (if Queued(files, versions, book, target, doc) then [Task(doc, target(doc))] else [])
  }

  /** Every document of the listing that passes the test is in the batch;
      with QueueFromListing and the ensures of Queue, the batch holds exactly
      the listed documents that pass the test. */
  lemma {:induction false} QueueComplete(files: Files, versions: Versions, book: Book, target: Doc -> string, docs: seq<Doc>)
    ensures forall i :: 0 <= i < |docs| && Queued(files, versions, book, target, docs[i]) ==>
      Task(docs[i], target(docs[i])) in Queue(files, versions, book, target, docs)
  {
    if docs != [] {
      var init := docs[..|docs| - 1];
      QueueComplete(files, versions, book, target, init);
      forall i | 0 <= i < |docs| - 1
        ensures docs[i] == init[i]
      {
      }
    }
  }

  /** Every task of the batch is a document of the listing. */
  lemma {:induction false} QueueFromListing(files: Files, versions: Versions, book: Book, target: Doc -> string, docs: seq<Doc>)
    ensures forall t :: t in Queue(files, versions, book, target, docs) ==> t.doc in docs
  {
    if docs != [] {
      var init := docs[..|docs| - 1];
      QueueFromListing(files, versions, book, target, init);
      assert forall d :: d in init ==> d in docs;
    }
  }

  /** A missing file is queued even when the stored watermark is newer than
      the listing's timestamp. */
  lemma MissingFileQueued(files: Files, versions: Versions, book: Book, target: Doc -> string, doc: Doc)
    requires Exportable(doc) && target(doc) !in files
    requires KeyOf(book, doc) in versions && !CheckDocumentUpdates(versions, book, doc)
    ensures Queue(files, versions, book, target, [doc]) == [Task(doc, target(doc))]
  {
    assert [doc][..0] == [];
  }

  /** A document whose file is missing is exported and, on success, gets
      its listing timestamp recorded whatever the stored watermark was: a
      watermark above the listing timestamp moves back. */
  lemma MissingFileRewindsWatermark(s: PassState, env: Env, book: Book, target: Doc -> string, d: Doc)
    requires Exportable(d) && target(d) !in s.files
    requires ExportOk(DefaultRetry, env.server, s.requests)
    ensures var t := BookStep(s, env, book, target, Some([d]));
      KeyOf(book, d) in t.versions && t.versions[KeyOf(book, d)].updatedAt == d.updatedAt &&
      (KeyOf(book, d) in s.versions && Text.StrLess(d.updatedAt, s.versions[KeyOf(book, d)].updatedAt) ==>
        !Advanced(s.versions, t.versions))
  {
    BookStepSingle(s, env, book, target, d);
    var k := KeyOf(book, d);
    if k in s.versions && Text.StrLess(d.updatedAt, s.versions[k].updatedAt) {
      RecordedOlderRewinds(s.versions, book, d, env.now);
    }
  }

  /** The outcome of one export: what it returned and the world after it. */
  datatype Effect = Effect(ok: bool, files: Files, requests: nat)

  function RunExport(files: Files, requests: nat, baseUrl: string, server: nat -> Attempt, book: Book, t: Task): (e: Effect)
    ensures e.requests <= requests + DefaultRetry
  {
    Effect(
      ExportOk(DefaultRetry, server, requests),
      Last(ExportTrace(files, baseUrl, book, t.doc, t.path, DefaultRetry, server, requests)),
      requests + Resolve(DefaultRetry, server, requests).used)
  }

  /** The results of a batch and the world after it. */
  datatype Batch = Batch(results: seq<bool>, files: Files, requests: nat)

  function RunBatch(files: Files, requests: nat, baseUrl: string, server: nat -> Attempt, book: Book, tasks: seq<Task>): (b: Batch)
    ensures |b.results| == |tasks|
    ensures requests <= b.requests <= requests + |tasks| * DefaultRetry
  {
    if tasks == [] then Batch([], files, requests)
    else
      var prev := RunBatch(files, requests, baseUrl, server, book, tasks[..|tasks| - 1]);
      var e := RunExport(prev.files, prev.requests, baseUrl, server, book, tasks[|tasks| - 1]);
      Batch(prev.results + [e.ok], e.files, e.requests)
  }

  function CountTrue(results: seq<bool>): (n: nat)
    ensures n <= |results|
  {
    if results == [] then 0
    else CountTrue(results[..|results| - 1]) + (if results[|results| - 1] then 1 else 0)
  }

  /** The version dictionary after the loop over the joined results. */
  function Apply(versions: Versions, book: Book, tasks: seq<Task>, results: seq<bool>, now: string): Versions
    requires |tasks| == |results|
  {
    if tasks == [] then versions
    else
      var prev := Apply(versions, book, tasks[..|tasks| - 1], results[..|results| - 1], now);
      if results[|results| - 1] then Recorded(prev, book, tasks[|tasks| - 1].doc, now) else prev
  }

  /** The i-th export returned True and no later export of the same
      document did: its record is the one the results loop leaves. */
  predicate LastSuccess(tasks: seq<Task>, results: seq<bool>, i: nat)
    requires |tasks| == |results| && i < |tasks|
  {
    results[i] && forall j :: i < j < |tasks| && results[j] ==> tasks[j].doc.id != tasks[i].doc.id
  }

  /** Every export that returned True has its record, and the last success
      of each document leaves that document's own record: its listing
      timestamp and the time of the pass. */
  lemma {:induction false} ApplyRecordsSuccesses(versions: Versions, book: Book, tasks: seq<Task>, results: seq<bool>, now: string)
    requires |tasks| == |results|
    ensures forall i :: 0 <= i < |tasks| && results[i] ==>
      KeyOf(book, tasks[i].doc) in Apply(versions, book, tasks, results, now)
    ensures forall i :: 0 <= i < |tasks| && LastSuccess(tasks, results, i) ==>
      Apply(versions, book, tasks, results, now)[KeyOf(book, tasks[i].doc)] == NewRecord(book, tasks[i].doc, now)
  {
    if tasks != [] {
      var n := |tasks| - 1;
      var prev := Apply(versions, book, tasks[..n], results[..n], now);
      ApplyRecordsSuccesses(versions, book, tasks[..n], results[..n], now);
      forall i | 0 <= i < n
        ensures tasks[..n][i] == tasks[i] && results[..n][i] == results[i]
      {
      }
      forall i | 0 <= i < |tasks| && LastSuccess(tasks, results, i)
        ensures Apply(versions, book, tasks, results, now)[KeyOf(book, tasks[i].doc)] == NewRecord(book, tasks[i].doc, now)
      {
        if i < n {
          assert LastSuccess(tasks[..n], results[..n], i);
          if results[n] {
            DocKeyInjective(book.id, tasks[n].doc.id, book.id, tasks[i].doc.id);
          }
        }
      }
    }
  }

  /** A record changes only for a document whose export returned True. */
  lemma {:induction false} ApplyKeepsOthers(versions: Versions, book: Book, tasks: seq<Task>, results: seq<bool>, now: string, key: string)
    requires |tasks| == |results|
    requires forall i :: 0 <= i < |tasks| && results[i] ==> KeyOf(book, tasks[i].doc) != key
    ensures var v := Apply(versions, book, tasks, results, now);
      (key in v <==> key in versions) && (key in v ==> v[key] == versions[key])
  {
    if tasks != [] {
      var n := |tasks| - 1;
      forall i | 0 <= i < n && results[..n][i]
        ensures KeyOf(book, tasks[..n][i].doc) != key
      {
        assert tasks[..n][i] == tasks[i] && results[..n][i] == results[i];
      }
      ApplyKeepsOthers(versions, book, tasks[..n], results[..n], now, key);
    }
  }

  /** The counters download_all logs at the end. */
  datatype Report = Report(total: nat, success: nat, skip: nat, fail: nat)

  /** Everything a pass changes. */
  datatype PassState = PassState(files: Files, requests: nat, versions: Versions, stored: StoredVersions, report: Report)

  /** What a pass reads but does not change: the save root, the client's
      base URL and server script, and the time stamped into new records. */
  datatype Env = Env(root: string, baseUrl: string, server: nat -> Attempt, now: string)

  /** What a pass does with one book whose listing is `listing` (`None` when
      the listing call raises: the book is skipped and nothing is counted).
      `target` says where each of the book's documents is saved. */
  function BookStep(s: PassState, env: Env, book: Book, target: Doc -> string, listing: Option<seq<Doc>>): PassState {
    match listing
    case None => s
    case Some(docs) =>
      var q := Queue(s.files, s.versions, book, target, docs);
      var r := s.report.(total := s.report.total + |docs|, skip := s.report.skip + (|docs| - |q|));
      if MaxWorkers(|q|) == 0 then s.(report := r)
      else
        var b := RunBatch(s.files, s.requests, env.baseUrl, env.server, book, q);
        var v := Apply(s.versions, book, q, b.results, env.now);
        var successes := CountTrue(b.results);
        PassState(b.files, b.requests, v, Readable(v),
          r.(success := r.success + successes, fail := r.fail + (|q| - successes)))
  }

  /** The pass over `books`, in listing order. */
  function Pass(s: PassState, env: Env, books: seq<Book>, docsOf: Book -> Option<seq<Doc>>): PassState {
    if books == [] then s
    else
      var book := books[|books| - 1];
      BookStep(Pass(s, env, books[..|books| - 1], docsOf), env, book, TargetsOf(env.root, book), docsOf(book))
  }

  /** Every listed document is counted once: as a success, a failure, or a skip. */
  predicate Balanced(r: Report) {
    r.success + r.skip + r.fail == r.total
  }

  lemma BookStepBalanced(s: PassState, env: Env, book: Book, target: Doc -> string, listing: Option<seq<Doc>>)
    requires Balanced(s.report)
    ensures Balanced(BookStep(s, env, book, target, listing).report)
  {
  }

  lemma {:induction false} PassBalanced(s: PassState, env: Env, books: seq<Book>, docsOf: Book -> Option<seq<Doc>>)
    requires Balanced(s.report)
    ensures Balanced(Pass(s, env, books, docsOf).report)
  {
    if books != [] {
      var book := books[|books| - 1];
      var prev := Pass(s, env, books[..|books| - 1], docsOf);
      PassBalanced(s, env, books[..|books| - 1], docsOf);
      BookStepBalanced(prev, env, book, TargetsOf(env.root, book), docsOf(book));
    }
  }

  /** After each book that exported something the file holds the dictionary
      as it then is, so a pass that stops later loses no record. */
  lemma BookStepCheckpoints(s: PassState, env: Env, book: Book, target: Doc -> string, docs: seq<Doc>)
    requires Queue(s.files, s.versions, book, target, docs) != []
    ensures var t := BookStep(s, env, book, target, Some(docs));
      Loaded(t.stored) == t.versions
  {
  }

  /** A book with nothing to export makes no request, writes no file and
      does not touch the version file. */
  lemma EmptyBatchTouchesNothing(s: PassState, env: Env, book: Book, target: Doc -> string, docs: seq<Doc>)
    requires Queue(s.files, s.versions, book, target, docs) == []
    ensures var t := BookStep(s, env, book, target, Some(docs));
      t.files == s.files && t.requests == s.requests && t.versions == s.versions && t.stored == s.stored &&
      t.report.skip == s.report.skip + |docs|
  {
  }

  /** With a server on which every export succeeds, every export of a batch returns True. */
  lemma {:induction false} BatchAllSucceed(files: Files, requests: nat, baseUrl: string, server: nat -> Attempt,
                                           book: Book, tasks: seq<Task>)
    requires forall k :: ExportOk(DefaultRetry, server, k)
    ensures forall i :: 0 <= i < |tasks| ==> RunBatch(files, requests, baseUrl, server, book, tasks).results[i]
  {
    if tasks != [] {
      BatchAllSucceed(files, requests, baseUrl, server, book, tasks[..|tasks| - 1]);
    }
  }

  lemma {:induction false} CountAllTrue(results: seq<bool>)
    requires forall i :: 0 <= i < |results| ==> results[i]
    ensures CountTrue(results) == |results|
  {
    if results != [] {
      CountAllTrue(results[..|results| - 1]);
    }
  }

  /** The batch of the three-document example. */
  lemma ThreeDocumentQueue(files: Files, versions: Versions, book: Book, target: Doc -> string, a: Doc, b: Doc, c: Doc)
    requires Exportable(a) && Exportable(b) && Exportable(c)
    requires target(a) !in files
    requires target(b) in files && KeyOf(book, b) in versions && versions[KeyOf(book, b)].updatedAt == b.updatedAt
    requires target(c) in files && KeyOf(book, c) in versions && Text.StrLess(versions[KeyOf(book, c)].updatedAt, c.updatedAt)
    ensures Queue(files, versions, book, target, [a, b, c]) == [Task(a, target(a)), Task(c, target(c))]
  {
    Text.StrLessIrreflexive(b.updatedAt);
    assert !Queued(files, versions, book, target, b);
    assert Queued(files, versions, book, target, c);
    assert [a, b, c][..2] == [a, b] && [a, b][..1] == [a] && [a][..0] == [];
    assert Queue(files, versions, book, target, [a]) == [Task(a, target(a))];
    assert Queue(files, versions, book, target, [a, b]) == [Task(a, target(a))];
  }

  /** The three-document example: `a` never downloaded, `b` downloaded and
      unchanged, `c` downloaded and changed remotely. With every export
      succeeding, `a` and `c` are exported, `b` is skipped, and both exported
      documents end up with their listing timestamp recorded. */
  lemma ThreeDocumentScenario(s: PassState, env: Env, book: Book, target: Doc -> string, a: Doc, b: Doc, c: Doc)
    requires Exportable(a) && Exportable(b) && Exportable(c)
    requires a.id != c.id
    requires target(a) !in s.files
    requires target(b) in s.files && KeyOf(book, b) in s.versions &&
      s.versions[KeyOf(book, b)].updatedAt == b.updatedAt
    requires target(c) in s.files && KeyOf(book, c) in s.versions &&
      Text.StrLess(s.versions[KeyOf(book, c)].updatedAt, c.updatedAt)
    requires forall k :: ExportOk(DefaultRetry, env.server, k)
    ensures var t := BookStep(s, env, book, target, Some([a, b, c]));
      t.report == s.report.(total := s.report.total + 3, success := s.report.success + 2, skip := s.report.skip + 1) &&
      KeyOf(book, a) in t.versions && t.versions[KeyOf(book, a)].updatedAt == a.updatedAt &&
      KeyOf(book, c) in t.versions && t.versions[KeyOf(book, c)].updatedAt == c.updatedAt
  {
    var q := [Task(a, target(a)), Task(c, target(c))];
    ThreeDocumentQueue(s.files, s.versions, book, target, a, b, c);
    var batch := RunBatch(s.files, s.requests, env.baseUrl, env.server, book, q);
    BatchAllSucceed(s.files, s.requests, env.baseUrl, env.server, book, q);
    assert batch.results == [true, true];
    var t := BookStep(s, env, book, target, Some([a, b, c]));
    assert t.report == s.report.(total := s.report.total + 3, success := s.report.success + 2, skip := s.report.skip + 1) by {
      CountAllTrue(batch.results);
    }
    assert t.versions == Recorded(Recorded(s.versions, book, a, env.now), book, c, env.now) by {
      ApplyTwoSuccesses(s.versions, book, q[0], q[1], env.now);
    }
    DocKeyInjective(book.id, a.id, book.id, c.id);
  }

  lemma ApplyTwoSuccesses(versions: Versions, book: Book, t1: Task, t2: Task, now: string)
    ensures Apply(versions, book, [t1, t2], [true, true], now) ==
      Recorded(Recorded(versions, book, t1.doc, now), book, t2.doc, now)
  {
    assert [t1, t2][..1] == [t1] && [t1][..0] == [];
    assert [true, true][..1] == [true] && [true][..0] == [];
    assert Apply(versions, book, [t1], [true], now) == Recorded(versions, book, t1.doc, now);
  }

  /** A document the server refuses as unpublished: one request, no file,
      no record, and the pass counts it as a failure. */
  lemma UnpublishedScenario(s: PassState, env: Env, book: Book, target: Doc -> string, d: Doc)
    requires Exportable(d) && target(d) !in s.files
    requires Classify(env.server(s.requests)).Refuse?
    ensures var t := BookStep(s, env, book, target, Some([d]));
      t.requests == s.requests + 1 && t.files == s.files && t.versions == s.versions &&
      t.report == s.report.(total := s.report.total + 1, fail := s.report.fail + 1)
  {
    BookStepSingle(s, env, book, target, d);
    RefusedExportEffect(s.files, s.requests, env.baseUrl, env.server, book, Task(d, target(d)));
  }

  /** A book listing a single queued document: its one export decides the
      disk, the request count, the record and the counters. */
  lemma BookStepSingle(s: PassState, env: Env, book: Book, target: Doc -> string, d: Doc)
    requires Queued(s.files, s.versions, book, target, d)
    ensures var e := RunExport(s.files, s.requests, env.baseUrl, env.server, book, Task(d, target(d)));
      var v := if e.ok then Recorded(s.versions, book, d, env.now) else s.versions;
      BookStep(s, env, book, target, Some([d])) == PassState(e.files, e.requests, v, Readable(v),
        s.report.(total := s.report.total + 1, success := s.report.success + (if e.ok then 1 else 0),
                  fail := s.report.fail + (if e.ok then 0 else 1)))
  {
    var t := Task(d, target(d));
    QueueOne(s.files, s.versions, book, target, d);
    BookStepOneTask(s, env, book, target, [d], t);
    var e := RunExport(s.files, s.requests, env.baseUrl, env.server, book, t);
    RunBatchOne(s.files, s.requests, env.baseUrl, env.server, book, t);
    ApplyOne(s.versions, book, t, e.ok, env.now);
  }

  lemma QueueOne(files: Files, versions: Versions, book: Book, target: Doc -> string, d: Doc)
    requires Queued(files, versions, book, target, d)
    ensures Queue(files, versions, book, target, [d]) == [Task(d, target(d))]
  {
    assert [d][..0] == [];
  }

  /** The results loop over a single result. */
  lemma ApplyOne(versions: Versions, book: Book, t: Task, ok: bool, now: string)
    ensures Apply(versions, book, [t], [ok], now) == (if ok then Recorded(versions, book, t.doc, now) else versions)
    ensures CountTrue([ok]) == (if ok then 1 else 0)
  {
    assert [ok][..0] == [] && [t][..0] == [];
  }

  /** A book step whose queue holds one task, in terms of that task's batch. */
  lemma BookStepOneTask(s: PassState, env: Env, book: Book, target: Doc -> string, docs: seq<Doc>, t: Task)
    requires Queue(s.files, s.versions, book, target, docs) == [t]
    ensures var b := RunBatch(s.files, s.requests, env.baseUrl, env.server, book, [t]);
      var v := Apply(s.versions, book, [t], b.results, env.now);
      var n := CountTrue(b.results);
      BookStep(s, env, book, target, Some(docs)) == PassState(b.files, b.requests, v, Readable(v),
        s.report.(total := s.report.total + |docs|, success := s.report.success + n,
                  skip := s.report.skip + (|docs| - 1), fail := s.report.fail + (1 - n)))
  {
    assert MaxWorkers(1) != 0;
  }

  /** An export whose first request is refused makes that one request and
      leaves the disk alone. */
  lemma RefusedExportEffect(files: Files, requests: nat, baseUrl: string, server: nat -> Attempt, book: Book, t: Task)
    requires Classify(server(requests)).Refuse?
    ensures RunExport(files, requests, baseUrl, server, book, t) == Effect(false, files, requests + 1)
  {
    assert Resolve(DefaultRetry, server, requests) == Resolution(Refused, 1);
    assert ExportTrace(files, baseUrl, book, t.doc, t.path, DefaultRetry, server, requests) == [files];
  }

  /** A batch of one task is that task's export. */
  lemma RunBatchOne(files: Files, requests: nat, baseUrl: string, server: nat -> Attempt, book: Book, t: Task)
    ensures var e := RunExport(files, requests, baseUrl, server, book, t);
      RunBatch(files, requests, baseUrl, server, book, [t]) == Batch([e.ok], e.files, e.requests)
  {
    assert [t][..0] == [];
    assert [] + [RunExport(files, requests, baseUrl, server, book, t).ok] == [RunExport(files, requests, baseUrl, server, book, t).ok];
  }

  /** The tests the loop applies to one document: only a "Doc" is exported,
      and only when its file is missing or it is stale. */
  method Decide(files: Files, versions: Versions, book: Book, target: Doc -> string, doc: Doc) returns (queue: bool)
    ensures queue == (Exportable(doc) && (target(doc) !in files || CheckDocumentUpdates(versions, book, doc)))
  {
    if doc.kind != ExportableKind {
      return false;
    }
    var savePath := target(doc);
    if savePath in files {
      var hasUpdate := CheckDocumentUpdates(versions, book, doc);
      if !hasUpdate {
        return false;
      }
    }
    return true;
  }

  /** The loop that builds `export_tasks` and counts the skipped documents. */
  method BuildQueue(files: Files, versions: Versions, book: Book, target: Doc -> string, docs: seq<Doc>)
    returns (tasks: seq<Task>, skipped: nat)
    ensures tasks == Queue(files, versions, book, target, docs)
    ensures skipped + |tasks| == |docs|
  {
    tasks := [];
    skipped := 0;
    for i := 0 to |docs|
      invariant tasks == Queue(files, versions, book, target, docs[..i])
      invariant skipped + |tasks| == i
    {
      assert docs[..i + 1][..i] == docs[..i];
      var doc := docs[i];
      assert Queue(files, versions, book, target, docs[..i + 1]) ==
        tasks + (if Queued(files, versions, book, target, doc) then [Task(doc, target(doc))] else []);
      var queue := Decide(files, versions, book, target, doc);
      if queue {
        tasks := tasks + [Task(doc, target(doc))];
      } else {
        skipped := skipped + 1;
      }
    }
    assert docs[..|docs|] == docs;
  }

  /** The batch, one export after another. */
  method RunExports(api: Yuque, fs: FileSystem, book: Book, tasks: seq<Task>) returns (results: seq<bool>)
    requires fs.Valid()
    modifies api, fs
    ensures fs.Valid()
    ensures var b := RunBatch(old(fs.files), old(api.requests), api.baseUrl, api.server, book, tasks);
      results == b.results && fs.files == b.files && api.requests == b.requests
  {
    ghost var files0 := fs.files;
    ghost var requests0 := api.requests;
    results := [];
    for i := 0 to |tasks|
      invariant fs.Valid()
      invariant var b := RunBatch(files0, requests0, api.baseUrl, api.server, book, tasks[..i]);
        results == b.results && fs.files == b.files && api.requests == b.requests
    {
      assert tasks[..i + 1][..i] == tasks[..i];
      var ok := api.DocsExport(fs, book, tasks[i].doc, tasks[i].path, DefaultRetry);
      results := results + [ok];
    }
    assert tasks[..|tasks|] == tasks;
  }

  /** The loop over the joined results: advance the record of each success. */
  method ApplyResults(store: VersionStore, book: Book, tasks: seq<Task>, results: seq<bool>, now: string)
    returns (successes: nat, failures: nat)
    requires |tasks| == |results|
    modifies store
    ensures store.versions == Apply(old(store.versions), book, tasks, results, now)
    ensures successes == CountTrue(results) && successes + failures == |results|
  {
    ghost var versions0 := store.versions;
    successes, failures := 0, 0;
    for i := 0 to |tasks|
      invariant store.versions == Apply(versions0, book, tasks[..i], results[..i], now)
      invariant successes == CountTrue(results[..i]) && successes + failures == i
    {
      assert tasks[..i + 1][..i] == tasks[..i] && results[..i + 1][..i] == results[..i];
      if results[i] {
        var same := store.UpdateDocumentVersion(book, tasks[i].doc, now);
        successes := successes + 1;
      } else {
        failures := failures + 1;
      }
    }
    assert tasks[..|tasks|] == tasks && results[..|results|] == results;
  }

  /** The body of the loop over books. */
  method DownloadBook(api: Yuque, fs: FileSystem, store: VersionStore, file: VersionFile, root: string,
                      target: Doc -> string, now: string, book: Book, listing: Option<seq<Doc>>, report: Report)
    returns (report': Report)
    requires fs.Valid()
    modifies api, fs, store, file
    ensures fs.Valid()
    ensures var t := BookStep(PassState(old(fs.files), old(api.requests), old(store.versions), old(file.stored), report),
                              Env(root, api.baseUrl, api.server, now), book, target, listing);
      fs.files == t.files && api.requests == t.requests && store.versions == t.versions &&
      file.stored == t.stored && report' == t.report
  {
    report' := report;
    if listing.None? {
      return;
    }
    var docs := listing.value;
    report' := report'.(total := report'.total + |docs|);
    var tasks, skipped := BuildQueue(fs.files, store.versions, book, target, docs);
    report' := report'.(skip := report'.skip + skipped);
    var maxWorkers := MaxWorkers(|tasks|);
    if maxWorkers == 0 {
      return;
    }
    var results := RunExports(api, fs, book, tasks);
    var successes, failures := ApplyResults(store, book, tasks, results, now);
    report' := report'.(success := report'.success + successes, fail := report'.fail + failures);
    var saved := file.SaveDocumentVersions(store.versions, Flushed);
  }

  /** download_all: returns False only when the book listing raises, in which
      case nothing is exported and the version file is left alone. */
  method DownloadAll(api: Yuque, fs: FileSystem, file: VersionFile, root: string, now: string,
                     books: Option<seq<Book>>, docsOf: Book -> Option<seq<Doc>>)
    returns (ok: bool, report: Report)
    requires fs.Valid()
    modifies api, fs, file
    ensures fs.Valid()
    ensures ok == books.Some?
    ensures books.None? ==>
      fs.files == old(fs.files) && api.requests == old(api.requests) && file.stored == old(file.stored)
    ensures books.Some? ==>
      var t := Pass(PassState(old(fs.files), old(api.requests), Loaded(old(file.stored)), old(file.stored), Report(0, 0, 0, 0)),
                    Env(root, api.baseUrl, api.server, now), books.value, docsOf);
      fs.files == t.files && api.requests == t.requests && file.stored == Readable(t.versions) &&
      report == t.report && Balanced(report)
  {
    var store := file.LoadDocumentVersions();
    report := Report(0, 0, 0, 0);
    if books.None? {
      return false, report;
    }
    var bs := books.value;
    ghost var env := Env(root, api.baseUrl, api.server, now);
    ghost var start := PassState(fs.files, api.requests, store.versions, file.stored, report);
    for i := 0 to |bs|
      invariant fs.Valid()
      invariant PassState(fs.files, api.requests, store.versions, file.stored, report) == Pass(start, env, bs[..i], docsOf)
    {
      assert bs[..i + 1][..i] == bs[..i];
      report := DownloadBook(api, fs, store, file, root, TargetsOf(root, bs[i]), now, bs[i], docsOf(bs[i]), report);
    }
    assert bs[..|bs|] == bs;
    PassBalanced(start, env, bs, docsOf);
    var saved := file.SaveDocumentVersions(store.versions, Flushed);
    ok := true;
  }
}
