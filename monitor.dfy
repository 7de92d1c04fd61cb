/** monitor_updates (yuque.py:484-537): one incremental pass. Per book the
    listing is sorted newest first, every document of kind "Doc" whose
    listing timestamp is above its stored watermark is exported, and its
    record is written as soon as the export returns True. Unlike
    download_all it does not look at the files on disk, exports one
    document at a time, and flushes the version file once, at the end. */
module Monitor {
  import opened Optional
  import opened Text
  import opened Entities
  import opened Versions
  import opened Files
  import opened Export
  import opened Sync

  /** Newest first: no document is followed by a newer one. */
  predicate NewestFirst(docs: seq<Doc>) {
    forall i, j :: 0 <= i < j < |docs| ==> StrLessEq(docs[j].updatedAt, docs[i].updatedAt)
  }

  /** Places `d` after every document that is at least as new. */
  function Insert(d: Doc, sorted: seq<Doc>): (r: seq<Doc>)
    ensures |r| == |sorted| + 1
  {
    if sorted == [] then [d]
    else if StrLess(sorted[0].updatedAt, d.updatedAt) then [d] + sorted
    else [sorted[0]] + Insert(d, sorted[1..])
  }

  /** `docs.sort(key=lambda d: d.updated_at, reverse=True)`, as a stable
      insertion of each document after those already placed. */
  function SortByTime(docs: seq<Doc>): (r: seq<Doc>)
    ensures |r| == |docs|
  {
    if docs == [] then []
    else Insert(docs[|docs| - 1], SortByTime(docs[..|docs| - 1]))
  }

  lemma {:induction false} InsertPermutes(d: Doc, sorted: seq<Doc>)
    ensures multiset(Insert(d, sorted)) == multiset(sorted) + multiset{d}
  {
    if sorted != [] && !StrLess(sorted[0].updatedAt, d.updatedAt) {
      InsertPermutes(d, sorted[1..]);
      assert sorted == [sorted[0]] + sorted[1..];
    }
  }

  /** The sort reorders the listing and neither drops nor adds a document. */
  lemma {:induction false} SortPermutes(docs: seq<Doc>)
    ensures multiset(SortByTime(docs)) == multiset(docs)
  {
    if docs != [] {
      var n := |docs| - 1;
      SortPermutes(docs[..n]);
      InsertPermutes(docs[n], SortByTime(docs[..n]));
      assert docs == docs[..n] + [docs[n]];
    }
  }

  /** `a <= b < c` gives `a < c`. */
  lemma StrLessEqLess(a: string, b: string, c: string)
    requires StrLessEq(a, b) && StrLess(b, c)
    ensures StrLess(a, c)
  {
    if a != b {
      StrLessTransitive(a, b, c);
    }
  }

  lemma {:induction false} InsertNewestFirst(d: Doc, sorted: seq<Doc>)
    requires NewestFirst(sorted)
    ensures NewestFirst(Insert(d, sorted))
    decreases sorted
  {
    if sorted == [] {
    } else if StrLess(sorted[0].updatedAt, d.updatedAt) {
      var r := [d] + sorted;
      forall i, j | 0 <= i < j < |r|
        ensures StrLessEq(r[j].updatedAt, r[i].updatedAt)
      {
        if i == 0 {
          StrLessEqLess(r[j].updatedAt, sorted[0].updatedAt, d.updatedAt);
        } else {
          assert r[i] == sorted[i - 1] && r[j] == sorted[j - 1];
        }
      }
    } else {
      StrLessTotal(sorted[0].updatedAt, d.updatedAt);
      var rest := Insert(d, sorted[1..]);
      InsertNewestFirst(d, sorted[1..]);
      InsertPermutes(d, sorted[1..]);
      var r := [sorted[0]] + rest;
      forall j | 0 < j < |r|
        ensures StrLessEq(r[j].updatedAt, sorted[0].updatedAt)
      {
        assert r[j] == rest[j - 1];
        assert r[j] in multiset(rest);
        if r[j] != d {
          assert r[j] in multiset(sorted[1..]);
          var k :| 0 <= k < |sorted[1..]| && sorted[1..][k] == r[j];
          assert sorted[k + 1] == r[j];
        }
      }
      forall i, j | 0 <= i < j < |r|
        ensures StrLessEq(r[j].updatedAt, r[i].updatedAt)
      {
        if i > 0 {
          assert r[i] == rest[i - 1] && r[j] == rest[j - 1];
        }
      }
    }
  }

  /** The sorted listing is newest first. */
  lemma {:induction false} SortNewestFirst(docs: seq<Doc>)
    ensures NewestFirst(SortByTime(docs))
  {
    if docs != [] {
      var n := |docs| - 1;
      SortNewestFirst(docs[..n]);
      InsertNewestFirst(docs[n], SortByTime(docs[..n]));
    }
  }

  /** The documents with timestamp `t`, in order. */
  function WithTime(docs: seq<Doc>, t: string): (r: seq<Doc>)
    ensures |r| <= |docs|
  {
    if docs == [] then []
    else (if docs[0].updatedAt == t then [docs[0]] else []) + WithTime(docs[1..], t)
  }

  lemma {:induction false} WithTimeConcat(a: seq<Doc>, b: seq<Doc>, t: string)
    ensures WithTime(a + b, t) == WithTime(a, t) + WithTime(b, t)
  {
    if a == [] {
      assert a + b == b;
    } else {
      var head := if a[0].updatedAt == t then [a[0]] else [];
      assert (a + b)[0] == a[0] && (a + b)[1..] == a[1..] + b;
      WithTimeConcat(a[1..], b, t);
      calc {
        WithTime(a + b, t);
        head + WithTime(a[1..] + b, t);
        head + (WithTime(a[1..], t) + WithTime(b, t));
        (head + WithTime(a[1..], t)) + WithTime(b, t);
      }
    }
  }

  /** No document strictly older than `t` has timestamp `t`. */
  lemma {:induction false} OlderWithoutTime(docs: seq<Doc>, t: string)
    requires forall i :: 0 <= i < |docs| ==> StrLess(docs[i].updatedAt, t)
    ensures WithTime(docs, t) == []
  {
    if docs != [] {
      StrLessIrreflexive(t);
      OlderWithoutTime(docs[1..], t);
    }
  }

  lemma NewestFirstTail(sorted: seq<Doc>)
    requires sorted != [] && NewestFirst(sorted)
    ensures NewestFirst(sorted[1..])
  {
    forall i, j | 0 <= i < j < |sorted| - 1
      ensures StrLessEq(sorted[1..][j].updatedAt, sorted[1..][i].updatedAt)
    {
      assert sorted[1..][i] == sorted[i + 1] && sorted[1..][j] == sorted[j + 1];
    }
  }

  /** A document newer than the whole sorted list goes in front, and no
      listed document shares its timestamp. */
  lemma InsertFrontStable(d: Doc, sorted: seq<Doc>, t: string)
    requires sorted != [] && NewestFirst(sorted) && StrLess(sorted[0].updatedAt, d.updatedAt)
    ensures WithTime([d] + sorted, t) == WithTime(sorted, t) + (if d.updatedAt == t then [d] else [])
  {
    if d.updatedAt == t {
      forall i | 0 <= i < |sorted|
        ensures StrLess(sorted[i].updatedAt, t)
      {
        StrLessEqLess(sorted[i].updatedAt, sorted[0].updatedAt, d.updatedAt);
      }
      OlderWithoutTime(sorted, t);
    }
    assert ([d] + sorted)[0] == d && ([d] + sorted)[1..] == sorted;
  }

  lemma {:induction false} InsertStable(d: Doc, sorted: seq<Doc>, t: string)
    requires NewestFirst(sorted)
    ensures WithTime(Insert(d, sorted), t) == WithTime(sorted, t) + (if d.updatedAt == t then [d] else [])
    decreases sorted
  {
    if sorted == [] {
    } else if StrLess(sorted[0].updatedAt, d.updatedAt) {
      InsertFrontStable(d, sorted, t);
    } else {
      var rest := Insert(d, sorted[1..]);
      var head := if sorted[0].updatedAt == t then [sorted[0]] else [];
      var extra := if d.updatedAt == t then [d] else [];
      NewestFirstTail(sorted);
      InsertStable(d, sorted[1..], t);
      assert ([sorted[0]] + rest)[0] == sorted[0] && ([sorted[0]] + rest)[1..] == rest;
      calc {
        WithTime(Insert(d, sorted), t);
        WithTime([sorted[0]] + rest, t);
        head + WithTime(rest, t);
        head + (WithTime(sorted[1..], t) + extra);
        (head + WithTime(sorted[1..], t)) + extra;
        WithTime(sorted, t) + extra;
      }
    }
  }

  /** The sort is stable: documents with the same timestamp keep their
      listing order. */
  lemma {:induction false} SortStable(docs: seq<Doc>, t: string)
    ensures WithTime(SortByTime(docs), t) == WithTime(docs, t)
  {
    if docs != [] {
      var n := |docs| - 1;
      SortStable(docs[..n], t);
      SortNewestFirst(docs[..n]);
      InsertStable(docs[n], SortByTime(docs[..n]), t);
      assert docs == docs[..n] + [docs[n]];
      WithTimeConcat(docs[..n], [docs[n]], t);
      assert [docs[n]][1..] == [];
    }
  }

  /** Everything one monitor pass changes, but the version file. */
  datatype MonitorState = MonitorState(files: Files, requests: nat, versions: Versions)

  /** One document of the loop: exported only when it is of kind "Doc" and
      stale, and its record written at once when the export returns True.
      `target` says where the document is saved. */
  function DocStep(m: MonitorState, env: Env, book: Book, target: Doc -> string, doc: Doc): MonitorState {
    if !Exportable(doc) || !CheckDocumentUpdates(m.versions, book, doc) then m
    else
      var e := RunExport(m.files, m.requests, env.baseUrl, env.server, book, Task(doc, target(doc)));
      MonitorState(e.files, e.requests, if e.ok then Recorded(m.versions, book, doc, env.now) else m.versions)
  }

  /** The loop over `docs`, in order. */
  function DocsStep(m: MonitorState, env: Env, book: Book, target: Doc -> string, docs: seq<Doc>): MonitorState {
    if docs == [] then m
    else DocStep(DocsStep(m, env, book, target, docs[..|docs| - 1]), env, book, target, docs[|docs| - 1])
  }

  /** One book: a listing that raises (`None`) skips the book; otherwise the
      listing is sorted newest first and walked. */
  function MonitorBookStep(m: MonitorState, env: Env, book: Book, target: Doc -> string,
                           listing: Option<seq<Doc>>): MonitorState {
    match listing
    case None => m
    case Some(docs) => DocsStep(m, env, book, target, SortByTime(docs))
  }

  /** The loop over `books`, in listing order. */
  function MonitorPass(m: MonitorState, env: Env, books: seq<Book>, docsOf: Book -> Option<seq<Doc>>): MonitorState {
    if books == [] then m
    else
      var book := books[|books| - 1];
      MonitorBookStep(MonitorPass(m, env, books[..|books| - 1], docsOf), env, book, TargetsOf(env.root, book), docsOf(book))
  }

  /** A document step never loses a record or moves a watermark back: it
      writes a record only for a stale document, and then with a newer
      timestamp. */
  lemma DocStepAdvances(m: MonitorState, env: Env, book: Book, target: Doc -> string, doc: Doc)
    ensures Advanced(m.versions, DocStep(m, env, book, target, doc).versions)
  {
    if Exportable(doc) && CheckDocumentUpdates(m.versions, book, doc) {
      RecordedStaleAdvances(m.versions, book, doc, env.now);
    }
  }

  lemma {:induction false} DocsStepAdvances(m: MonitorState, env: Env, book: Book, target: Doc -> string, docs: seq<Doc>)
    ensures Advanced(m.versions, DocsStep(m, env, book, target, docs).versions)
  {
    if docs == [] {
    } else {
      var prev := DocsStep(m, env, book, target, docs[..|docs| - 1]);
      DocsStepAdvances(m, env, book, target, docs[..|docs| - 1]);
      DocStepAdvances(prev, env, book, target, docs[|docs| - 1]);
      AdvancedTransitive(m.versions, prev.versions, DocsStep(m, env, book, target, docs).versions);
    }
  }

  /** Over a whole monitor pass the watermarks only move forward. */
  lemma {:induction false} MonitorPassAdvances(m: MonitorState, env: Env, books: seq<Book>, docsOf: Book -> Option<seq<Doc>>)
    ensures Advanced(m.versions, MonitorPass(m, env, books, docsOf).versions)
  {
    if books == [] {
    } else {
      var book := books[|books| - 1];
      var prev := MonitorPass(m, env, books[..|books| - 1], docsOf);
      MonitorPassAdvances(m, env, books[..|books| - 1], docsOf);
      var listing := docsOf(book);
      if listing.Some? {
        DocsStepAdvances(prev, env, book, TargetsOf(env.root, book), SortByTime(listing.value));
      } else {
        assert Advanced(prev.versions, prev.versions);
      }
      AdvancedTransitive(m.versions, prev.versions, MonitorPass(m, env, books, docsOf).versions);
    }
  }

  /** A book none of whose documents is a stale "Doc" makes no request,
      writes no file and changes no record. */
  lemma {:induction false} UpToDateDocsUntouched(m: MonitorState, env: Env, book: Book, target: Doc -> string, docs: seq<Doc>)
    requires forall i :: 0 <= i < |docs| ==> !Exportable(docs[i]) || !CheckDocumentUpdates(m.versions, book, docs[i])
    ensures DocsStep(m, env, book, target, docs) == m
  {
    if docs != [] {
      UpToDateDocsUntouched(m, env, book, target, docs[..|docs| - 1]);
    }
  }

  lemma UpToDateBookUntouched(m: MonitorState, env: Env, book: Book, target: Doc -> string, docs: seq<Doc>)
    requires forall d :: d in docs ==> !Exportable(d) || !CheckDocumentUpdates(m.versions, book, d)
    ensures MonitorBookStep(m, env, book, target, Some(docs)) == m
  {
    var sorted := SortByTime(docs);
    SortPermutes(docs);
    forall i | 0 <= i < |sorted|
      ensures !Exportable(sorted[i]) || !CheckDocumentUpdates(m.versions, book, sorted[i])
    {
      assert sorted[i] in multiset(docs);
    }
    UpToDateDocsUntouched(m, env, book, target, sorted);
  }

  /** A stale document whose export succeeds gets its listing timestamp
      recorded; a failed export leaves the dictionary as it was. */
  lemma DocStepRecords(m: MonitorState, env: Env, book: Book, target: Doc -> string, doc: Doc)
    requires Exportable(doc) && CheckDocumentUpdates(m.versions, book, doc)
    ensures var t := DocStep(m, env, book, target, doc);
      t.requests == m.requests + Resolve(DefaultRetry, env.server, m.requests).used &&
      (ExportOk(DefaultRetry, env.server, m.requests) ==>
        KeyOf(book, doc) in t.versions && t.versions[KeyOf(book, doc)].updatedAt == doc.updatedAt) &&
      (!ExportOk(DefaultRetry, env.server, m.requests) ==> t.versions == m.versions)
  {
  }

  /** The loop over one book's documents, newest first. */
  method MonitorBook(api: Yuque, fs: FileSystem, store: VersionStore, root: string, target: Doc -> string,
                     now: string, book: Book, listing: Option<seq<Doc>>)
    requires fs.Valid()
    modifies api, fs, store
    ensures fs.Valid()
    ensures var t := MonitorBookStep(MonitorState(old(fs.files), old(api.requests), old(store.versions)),
                                     Env(root, api.baseUrl, api.server, now), book, target, listing);
      fs.files == t.files && api.requests == t.requests && store.versions == t.versions
  {
    if listing.None? {
      return;
    }
    var docs := SortByTime(listing.value);
    ghost var env := Env(root, api.baseUrl, api.server, now);
    ghost var start := MonitorState(fs.files, api.requests, store.versions);
    for i := 0 to |docs|
      invariant fs.Valid()
      invariant MonitorState(fs.files, api.requests, store.versions) == DocsStep(start, env, book, target, docs[..i])
    {
      assert docs[..i + 1][..i] == docs[..i];
      MonitorDoc(api, fs, store, root, target, now, book, docs[i]);
    }
    assert docs[..|docs|] == docs;
  }

  /** The body of the loop over documents. */
  method MonitorDoc(api: Yuque, fs: FileSystem, store: VersionStore, root: string, target: Doc -> string,
                    now: string, book: Book, doc: Doc)
    requires fs.Valid()
    modifies api, fs, store
    ensures fs.Valid()
    ensures var t := DocStep(MonitorState(old(fs.files), old(api.requests), old(store.versions)),
                             Env(root, api.baseUrl, api.server, now), book, target, doc);
      fs.files == t.files && api.requests == t.requests && store.versions == t.versions
  {
    if doc.kind != ExportableKind {
      return;
    }
    var hasUpdate := CheckDocumentUpdates(store.versions, book, doc);
    if hasUpdate {
      var savePath := target(doc);
      var exportSuccess := api.DocsExport(fs, book, doc, savePath, DefaultRetry);
      if exportSuccess {
        var same := store.UpdateDocumentVersion(book, doc, now);
      }
    }
  }

  /** monitor_updates: when the book listing raises nothing happens at all;
      otherwise every book is walked and the dictionary is flushed once at
      the end, and no watermark in the version file has moved back. */
  method MonitorUpdates(api: Yuque, fs: FileSystem, file: VersionFile, root: string, now: string,
                        books: Option<seq<Book>>, docsOf: Book -> Option<seq<Doc>>)
    requires fs.Valid()
    modifies api, fs, file
    ensures fs.Valid()
    ensures books.None? ==>
      fs.files == old(fs.files) && api.requests == old(api.requests) && file.stored == old(file.stored)
    ensures books.Some? ==>
      var t := MonitorPass(MonitorState(old(fs.files), old(api.requests), Loaded(old(file.stored))),
                           Env(root, api.baseUrl, api.server, now), books.value, docsOf);
      fs.files == t.files && api.requests == t.requests && file.stored == Readable(t.versions)
    ensures books.Some? ==> Advanced(Loaded(old(file.stored)), Loaded(file.stored))
  {
    var store := file.LoadDocumentVersions();
    if books.None? {
      return;
    }
    var bs := books.value;
    ghost var env := Env(root, api.baseUrl, api.server, now);
    ghost var start := MonitorState(fs.files, api.requests, store.versions);
    for i := 0 to |bs|
      invariant fs.Valid()
      invariant MonitorState(fs.files, api.requests, store.versions) == MonitorPass(start, env, bs[..i], docsOf)
    {
      assert bs[..i + 1][..i] == bs[..i];
      MonitorBook(api, fs, store, root, TargetsOf(root, bs[i]), now, bs[i], docsOf(bs[i]));
    }
    assert bs[..|bs|] == bs;
    MonitorPassAdvances(start, env, bs, docsOf);
    var saved := file.SaveDocumentVersions(store.versions, Flushed);
  }
}
