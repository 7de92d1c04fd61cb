/** The version watermark store (yuque.py:424-481): a dictionary from
    "{book.id}_{doc.id}" to the record of the last successful export, the
    staleness test against it, the in-place update after an export, and the
    JSON file it is loaded from and saved to. */
module Versions {
  import opened Text
  import opened Entities

  /** One entry of the dictionary, as update_document_version writes it. */
  datatype VersionRecord = VersionRecord(
    bookId: int,
    bookName: string,
    docId: int,
    docTitle: string,
    updatedAt: string,
    lastCheckTime: string)

  type Versions = map<string, VersionRecord>

  /** The dictionary key `f"{book.id}_{doc.id}"`. */
  function DocKey(bookId: int, docId: int): string {
    IntToString(bookId) + "_" + IntToString(docId)
  }

  /** Keys of different (book, document) pairs never collide: integers render
      without an underscore, so the first underscore splits the key. */
  lemma DocKeyInjective(bookId: int, docId: int, bookId': int, docId': int)
    ensures DocKey(bookId, docId) == DocKey(bookId', docId') <==> bookId == bookId' && docId == docId'
  {
    if DocKey(bookId, docId) == DocKey(bookId', docId') {
      IntToStringChars(bookId);
      IntToStringChars(bookId');
      assert '_' !in IntToString(bookId) && '_' !in IntToString(bookId');
      SplitAtSeparator(IntToString(bookId), IntToString(docId), IntToString(bookId'), IntToString(docId'), '_');
      IntToStringInjective(bookId, bookId');
      IntToStringInjective(docId, docId');
    }
  }

  function KeyOf(book: Book, doc: Doc): string {
    DocKey(book.id, doc.id)
  }

  /** `versions.get(key, {}).get("updated_at", "")`: the stored watermark, or
      the empty string when the document has no record. */
  function Watermark(versions: Versions, key: string): string {
    if key in versions then versions[key].updatedAt else ""
  }

  /** check_document_updates: the remote timestamp is newer than the stored
      one under plain string comparison. */
  function CheckDocumentUpdates(versions: Versions, book: Book, doc: Doc): (stale: bool)
    ensures stale ==> doc.updatedAt != ""
  {
    StrLess(Watermark(versions, KeyOf(book, doc)), doc.updatedAt)
  }

  /** A document is up to date exactly when its remote timestamp is not above
      the stored one; in particular an equal timestamp is never stale. */
  lemma UpToDateIff(versions: Versions, book: Book, doc: Doc)
    ensures !CheckDocumentUpdates(versions, book, doc) <==>
      StrLessEq(doc.updatedAt, Watermark(versions, KeyOf(book, doc)))
  {
    var w := Watermark(versions, KeyOf(book, doc));
    StrLessTotal(w, doc.updatedAt);
    if StrLess(w, doc.updatedAt) {
      StrLessAsymmetric(w, doc.updatedAt);
      StrLessIrreflexive(w);
    }
  }

  /** Without a record every document with a non-empty timestamp is stale. */
  lemma MissingRecordIsStale(versions: Versions, book: Book, doc: Doc)
    requires KeyOf(book, doc) !in versions
    ensures CheckDocumentUpdates(versions, book, doc) <==> doc.updatedAt != ""
  {
    EmptyStrLess(doc.updatedAt);
  }

  function NewRecord(book: Book, doc: Doc, now: string): VersionRecord {
    VersionRecord(book.id, book.name, doc.id, doc.title, doc.updatedAt, now)
  }

  /** The dictionary after update_document_version: exactly one entry is
      written, every other entry stays as it was. */
  function Recorded(versions: Versions, book: Book, doc: Doc, now: string): (r: Versions)
    ensures r.Keys == versions.Keys + {KeyOf(book, doc)}
    ensures r[KeyOf(book, doc)].updatedAt == doc.updatedAt
    ensures forall k :: k in versions && k != KeyOf(book, doc) ==> r[k] == versions[k]
  {
    versions[KeyOf(book, doc) := NewRecord(book, doc, now)]
  }

  /** Right after its record is written a document is no longer stale. */
  lemma RecordedIsUpToDate(versions: Versions, book: Book, doc: Doc, now: string)
    ensures !CheckDocumentUpdates(Recorded(versions, book, doc, now), book, doc)
  {
    StrLessIrreflexive(doc.updatedAt);
  }

  /** Writing one document's record leaves the staleness of every other
      (book, document) pair as it was. */
  lemma RecordedKeepsOthers(versions: Versions, book: Book, doc: Doc, now: string, book': Book, doc': Doc)
    requires book'.id != book.id || doc'.id != doc.id
    ensures CheckDocumentUpdates(Recorded(versions, book, doc, now), book', doc') ==
      CheckDocumentUpdates(versions, book', doc')
  {
    DocKeyInjective(book.id, doc.id, book'.id, doc'.id);
  }

  /** No record is lost and no watermark moves back between `before` and `after`. */
  predicate Advanced(before: Versions, after: Versions) {
    before.Keys <= after.Keys &&
    forall k :: k in before ==> StrLessEq(before[k].updatedAt, after[k].updatedAt)
  }

  lemma AdvancedTransitive(a: Versions, b: Versions, c: Versions)
    requires Advanced(a, b) && Advanced(b, c)
    ensures Advanced(a, c)
  {
    forall k | k in a
      ensures StrLessEq(a[k].updatedAt, c[k].updatedAt)
    {
      if a[k].updatedAt != b[k].updatedAt && b[k].updatedAt != c[k].updatedAt {
        StrLessTransitive(a[k].updatedAt, b[k].updatedAt, c[k].updatedAt);
      }
    }
  }

  /** Recording a stale document advances the dictionary: the one watermark
      written was below the new timestamp. */
  lemma RecordedStaleAdvances(versions: Versions, book: Book, doc: Doc, now: string)
    requires CheckDocumentUpdates(versions, book, doc)
    ensures Advanced(versions, Recorded(versions, book, doc, now))
  {
  }

  /** Recording a timestamp below the stored one moves that watermark back. */
  lemma RecordedOlderRewinds(versions: Versions, book: Book, doc: Doc, now: string)
    requires KeyOf(book, doc) in versions && StrLess(doc.updatedAt, versions[KeyOf(book, doc)].updatedAt)
    ensures !Advanced(versions, Recorded(versions, book, doc, now))
  {
    var w := versions[KeyOf(book, doc)].updatedAt;
    StrLessIrreflexive(doc.updatedAt);
    StrLessAsymmetric(doc.updatedAt, w);
  }

  /** The in-memory dictionary, updated in place by update_document_version. */
  class VersionStore {
    var versions: Versions

    constructor (loaded: Versions)
      ensures versions == loaded
    {
      versions := loaded;
    }

    /** update_document_version: overwrite the entry of `doc`, whatever it
        held before; the same dictionary is returned. */
    method UpdateDocumentVersion(book: Book, doc: Doc, now: string) returns (same: VersionStore)
      modifies this
      ensures same == this
      ensures versions == Recorded(old(versions), book, doc, now)
    {
      versions := versions[KeyOf(book, doc) := NewRecord(book, doc, now)];
      same := this;
    }
  }

  /** What `document_versions.json` holds between runs. */
  datatype StoredVersions = NoFile | Readable(versions: Versions) | Unreadable

  /** How one `open(..., "w")` + `json.dump` attempt ends. */
  datatype FlushFault = Flushed | OpenFailed | DumpFailed

  /** load_document_versions: a missing or unreadable file gives an empty
      dictionary, never an error. */
  function Loaded(file: StoredVersions): (r: Versions)
    ensures !file.Readable? ==> r == map[]
  {
    if file.Readable? then file.versions else map[]
  }

  /** The file after save_document_versions. The file is opened for writing
      in place, so a dump that fails part-way leaves a truncated file that
      the next load reads as empty. */
  function Saved(file: StoredVersions, versions: Versions, fault: FlushFault): (r: StoredVersions)
    ensures fault.Flushed? ==> Loaded(r) == versions
    ensures fault.OpenFailed? ==> r == file
    ensures fault.DumpFailed? ==> Loaded(r) == map[]
  {
    match fault
    case Flushed => Readable(versions)
    case OpenFailed => file
    case DumpFailed => Unreadable
  }

  /** The version file on disk. */
  class VersionFile {
    var stored: StoredVersions

    constructor (stored: StoredVersions)
      ensures this.stored == stored
    {
      this.stored := stored;
    }

    method LoadDocumentVersions() returns (store: VersionStore)
      ensures fresh(store) && store.versions == Loaded(stored)
    {
      store := new VersionStore(Loaded(stored));
    }

    /** save_document_versions: returns whether the dump completed. */
    method SaveDocumentVersions(versions: Versions, fault: FlushFault) returns (ok: bool)
      modifies this
      ensures ok == fault.Flushed?
      ensures stored == Saved(old(stored), versions, fault)
    {
      match fault {
        case Flushed => stored := Readable(versions);
        case OpenFailed =>
        case DumpFailed => stored := Unreadable;
      }
      ok := fault.Flushed?;
    }
  }
}
