/** How often each lesson has been completed: the per-user documents of
    `lesson_progress` in Firestore, keyed by lesson file name, and the local
    copy in each lesson's `playCount` (script.js:184-241). */
module PlayCounts {
  import opened Wrappers
  import opened Lessons

  /** The user's progress documents: a document exists for a file name when
      it is a key, and holds `Some(n)` when its `playCount` field is a number
      `n` other than 0, `None` when the field is missing or falsy. */
  type Store = map<string, Option<int>>

  /** A document's play count, with a missing or falsy field read as 0
      (script.js:199, 228). */
  function FieldOr0(field: Option<int>): int {
    match field
    case Some(n) => n
    case None => 0
  }

  /** The count the game shows for a file: its document's count, or 0 when
      there is no document. */
  function StoredCount(store: Store, filename: string): int {
    if filename in store then FieldOr0(store[filename]) else 0
  }

  /** Every lesson shows the count stored for its file. */
  ghost predicate Synced(lessons: seq<Lesson>, store: Store) {
    forall i :: 0 <= i < |lessons| ==> lessons[i].playCount == StoredCount(store, lessons[i].filename)
  }

  /** No two lessons come from the same file. */
  ghost predicate DistinctFilenames(lessons: seq<Lesson>) {
    forall i, j :: 0 <= i < j < |lessons| ==> lessons[i].filename != lessons[j].filename
  }

  /** `lessons` and `r` differ at most in their play counts. */
  ghost predicate SameButCounts(lessons: seq<Lesson>, r: seq<Lesson>) {
    && |r| == |lessons|
    && forall i :: 0 <= i < |r| ==> r[i] == lessons[i].(playCount := r[i].playCount)
  }

  /** `getLessonPlayCounts`: when Firebase is ready and the query
      succeeds, every lesson takes the count stored for its file; otherwise
      nothing changes. */
  function MergeCounts(lessons: seq<Lesson>, store: Store, ready: bool, failed: bool): (r: seq<Lesson>)
    ensures SameButCounts(lessons, r)
    ensures !ready || failed ==> r == lessons
  {
    if !ready || failed then lessons
    else seq(|lessons|, i requires 0 <= i < |lessons| =>
               lessons[i].(playCount := StoredCount(store, lessons[i].filename)))
  }

  /** After a successful merge the lessons agree with the store, and a
      second merge changes nothing. */
  lemma MergeSyncs(lessons: seq<Lesson>, store: Store)
    ensures Synced(MergeCounts(lessons, store, true, false), store)
    ensures MergeCounts(MergeCounts(lessons, store, true, false), store, true, false)
              == MergeCounts(lessons, store, true, false)
  {
  }

  /** Lessons already in sync are left as they are by a merge. */
  lemma MergeKeepsSynced(lessons: seq<Lesson>, store: Store, ready: bool, failed: bool)
    requires Synced(lessons, store)
    ensures MergeCounts(lessons, store, ready, failed) == lessons
  {
  }

  /** The document write of `updateLessonPlayCount`: an existing document
      gets its count plus one, a missing one is created with count 1. */
  function RecordPlay(store: Store, filename: string): (r: Store)
    ensures r.Keys == store.Keys + {filename}
    ensures StoredCount(r, filename) == StoredCount(store, filename) + 1
    ensures forall f :: f != filename ==> (f in r <==> f in store) && (f in store ==> r[f] == store[f])
  {
    if filename in store then store[filename := Some(FieldOr0(store[filename]) + 1)]
    else store[filename := Some(1)]
  }

  /** `lessons[i]` is the first lesson from the file. */
  ghost predicate FirstFrom(lessons: seq<Lesson>, filename: string, i: nat)
    requires i < |lessons|
  {
    lessons[i].filename == filename && forall j :: 0 <= j < i ==> lessons[j].filename != filename
  }

  /** The local update of `updateLessonPlayCount`: the first lesson from
      the file, if any, counts one more play. */
  function BumpLocal(lessons: seq<Lesson>, filename: string): (r: seq<Lesson>)
    ensures SameButCounts(lessons, r)
    ensures forall i :: 0 <= i < |r| ==>
              r[i].playCount == lessons[i].playCount + (if FirstFrom(lessons, filename, i) then 1 else 0)
  {
    if lessons == [] then []
    else if lessons[0].filename == filename then
      [lessons[0].(playCount := lessons[0].playCount + 1)] + lessons[1..]
    else
      [lessons[0]] + BumpLocal(lessons[1..], filename)
  }

  /** The lessons and the documents together. */
  datatype Progress = Progress(lessons: seq<Lesson>, store: Store)

  /** `updateLessonPlayCount(filename)`: when Firebase is ready and the
      document reads and writes succeed, the document and the local lesson
      each count one more play; otherwise nothing changes. */
  function UpdatePlayCount(p: Progress, filename: string, ready: bool, failed: bool): (r: Progress)
    ensures !ready || failed ==> r == p
    ensures forall f :: StoredCount(r.store, f)
              == StoredCount(p.store, f) + (if f == filename && ready && !failed then 1 else 0)
  {
    if !ready || failed then p
    else Progress(BumpLocal(p.lessons, filename), RecordPlay(p.store, filename))
  }

  /** With one lesson per file, an update keeps the lessons in sync with
      the store, and only the updated file's count moves, by one. */
  lemma UpdateKeepsSynced(p: Progress, filename: string, ready: bool, failed: bool)
    requires Synced(p.lessons, p.store)
    requires DistinctFilenames(p.lessons)
    ensures Synced(UpdatePlayCount(p, filename, ready, failed).lessons,
                   UpdatePlayCount(p, filename, ready, failed).store)
    ensures forall f :: StoredCount(UpdatePlayCount(p, filename, ready, failed).store, f)
              == StoredCount(p.store, f) + (if f == filename && ready && !failed then 1 else 0)
  {
    var r := UpdatePlayCount(p, filename, ready, failed);
    if ready && !failed {
      forall i | 0 <= i < |r.lessons|
        ensures r.lessons[i].playCount == StoredCount(r.store, r.lessons[i].filename)
      {
        if p.lessons[i].filename == filename {
          assert FirstFrom(p.lessons, filename, i);
        }
      }
    }
  }
}
